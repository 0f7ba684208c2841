/**
 The object monitor (object_monitor.c): watchers per object in order of priority, notifications that
 wait until the response has been sent, and the ready list from which callbacks are made.
 The lists are sequences; `refs` counts the placeholders of a notification.
 */
module ObjectMonitor {
  type Oid = seq<nat>

  /** A `monitor_info`; `id` tells two registrations apart as their addresses do.  Event masks are sets of bits. */
  datatype Watcher = Watcher(id: nat, priority: int, events: set<nat>, data: nat, callback: nat)

  /** A callback header. */
  datatype Note = Note(serial: nat, oid: Oid, event: set<nat>)

  /** A callback placeholder. */
  datatype Ready = Ready(watcher: Watcher, note: Note)

  datatype State = State(
    watchers: map<Oid, seq<Watcher>>,
    pending: seq<Note>,
    ready: seq<Ready>,
    refs: map<Note, nat>,
    nextId: nat,
    // history
    notified: seq<Note>,
    moved: map<Note, seq<Watcher>>,
    delivered: seq<Ready>,
    freed: seq<Note>)

  predicate Watches(w: Watcher, event: set<nat>) {
    w.events * event != {}
  }

  lemma WatchesIff(w: Watcher, event: set<nat>)
    ensures Watches(w, event) <==> exists b :: b in w.events && b in event
  {
    if Watches(w, event) {
      var b :| b in w.events * event;
    }
    if b :| b in w.events && b in event {
      assert b in w.events * event;
    }
  }

  function WatchersOf(s: State, oid: Oid): seq<Watcher> {
    if oid in s.watchers then s.watchers[oid] else []
  }

  // ----- insert_watcher -----

  /** Where a registration goes: behind everything of at least its priority. */
  function WatcherPos(ws: seq<Watcher>, priority: int): (i: nat)
    ensures i <= |ws|
    ensures forall k :: 0 <= k < i ==> ws[k].priority >= priority
    ensures i < |ws| ==> priority > ws[i].priority
  {
    if ws == [] || priority > ws[0].priority then 0 else 1 + WatcherPos(ws[1..], priority)
  }

  predicate Duplicate(ws: seq<Watcher>, w: Watcher) {
    exists k :: 0 <= k < |ws| && ws[k].priority == w.priority && ws[k].data == w.data
  }

  function InsertWatcher(ws: seq<Watcher>, w: Watcher): seq<Watcher> {
    var i := WatcherPos(ws, w.priority);
    ws[..i] + [w] + ws[i..]
  }

  ghost predicate SortedWatchers(ws: seq<Watcher>) {
    forall i, j :: 0 <= i < j < |ws| ==> ws[i].priority >= ws[j].priority
  }

  /** No two registrations for an object agree on priority and watcher data. */
  ghost predicate DistinctWatchers(ws: seq<Watcher>) {
    forall i, j :: 0 <= i < j < |ws| ==> !(ws[i].priority == ws[j].priority && ws[i].data == ws[j].data)
  }

  /** The walk of `insert_watcher`: a duplicate is met before the place is, because the list is sorted. */
  method FindWatcherPlace(ws: seq<Watcher>, w: Watcher) returns (dup: bool, out: seq<Watcher>)
    requires SortedWatchers(ws)
    ensures dup <==> Duplicate(ws, w)
    ensures out == if dup then ws else InsertWatcher(ws, w)
  {
    var i := 0;
    while i < |ws|
      invariant i <= |ws|
      invariant forall k :: 0 <= k < i ==> ws[k].priority >= w.priority && !(ws[k].priority == w.priority && ws[k].data == w.data)
      invariant i + WatcherPos(ws[i..], w.priority) == WatcherPos(ws, w.priority)
    {
      if w.priority == ws[i].priority {
        if w.data == ws[i].data {
          return true, ws;
        }
      } else if w.priority > ws[i].priority {
        break;
      }
      assert ws[i..][1..] == ws[i + 1..];
      i := i + 1;
    }
    return false, ws[..i] + [w] + ws[i..];
  }

  lemma InsertWatcherKeeps(ws: seq<Watcher>, w: Watcher)
    requires SortedWatchers(ws) && DistinctWatchers(ws) && !Duplicate(ws, w)
    ensures SortedWatchers(InsertWatcher(ws, w)) && DistinctWatchers(InsertWatcher(ws, w))
    ensures multiset(InsertWatcher(ws, w)) == multiset(ws) + multiset{w}
  {
    InsertWatcherSorts(ws, w);
    InsertWatcherDistinct(ws, w);
    InsertWatcherAdds(ws, w);
    hide SortedWatchers, DistinctWatchers, InsertWatcher, Duplicate;
  }

  lemma InsertWatcherAdds(ws: seq<Watcher>, w: Watcher)
    ensures multiset(InsertWatcher(ws, w)) == multiset(ws) + multiset{w}
  {
    hide WatcherPos;
    var i := WatcherPos(ws, w.priority);
    assert ws == ws[..i] + ws[i..];
  }

  lemma InsertWatcherSorts(ws: seq<Watcher>, w: Watcher)
    requires SortedWatchers(ws)
    ensures SortedWatchers(InsertWatcher(ws, w))
  {
    InsertedThere(ws, w);
    hide WatcherPos, InsertWatcher;
  }

  lemma InsertWatcherDistinct(ws: seq<Watcher>, w: Watcher)
    requires DistinctWatchers(ws) && !Duplicate(ws, w)
    ensures DistinctWatchers(InsertWatcher(ws, w))
  {
    assert forall k :: 0 <= k < |ws| ==> !(ws[k].priority == w.priority && ws[k].data == w.data);
    InsertedThere(ws, w);
    hide WatcherPos, InsertWatcher, Duplicate;
  }

  lemma InsertedThere(ws: seq<Watcher>, w: Watcher)
    ensures var out, i := InsertWatcher(ws, w), WatcherPos(ws, w.priority);
            && |out| == |ws| + 1 && out[i] == w
            && (forall k :: 0 <= k < i ==> out[k] == ws[k])
            && (forall k :: i < k < |out| ==> out[k] == ws[k - 1])
  {
    hide WatcherPos;
  }

  // ----- insert_ready -----

  function ReadyPos(ready: seq<Ready>, priority: int): (i: nat)
    ensures i <= |ready|
    ensures forall k :: 0 <= k < i ==> ready[k].watcher.priority >= priority
    ensures i < |ready| ==> priority > ready[i].watcher.priority
  {
    if ready == [] || priority > ready[0].watcher.priority then 0 else 1 + ReadyPos(ready[1..], priority)
  }

  function InsertReady(ready: seq<Ready>, x: Ready): seq<Ready> {
    var i := ReadyPos(ready, x.watcher.priority);
    ready[..i] + [x] + ready[i..]
  }

  method PutReady(ready: seq<Ready>, x: Ready) returns (out: seq<Ready>)
    ensures out == InsertReady(ready, x)
  {
    var i := 0;
    while i < |ready| && x.watcher.priority <= ready[i].watcher.priority
      invariant i <= |ready|
      invariant i + ReadyPos(ready[i..], x.watcher.priority) == ReadyPos(ready, x.watcher.priority)
    {
      assert ready[i..][1..] == ready[i + 1..];
      i := i + 1;
    }
    out := ready[..i] + [x] + ready[i..];
  }

  ghost predicate SortedReady(ready: seq<Ready>) {
    forall i, j :: 0 <= i < j < |ready| ==> ready[i].watcher.priority >= ready[j].watcher.priority
  }

  /** How many placeholders a notification has. */
  function NumReady(ready: seq<Ready>, n: Note): nat {
    if ready == [] then 0 else (if ready[0].note == n then 1 else 0) + NumReady(ready[1..], n)
  }

  lemma {:induction false} NumReadyAppend(a: seq<Ready>, b: seq<Ready>, n: Note)
    ensures NumReady(a + b, n) == NumReady(a, n) + NumReady(b, n)
  {
    if a == [] {
      assert a + b == b;
    } else {
      assert (a + b)[1..] == a[1..] + b;
      NumReadyAppend(a[1..], b, n);
    }
  }

  lemma InsertReadyKeeps(ready: seq<Ready>, x: Ready, n: Note)
    requires SortedReady(ready)
    ensures var out := InsertReady(ready, x);
            && SortedReady(out)
            && multiset(out) == multiset(ready) + multiset{x}
            && NumReady(out, n) == NumReady(ready, n) + if x.note == n then 1 else 0
  {
    hide NumReady, SortedReady, InsertReady;
    InsertReadySorts(ready, x);
    InsertReadyCounts(ready, x, n);
  }

  lemma InsertReadySorts(ready: seq<Ready>, x: Ready)
    requires SortedReady(ready)
    ensures SortedReady(InsertReady(ready, x))
  {
    hide ReadyPos;
    var i := ReadyPos(ready, x.watcher.priority);
    var out := InsertReady(ready, x);
    assert forall k :: 0 <= k < |out| ==> out[k] == if k < i then ready[k] else if k == i then x else ready[k - 1];
    hide InsertReady;
  }

  lemma InsertReadyCounts(ready: seq<Ready>, x: Ready, n: Note)
    ensures var out := InsertReady(ready, x);
            && multiset(out) == multiset(ready) + multiset{x}
            && NumReady(out, n) == NumReady(ready, n) + if x.note == n then 1 else 0
  {
    hide NumReady, ReadyPos;
    var i := ReadyPos(ready, x.watcher.priority);
    assert ready == ready[..i] + ready[i..];
    NumReadyAppend(ready[..i], ready[i..], n);
    NumReadyAppend(ready[..i] + [x], ready[i..], n);
    NumReadyAppend(ready[..i], [x], n);
    NumReadyOne(x, n);
  }

  lemma NumReadyOne(x: Ready, n: Note)
    ensures NumReady([x], n) == if x.note == n then 1 else 0
  {
  }

  // ----- move_pending_to_ready -----

  function Matching(ws: seq<Watcher>, event: set<nat>): seq<Watcher> {
    if ws == [] then []
    else if Watches(ws[0], event) then [ws[0]] + Matching(ws[1..], event)
    else Matching(ws[1..], event)
  }

  /** One placeholder per watcher of the event, each filed by priority. */
  function FileAll(ready: seq<Ready>, ws: seq<Watcher>, n: Note): seq<Ready>
    decreases |ws|
  {
    if ws == [] then ready else FileAll(InsertReady(ready, Ready(ws[0], n)), ws[1..], n)
  }

  function MoveFirst(s: State): State
    requires s.pending != []
  {
    var n := s.pending[0];
    var ws := Matching(WatchersOf(s, n.oid), n.event);
    var s1 := s.(pending := s.pending[1..], moved := s.moved[n := ws]);
    if ws == [] then s1.(freed := s.freed + [n])
    else s1.(ready := FileAll(s.ready, ws, n), refs := s.refs[n := |ws|])
  }

  function MoveAll(s: State): State
    decreases |s.pending|
  {
    if s.pending == [] then s else MoveAll(MoveFirst(s))
  }

  /** `check_registered`: the first watcher of the event, if there is one. */
  method CheckRegistered(ws: seq<Watcher>, event: set<nat>) returns (first: nat)
    ensures first <= |ws| && Matching(ws[first..], event) == Matching(ws, event)
    ensures first == |ws| <==> Matching(ws, event) == []
  {
    first := 0;
    while first < |ws| && !Watches(ws[first], event)
      invariant first <= |ws| && Matching(ws[first..], event) == Matching(ws, event)
    {
      assert ws[first..][1..] == ws[first + 1..];
      first := first + 1;
    }
  }

  /** File a placeholder for every watcher of the event, from position `first` on. */
  method FileWatchers(ready: seq<Ready>, ws: seq<Watcher>, first: nat, n: Note) returns (count: nat, out: seq<Ready>)
    requires first <= |ws|
    ensures count == |Matching(ws[first..], n.event)|
    ensures out == FileAll(ready, Matching(ws[first..], n.event), n)
  {
    hide InsertReady;
    ghost var all := Matching(ws[first..], n.event);
    count, out := 0, ready;
    for i := first to |ws|
      invariant count + |Matching(ws[i..], n.event)| == |all|
      invariant FileAll(out, Matching(ws[i..], n.event), n) == FileAll(ready, all, n)
    {
      assert ws[i..][1..] == ws[i + 1..];
      if Watches(ws[i], n.event) {
        assert Matching(ws[i..], n.event)[1..] == Matching(ws[i + 1..], n.event);
        out := PutReady(out, Ready(ws[i], n));
        count := count + 1;
      }
    }
  }

  // ----- one callback -----

  /** The callback has run, and notified of `notes`, the last of them first on the list. */
  function Notify(s: State, oid: Oid, event: set<nat>): State {
    var n := Note(s.nextId, oid, event);
    s.(pending := [n] + s.pending, nextId := s.nextId + 1, notified := s.notified + [n])
  }

  function NotifyAll(s: State, notes: seq<(Oid, set<nat>)>): State
    decreases |notes|
  {
    if notes == [] then s else NotifyAll(Notify(s, notes[0].0, notes[0].1), notes[1..])
  }

  function Unref(s: State, n: Note): State {
    if n in s.refs && s.refs[n] > 1 then s.(refs := s.refs[n := s.refs[n] - 1])
    else s.(refs := s.refs - {n}, freed := s.freed + [n])
  }

  /** One pass of `netsnmp_monitor_process_callbacks`. */
  function Deliver(s: State, notes: seq<(Oid, set<nat>)>): State
    requires s.ready != []
  {
    var x := s.ready[0];
    var s1 := s.(ready := s.ready[1..], delivered := s.delivered + [x]);
    MoveAll(Unref(NotifyAll(s1, notes), x.note))
  }

  // ----- registering and unregistering -----

  function Register(s: State, oid: Oid, priority: int, events: set<nat>, data: nat, callback: nat): State {
    var w := Watcher(s.nextId, priority, events, data, callback);
    var ws := WatchersOf(s, oid);
    if Duplicate(ws, w) then s
    else s.(watchers := s.watchers[oid := InsertWatcher(ws, w)], nextId := s.nextId + 1)
  }

  predicate Registration(w: Watcher, priority: int, data: nat, callback: nat) {
    w.callback == callback && w.priority == priority && w.data == data
  }

  /** The first registration with this priority, data and callback. */
  function FindRegistration(ws: seq<Watcher>, priority: int, data: nat, callback: nat): (i: nat)
    ensures i <= |ws|
    ensures i < |ws| ==> Registration(ws[i], priority, data, callback)
    ensures forall k :: 0 <= k < i ==> !Registration(ws[k], priority, data, callback)
  {
    if ws == [] || Registration(ws[0], priority, data, callback) then 0
    else 1 + FindRegistration(ws[1..], priority, data, callback)
  }

  function Unregister(s: State, oid: Oid, priority: int, data: nat, callback: nat): State {
    var ws := WatchersOf(s, oid);
    var i := FindRegistration(ws, priority, data, callback);
    if i == |ws| then s
    else
      var rest := ws[..i] + ws[i + 1..];
      s.(watchers := if rest == [] then s.watchers - {oid} else s.watchers[oid := rest])
  }

  // ----- the monitor object -----

  class Monitor {
    var watchers: map<Oid, seq<Watcher>>
    var pending: seq<Note>
    var ready: seq<Ready>
    var refs: map<Note, nat>
    var nextId: nat
    ghost var notified: seq<Note>
    ghost var moved: map<Note, seq<Watcher>>
    ghost var delivered: seq<Ready>
    ghost var freed: seq<Note>

    ghost function Value(): State
      reads this
    {
      State(watchers, pending, ready, refs, nextId, notified, moved, delivered, freed)
    }

    constructor ()
      ensures Value() == EMPTY
    {
      watchers, pending, ready, refs, nextId := map[], [], [], map[], 0;
      notified, moved, delivered, freed := [], map[], [], [];
    }

    /** `netsnmp_monitor_register`: refused for a duplicate. */
    method RegisterWatcher(oid: Oid, priority: int, events: set<nat>, data: nat, callback: nat) returns (ok: bool)
      requires forall o :: o in watchers ==> SortedWatchers(watchers[o])
      modifies this
      ensures ok <==> !old(Duplicate(WatchersOf(Value(), oid), Watcher(nextId, priority, events, data, callback)))
      ensures Value() == Register(old(Value()), oid, priority, events, data, callback)
    {
      var w := Watcher(nextId, priority, events, data, callback);
      var ws := if oid in watchers then watchers[oid] else [];
      var dup, out := FindWatcherPlace(ws, w);
      if !dup {
        watchers := watchers[oid := out];
        nextId := nextId + 1;
      }
      ok := !dup;
    }

    /** `netsnmp_monitor_unregister`: an object without watchers leaves the container. */
    method UnregisterWatcher(oid: Oid, priority: int, data: nat, callback: nat) returns (ok: bool)
      modifies this
      ensures Value() == Unregister(old(Value()), oid, priority, data, callback)
      ensures ok <==> exists w :: w in old(WatchersOf(Value(), oid)) && Registration(w, priority, data, callback)
    {
      var ws := if oid in watchers then watchers[oid] else [];
      var i := 0;
      while i < |ws| && !Registration(ws[i], priority, data, callback)
        invariant i <= |ws|
        invariant i + FindRegistration(ws[i..], priority, data, callback) == FindRegistration(ws, priority, data, callback)
      {
        assert ws[i..][1..] == ws[i + 1..];
        i := i + 1;
      }
      if i == |ws| {
        return false;
      }
      assert Registration(ws[i], priority, data, callback);
      var rest := ws[..i] + ws[i + 1..];
      watchers := if rest == [] then watchers - {oid} else watchers[oid := rest];
      ok := true;
    }

    /** `netsnmp_notify_monitor`. */
    method NotifyMonitor(oid: Oid, event: set<nat>)
      modifies this
      ensures Value() == Notify(old(Value()), oid, event)
    {
      pending := [Note(nextId, oid, event)] + pending;
      notified := notified + [Note(nextId, oid, event)];
      nextId := nextId + 1;
    }

    /** `move_pending_to_ready`: notifications without a watcher are freed. */
    method MovePendingToReady()
      modifies this
      ensures Value() == MoveAll(old(Value()))
    {
      hide MoveFirst;
      while pending != []
        invariant MoveAll(Value()) == MoveAll(old(Value()))
        decreases |pending|
      {
        MoveOne();
      }
    }

    /** The body of its loop. */
    method MoveOne()
      requires pending != []
      modifies this
      ensures Value() == MoveFirst(old(Value())) && |pending| < old(|pending|)
    {
      hide FileAll, Matching;
      var n := pending[0];
      var ws := if n.oid in watchers then watchers[n.oid] else [];
      pending := pending[1..];
      moved := moved[n := Matching(ws, n.event)];
      var first := CheckRegistered(ws, n.event);
      if first == |ws| {
        freed := freed + [n];
      } else {
        var count, r := FileWatchers(ready, ws, first, n);
        ready := r;
        refs := refs[n := count];
      }
    }

    /** `netsnmp_monitor_process_callbacks`, one pass; the callback's notifications are its argument. */
    method ProcessOne(notes: seq<(Oid, set<nat>)>) returns (called: Ready)
      requires ready != []
      modifies this
      ensures called == old(ready)[0]
      ensures Value() == Deliver(old(Value()), notes)
    {
      hide MoveAll;
      called := ready[0];
      ready := ready[1..];
      delivered := delivered + [called];
      ghost var s1 := Value();
      for i := 0 to |notes|
        invariant NotifyAll(Value(), notes[i..]) == NotifyAll(s1, notes)
      {
        assert notes[i..][1..] == notes[i + 1..];
        NotifyMonitor(notes[i].0, notes[i].1);
      }
      var n := called.note;
      if n in refs && refs[n] > 1 {
        refs := refs[n := refs[n] - 1];
      } else {
        refs := refs - {n};
        freed := freed + [n];
      }
      MovePendingToReady();
    }
  }

  const EMPTY := State(map[], [], [], map[], 0, [], map[], [], [])

  // ----- what every run keeps -----

  ghost predicate Distinct<T(!new)>(s: seq<T>) {
    forall i, j :: 0 <= i < j < |s| ==> s[i] != s[j]
  }

  /** Every registration list is in order of priority, without duplicates, and made of known watchers. */
  ghost predicate WatchersOk(ws: seq<Watcher>, nextId: nat) {
    SortedWatchers(ws) && DistinctWatchers(ws) && forall i :: 0 <= i < |ws| ==> ws[i].id < nextId
  }

  /** Whether a placeholder for this watcher and notification was ever due. */
  ghost predicate Due(s: State, x: Ready) {
    x.note in s.moved && x.watcher in s.moved[x.note]
  }

  /** Deliveries and placeholders together are exactly what was due, each once. */
  ghost predicate Conserved(s: State) {
    forall x :: multiset(s.delivered)[x] + multiset(s.ready)[x] == if Due(s, x) then 1 else 0
  }

  /** `refs` counts placeholders, and a notification has been freed, once, exactly when none is left. */
  ghost predicate Counted(s: State) {
    && (forall n :: NumReady(s.ready, n) == if n in s.refs then s.refs[n] else 0)
    && (forall n :: n in s.refs ==> s.refs[n] > 0 && n in s.moved)
    && (forall n :: multiset(s.freed)[n] == if n in s.moved && n !in s.refs then 1 else 0)
  }

  /** Notifications are told apart, and none is both pending and moved. */
  ghost predicate Fresh(s: State) {
    && (forall i :: 0 <= i < |s.pending| ==> s.pending[i].serial < s.nextId && s.pending[i] !in s.moved)
    && (forall i, j :: 0 <= i < j < |s.pending| ==> s.pending[i] != s.pending[j])
    && (forall n :: n in s.moved ==> n.serial < s.nextId)
  }

  /** Every notification ever made is pending or has been moved, once. */
  ghost predicate Accounted(s: State) {
    multiset(s.notified) == multiset(s.pending) + multiset(s.moved.Keys)
  }

  /** Every placeholder is for a watcher that is still registered, so its callback may be made. */
  ghost predicate Live(s: State) {
    forall x :: x in s.ready ==> x.watcher in WatchersOf(s, x.note.oid)
  }

  ghost predicate Inv(s: State) {
    && (forall oid :: oid in s.watchers ==> WatchersOk(s.watchers[oid], s.nextId))
    && SortedReady(s.ready) && Conserved(s) && Counted(s) && Fresh(s) && Accounted(s) && Live(s)
  }

  lemma {:induction false} MatchingIs(ws: seq<Watcher>, event: set<nat>, w: Watcher)
    ensures w in Matching(ws, event) <==> w in ws && Watches(w, event)
    ensures DistinctWatchers(ws) ==> Distinct(Matching(ws, event))
  {
    if ws != [] {
      MatchingIs(ws[1..], event, w);
      assert w in ws <==> w == ws[0] || w in ws[1..];
      if DistinctWatchers(ws) {
        FirstNotAgain(ws, event);
      }
    }
  }

  lemma {:induction false} MatchingWithin(ws: seq<Watcher>, event: set<nat>)
    ensures forall w :: w in Matching(ws, event) ==> w in ws
  {
    if ws != [] {
      MatchingWithin(ws[1..], event);
    }
  }

  lemma FirstNotAgain(ws: seq<Watcher>, event: set<nat>)
    requires ws != [] && DistinctWatchers(ws)
    ensures ws[0] !in Matching(ws[1..], event) && DistinctWatchers(ws[1..])
  {
    hide Matching;
    MatchingWithin(ws[1..], event);
  }

  /** Filing placeholders adds one for each watcher listed, and keeps the order of priority. */
  lemma {:induction false} FileAllKeeps(ready: seq<Ready>, ws: seq<Watcher>, n: Note, m: Note)
    requires SortedReady(ready) && Distinct(ws)
    ensures var out := FileAll(ready, ws, n);
            && SortedReady(out)
            && NumReady(out, m) == NumReady(ready, m) + (if m == n then |ws| else 0)
            && (forall x :: multiset(out)[x] == multiset(ready)[x] + if x.note == n && x.watcher in ws then 1 else 0)
    decreases |ws|
  {
    hide InsertReady, NumReady;
    if ws != [] {
      var x := Ready(ws[0], n);
      InsertReadyKeeps(ready, x, m);
      FileAllKeeps(InsertReady(ready, x), ws[1..], n, m);
      assert ws[0] !in ws[1..];
      assert forall w :: w in ws <==> w == ws[0] || w in ws[1..];
    }
  }

  lemma MoveFirstConserves(s: State)
    requires Conserved(s) && SortedReady(s.ready) && s.pending != [] && s.pending[0] !in s.moved
    requires Distinct(Matching(WatchersOf(s, s.pending[0].oid), s.pending[0].event))
    ensures Conserved(MoveFirst(s)) && SortedReady(MoveFirst(s).ready)
  {
    hide FileAll, Matching, NumReady, SortedReady, Distinct;
    var n := s.pending[0];
    var ws := Matching(WatchersOf(s, n.oid), n.event);
    var s' := MoveFirst(s);
    FileAllKeeps(s.ready, ws, n, n);
    forall x ensures multiset(s'.delivered)[x] + multiset(s'.ready)[x] == if Due(s', x) then 1 else 0 {
      assert Due(s', x) <==> if x.note == n then x.watcher in ws else Due(s, x);
      assert x.note == n ==> !Due(s, x);
    }
  }

  lemma MoveFirstCounts(s: State)
    requires Counted(s) && SortedReady(s.ready) && s.pending != [] && s.pending[0] !in s.moved
    requires Distinct(Matching(WatchersOf(s, s.pending[0].oid), s.pending[0].event))
    ensures Counted(MoveFirst(s))
  {
    hide FileAll, Matching, NumReady, SortedReady, Distinct, WatchersOf, Counted;
    var n := s.pending[0];
    var ws := Matching(WatchersOf(s, n.oid), n.event);
    var s' := MoveFirst(s);
    if ws == [] {
      FreedCounts(s, s', n);
    } else {
      forall m ensures NumReady(s'.ready, m) == NumReady(s.ready, m) + if m == n then |ws| else 0 {
        FileAllKeeps(s.ready, ws, n, m);
      }
      FiledCounts(s, s', n, |ws|);
    }
  }

  lemma FreedCounts(s: State, s': State, n: Note)
    requires Counted(s) && n !in s.moved && s'.moved.Keys == s.moved.Keys + {n}
    requires s'.ready == s.ready && s'.refs == s.refs && s'.freed == s.freed + [n]
    ensures Counted(s')
  {
    hide NumReady;
  }

  lemma FiledCounts(s: State, s': State, n: Note, k: nat)
    requires Counted(s) && n !in s.moved && s'.moved.Keys == s.moved.Keys + {n} && k > 0
    requires forall m :: NumReady(s'.ready, m) == NumReady(s.ready, m) + if m == n then k else 0
    requires s'.refs == s.refs[n := k] && s'.freed == s.freed
    ensures Counted(s')
  {
    hide NumReady;
  }

  lemma MoveFirstAccounts(s: State)
    requires Accounted(s) && s.pending != [] && s.pending[0] !in s.moved
    ensures Accounted(MoveFirst(s))
  {
    hide MoveFirst;
    MoveFirstFields(s);
    FirstIsMoved(s.pending, s.moved.Keys);
  }

  lemma MoveFirstFields(s: State)
    requires s.pending != []
    ensures var s' := MoveFirst(s);
            s'.pending == s.pending[1..] && s'.notified == s.notified && s'.moved.Keys == s.moved.Keys + {s.pending[0]}
  {
    hide FileAll, Matching, WatchersOf;
  }

  lemma FirstIsMoved(pending: seq<Note>, keys: set<Note>)
    requires pending != [] && pending[0] !in keys
    ensures multiset(pending[1..]) + multiset(keys + {pending[0]}) == multiset(pending) + multiset(keys)
  {
    assert pending == [pending[0]] + pending[1..];
    OneMoreKey(keys, pending[0]);
  }

  lemma OneMoreKey(keys: set<Note>, n: Note)
    requires n !in keys
    ensures multiset(keys + {n}) == multiset(keys) + multiset{n}
  {
  }

  lemma MoveFirstLive(s: State)
    requires Live(s) && SortedReady(s.ready) && s.pending != []
    requires Distinct(Matching(WatchersOf(s, s.pending[0].oid), s.pending[0].event))
    ensures Live(MoveFirst(s))
  {
    hide FileAll, Matching, NumReady, SortedReady, Distinct;
    var n := s.pending[0];
    var all := WatchersOf(s, n.oid);
    var ws := Matching(all, n.event);
    var s' := MoveFirst(s);
    FileAllKeeps(s.ready, ws, n, n);
    MatchingWithin(all, n.event);
    forall x | x in s'.ready ensures x.watcher in WatchersOf(s', x.note.oid) {
      assert multiset(s'.ready)[x] > 0;
      assert x in multiset(s.ready) <==> x in s.ready;
    }
  }

  lemma MoveFirstKeeps(s: State)
    requires Inv(s) && s.pending != []
    ensures Inv(MoveFirst(s))
  {
    hide FileAll, Matching, SortedReady, WatchersOk, Conserved, Counted, Accounted, Live, Distinct;
    MatchedDistinct(s, s.pending[0]);
    MoveFirstConserves(s);
    MoveFirstCounts(s);
    MoveFirstAccounts(s);
    MoveFirstLive(s);
    var s' := MoveFirst(s);
    assert forall i :: 0 <= i < |s'.pending| ==> s'.pending[i] == s.pending[i + 1];
  }

  lemma MatchedDistinct(s: State, n: Note)
    requires Inv(s)
    ensures Distinct(Matching(WatchersOf(s, n.oid), n.event))
  {
    hide Matching, Conserved, Counted, Accounted, Live, Fresh;
    var ws := WatchersOf(s, n.oid);
    assert DistinctWatchers(ws);
    MatchingIs(ws, n.event, Watcher(0, 0, {}, 0, 0));
  }

  lemma {:induction false} MoveAllKeeps(s: State)
    requires Inv(s)
    ensures Inv(MoveAll(s)) && MoveAll(s).pending == [] && MoveAll(s).delivered == s.delivered
    decreases |s.pending|
  {
    hide Inv, FileAll, Matching;
    if s.pending != [] {
      MoveFirstKeeps(s);
      MoveAllKeeps(MoveFirst(s));
    }
  }

  lemma NotifyAccounts(s: State, oid: Oid, event: set<nat>)
    requires Accounted(s) && Live(s)
    ensures Accounted(Notify(s, oid, event)) && Live(Notify(s, oid, event))
  {
  }

  lemma NotifyKeeps(s: State, oid: Oid, event: set<nat>)
    requires Inv(s)
    ensures Inv(Notify(s, oid, event))
  {
    hide SortedReady, SortedWatchers, DistinctWatchers, Live, Accounted, Conserved, Counted, Fresh, Notify;
    NotifyAccounts(s, oid, event);
    NotifyConserves(s, oid, event);
    NotifyIsFresh(s, oid, event);
    assert Notify(s, oid, event).watchers == s.watchers && Notify(s, oid, event).nextId == s.nextId + 1
        && Notify(s, oid, event).ready == s.ready by { NotifyFields(s, oid, event); }
  }

  lemma NotifyFields(s: State, oid: Oid, event: set<nat>)
    ensures var s' := Notify(s, oid, event); s'.watchers == s.watchers && s'.nextId == s.nextId + 1 && s'.ready == s.ready
  {
  }

  lemma NotifyConserves(s: State, oid: Oid, event: set<nat>)
    requires Conserved(s) && Counted(s)
    ensures Conserved(Notify(s, oid, event)) && Counted(Notify(s, oid, event))
  {
    hide NumReady;
    assert forall x :: Due(Notify(s, oid, event), x) <==> Due(s, x);
  }

  lemma NotifyIsFresh(s: State, oid: Oid, event: set<nat>)
    requires Fresh(s)
    ensures Fresh(Notify(s, oid, event))
  {
    var s' := Notify(s, oid, event);
    forall i, j | 0 <= i < j < |s'.pending| ensures s'.pending[i] != s'.pending[j] {
      assert s'.pending[j] == s.pending[j - 1];
      if i > 0 { assert s'.pending[i] == s.pending[i - 1]; }
    }
  }

  lemma {:induction false} NotifyAllKeeps(s: State, notes: seq<(Oid, set<nat>)>)
    requires Inv(s)
    ensures Inv(NotifyAll(s, notes)) && NotifyAll(s, notes).delivered == s.delivered
    decreases |notes|
  {
    hide Inv;
    if notes != [] {
      NotifyKeeps(s, notes[0].0, notes[0].1);
      NotifyAllKeeps(Notify(s, notes[0].0, notes[0].1), notes[1..]);
    }
  }

  /** Notifying and releasing a reference do not touch each other. */
  lemma {:induction false} UnrefCommutes(s: State, notes: seq<(Oid, set<nat>)>, n: Note)
    ensures Unref(NotifyAll(s, notes), n) == NotifyAll(Unref(s, n), notes)
    decreases |notes|
  {
    if notes != [] {
      UnrefCommutes(Notify(s, notes[0].0, notes[0].1), notes[1..], n);
    }
  }

  /** The state after the callback for the first placeholder has returned. */
  function Popped(s: State): State
    requires s.ready != []
  {
    Unref(s.(ready := s.ready[1..], delivered := s.delivered + [s.ready[0]]), s.ready[0].note)
  }

  lemma PopConserves(s: State)
    requires Conserved(s) && s.ready != []
    ensures Conserved(Popped(s))
  {
    var x, s' := s.ready[0], Popped(s);
    assert s.ready == [x] + s.ready[1..];
    forall y ensures multiset(s'.delivered)[y] + multiset(s'.ready)[y] == if Due(s', y) then 1 else 0 {
      assert Due(s', y) <==> Due(s, y);
    }
  }

  lemma PopCounts(s: State)
    requires Counted(s) && s.ready != []
    ensures Counted(Popped(s))
  {
    var n, s' := s.ready[0].note, Popped(s);
    assert NumReady(s.ready, n) == 1 + NumReady(s.ready[1..], n);
    assert n in s.refs && s.refs[n] == NumReady(s.ready, n);
    forall m ensures NumReady(s'.ready, m) == if m in s'.refs then s'.refs[m] else 0 {
      assert NumReady(s.ready, m) == (if n == m then 1 else 0) + NumReady(s.ready[1..], m);
    }
    hide NumReady;
  }

  lemma PopKeeps(s: State)
    requires Inv(s) && s.ready != []
    ensures Inv(Popped(s))
  {
    hide WatchersOk, Conserved, Counted;
    PopConserves(s);
    PopCounts(s);
    assert forall x :: x in s.ready[1..] ==> x in s.ready;
  }

  lemma DeliverKeeps(s: State, notes: seq<(Oid, set<nat>)>)
    requires Inv(s) && s.ready != []
    ensures Inv(Deliver(s, notes)) && Deliver(s, notes).delivered == s.delivered + [s.ready[0]]
  {
    hide Inv, MoveAll, NotifyAll;
    var x := s.ready[0];
    var s1 := s.(ready := s.ready[1..], delivered := s.delivered + [x]);
    PopKeeps(s);
    UnrefCommutes(s1, notes, x.note);
    NotifyAllKeeps(Unref(s1, x.note), notes);
    MoveAllKeeps(NotifyAll(Unref(s1, x.note), notes));
  }

  lemma RegisterKeeps(s: State, oid: Oid, priority: int, events: set<nat>, data: nat, callback: nat)
    requires Inv(s)
    ensures Inv(Register(s, oid, priority, events, data, callback))
  {
    hide SortedReady, InsertWatcher, Duplicate, Conserved, Counted, WatchersOk, Accounted, Live;
    var w := Watcher(s.nextId, priority, events, data, callback);
    var ws := WatchersOf(s, oid);
    var s' := Register(s, oid, priority, events, data, callback);
    if !Duplicate(ws, w) {
      OnlyWatchersChanged(s, s'.watchers);
      assert Conserved(s') && Counted(s') by { hide InsertWatcher, Duplicate; LaterIds(s.(watchers := s'.watchers)); }
      NoWatchersOk(s.nextId);
      AddedWatcherOk(ws, w);
      RegisterAccounts(s, oid, w);
      forall o | o in s'.watchers ensures WatchersOk(s'.watchers[o], s'.nextId) {
        if o != oid { WatchersStayOk(s.watchers[o], s.nextId); }
      }
    }
  }

  lemma RegisterAccounts(s: State, oid: Oid, w: Watcher)
    requires Accounted(s) && Live(s)
    ensures var s' := s.(watchers := s.watchers[oid := InsertWatcher(WatchersOf(s, oid), w)], nextId := s.nextId + 1);
            Accounted(s') && Live(s')
  {
    hide WatcherPos;
    var ws := WatchersOf(s, oid);
    var i := WatcherPos(ws, w.priority);
    assert ws == ws[..i] + ws[i..];
    assert forall x :: x in ws ==> x in InsertWatcher(ws, w);
  }

  lemma NoWatchersOk(nextId: nat)
    ensures WatchersOk([], nextId)
  {
  }

  lemma WatchersStayOk(ws: seq<Watcher>, nextId: nat)
    requires WatchersOk(ws, nextId)
    ensures WatchersOk(ws, nextId + 1)
  {
  }

  lemma AddedWatcherOk(ws: seq<Watcher>, w: Watcher)
    requires WatchersOk(ws, w.id) && !Duplicate(ws, w)
    ensures WatchersOk(InsertWatcher(ws, w), w.id + 1)
  {
    InsertWatcherKeeps(ws, w);
    hide SortedWatchers, DistinctWatchers, WatcherPos, Duplicate;
  }

  lemma LaterIds(s: State)
    requires Conserved(s) && Counted(s)
    ensures Conserved(s.(nextId := s.nextId + 1)) && Counted(s.(nextId := s.nextId + 1))
  {
    hide NumReady;
    assert forall x :: Due(s.(nextId := s.nextId + 1), x) <==> Due(s, x);
  }

  /** The registration that is about to go has no placeholder on the ready list. */
  ghost predicate Unwaited(s: State, oid: Oid, priority: int, data: nat, callback: nat) {
    var ws := WatchersOf(s, oid);
    var i := FindRegistration(ws, priority, data, callback);
    i < |ws| ==> forall x :: x in s.ready ==> !(x.note.oid == oid && x.watcher == ws[i])
  }

  /**
   Unregistering frees the watcher, so it keeps the invariant exactly when no callback is still to
   be made for it; otherwise a placeholder is left with a freed watcher.
   */
  lemma UnregisterKeepsIff(s: State, oid: Oid, priority: int, data: nat, callback: nat)
    requires Inv(s)
    ensures Inv(Unregister(s, oid, priority, data, callback)) <==> Unwaited(s, oid, priority, data, callback)
  {
    hide SortedReady, FindRegistration, Conserved, Counted, WatchersOk, Accounted, Live;
    var ws := WatchersOf(s, oid);
    var i := FindRegistration(ws, priority, data, callback);
    var s' := Unregister(s, oid, priority, data, callback);
    OnlyWatchersChanged(s, s'.watchers);
    if i < |ws| {
      RemovedWatcherOk(ws, i, s.nextId);
      RemovedWatcherLive(s, s', oid, i);
    }
  }

  lemma RemovedWatcherLive(s: State, s': State, oid: Oid, i: nat)
    requires Live(s) && i < |WatchersOf(s, oid)| && WatchersOk(WatchersOf(s, oid), s.nextId)
    requires s'.ready == s.ready
    requires forall o :: WatchersOf(s', o) == if o == oid then WatchersOf(s, o)[..i] + WatchersOf(s, o)[i + 1..] else WatchersOf(s, o)
    ensures Live(s') <==> forall x :: x in s.ready ==> !(x.note.oid == oid && x.watcher == WatchersOf(s, oid)[i])
  {
    var ws := WatchersOf(s, oid);
    var rest := ws[..i] + ws[i + 1..];
    forall w ensures w in rest <==> w in ws && w != ws[i] {
      RemovedMembers(ws, i, w);
    }
    hide WatchersOf, WatchersOk;
    assert forall x :: x in s.ready ==> x.watcher in WatchersOf(s, x.note.oid);
  }

  lemma RemovedMembers(ws: seq<Watcher>, i: nat, w: Watcher)
    requires DistinctWatchers(ws) && i < |ws|
    ensures w in ws[..i] + ws[i + 1..] <==> w in ws && w != ws[i]
  {
    var rest := ws[..i] + ws[i + 1..];
    if w in ws && w != ws[i] {
      var k :| 0 <= k < |ws| && ws[k] == w;
      assert rest[if k < i then k else k - 1] == w;
    }
    if w in rest {
      var k :| 0 <= k < |rest| && rest[k] == w;
      assert w == ws[if k < i then k else k + 1];
    }
  }

  /** Registrations that differ in priority or in watcher data do not exclude each other; equal ones do. */
  lemma RegisteredIff(s: State, oid: Oid, priority: int, events: set<nat>, data: nat, callback: nat)
    ensures var w := Watcher(s.nextId, priority, events, data, callback);
            var s' := Register(s, oid, priority, events, data, callback);
            if exists x :: x in WatchersOf(s, oid) && x.priority == priority && x.data == data then s' == s
            else multiset(WatchersOf(s', oid)) == multiset(WatchersOf(s, oid)) + multiset{w}
  {
    var ws := WatchersOf(s, oid);
    var w := Watcher(s.nextId, priority, events, data, callback);
    if x :| x in ws && x.priority == priority && x.data == data {
      var k :| 0 <= k < |ws| && ws[k] == x;
      assert Duplicate(ws, w);
    } else {
      assert !Duplicate(ws, w);
      InsertWatcherAdds(ws, w);
    }
  }

  /** Unregistering takes away one watcher with this priority, data and callback, if there is one, and changes nothing otherwise. */
  lemma UnregisteredIff(s: State, oid: Oid, priority: int, data: nat, callback: nat)
    ensures var s' := Unregister(s, oid, priority, data, callback);
            if exists x :: x in WatchersOf(s, oid) && x.priority == priority && x.data == data && x.callback == callback
            then exists x :: x in WatchersOf(s, oid) && x.priority == priority && x.data == data && x.callback == callback
                             && multiset(WatchersOf(s, oid)) == multiset(WatchersOf(s', oid)) + multiset{x}
            else s' == s
  {
    var ws := WatchersOf(s, oid);
    var i := FindRegistration(ws, priority, data, callback);
    if i < |ws| {
      assert ws[i] in ws;
      assert ws == ws[..i] + [ws[i]] + ws[i + 1..];
      assert WatchersOf(Unregister(s, oid, priority, data, callback), oid) == ws[..i] + ws[i + 1..];
    }
  }

  /** Unregistering undoes registering: every object has the watchers it had before, in the same order. */
  lemma UnregisterUndoesRegister(s: State, oid: Oid, priority: int, events: set<nat>, data: nat, callback: nat, o: Oid)
    requires Inv(s)
    requires !Duplicate(WatchersOf(s, oid), Watcher(s.nextId, priority, events, data, callback))
    ensures var s' := Unregister(Register(s, oid, priority, events, data, callback), oid, priority, data, callback);
            WatchersOf(s', o) == WatchersOf(s, o)
  {
    hide Inv, Duplicate, WatcherPos, FindRegistration, InsertWatcher;
    var w := Watcher(s.nextId, priority, events, data, callback);
    var ws := WatchersOf(s, oid);
    var i := WatcherPos(ws, priority);
    var s1 := Register(s, oid, priority, events, data, callback);
    var out := WatchersOf(s1, oid);
    assert out == InsertWatcher(ws, w);
    FindsTheNewOne(ws, w);
    RemoveInserted(ws, w);
  }

  lemma RemoveInserted(ws: seq<Watcher>, w: Watcher)
    ensures var out, i := InsertWatcher(ws, w), WatcherPos(ws, w.priority);
            i < |out| && out[..i] + out[i + 1..] == ws
  {
    InsertedThere(ws, w);
    hide WatcherPos, InsertWatcher;
  }

  lemma FindsTheNewOne(ws: seq<Watcher>, w: Watcher)
    requires !Duplicate(ws, w)
    ensures FindRegistration(InsertWatcher(ws, w), w.priority, w.data, w.callback) == WatcherPos(ws, w.priority)
  {
    hide FindRegistration, WatcherPos;
    var out, i := InsertWatcher(ws, w), WatcherPos(ws, w.priority);
    var j := FindRegistration(out, w.priority, w.data, w.callback);
    InsertedThere(ws, w);
    assert forall k :: 0 <= k < |ws| ==> !(ws[k].priority == w.priority && ws[k].data == w.data);
    assert j <= i;
  }

  lemma OnlyWatchersChanged(s: State, watchers: map<Oid, seq<Watcher>>)
    requires Conserved(s) && Counted(s)
    ensures Conserved(s.(watchers := watchers)) && Counted(s.(watchers := watchers))
    ensures Accounted(s.(watchers := watchers)) <==> Accounted(s)
  {
    hide NumReady;
    assert forall x :: Due(s.(watchers := watchers), x) <==> Due(s, x);
  }

  lemma RemovedWatcherOk(ws: seq<Watcher>, i: nat, nextId: nat)
    requires WatchersOk(ws, nextId) && i < |ws|
    ensures WatchersOk(ws[..i] + ws[i + 1..], nextId)
  {
    var rest := ws[..i] + ws[i + 1..];
    assert forall k :: 0 <= k < |rest| ==> rest[k] == ws[if k < i then k else k + 1];
  }

  // ----- runs -----

  datatype Event =
    | RegisterEvent(oid: Oid, priority: int, events: set<nat>, data: nat, callback: nat)
    | UnregisterEvent(oid: Oid, priority: int, data: nat, callback: nat)
    | NotifyEvent(oid: Oid, event: set<nat>)
    | MoveEvent
    | CallEvent(notes: seq<(Oid, set<nat>)>)

  /** No watcher is unregistered for which a callback is still to be made. */
  ghost predicate Enabled(s: State, e: Event) {
    match e
    case UnregisterEvent(oid, priority, data, callback) => Unwaited(s, oid, priority, data, callback)
    case CallEvent(_) => s.ready != []
    case _ => true
  }

  ghost function Step(s: State, e: Event): State
    requires Enabled(s, e)
  {
    match e
    case RegisterEvent(oid, priority, events, data, callback) => Register(s, oid, priority, events, data, callback)
    case UnregisterEvent(oid, priority, data, callback) => Unregister(s, oid, priority, data, callback)
    case NotifyEvent(oid, event) => Notify(s, oid, event)
    case MoveEvent => MoveAll(s)
    case CallEvent(notes) => Deliver(s, notes)
  }

  /** `s'` is reached from `s` by the events. */
  ghost predicate Reaches(s: State, es: seq<Event>, s': State)
    decreases |es|
  {
    if es == [] then s' == s else Enabled(s, es[0]) && Reaches(Step(s, es[0]), es[1..], s')
  }

  lemma StepKeeps(s: State, e: Event)
    requires Inv(s) && Enabled(s, e)
    ensures Inv(Step(s, e))
  {
    hide Inv;
    match e
    case RegisterEvent(oid, priority, events, data, callback) => RegisterKeeps(s, oid, priority, events, data, callback);
    case UnregisterEvent(oid, priority, data, callback) => UnregisterKeepsIff(s, oid, priority, data, callback);
    case NotifyEvent(oid, event) => NotifyKeeps(s, oid, event);
    case MoveEvent => MoveAllKeeps(s);
    case CallEvent(notes) => DeliverKeeps(s, notes);
  }

  lemma {:induction false} ReachableInv(s: State, es: seq<Event>, s': State)
    requires Inv(s) && Reaches(s, es, s')
    ensures Inv(s')
    decreases |es|
  {
    hide Inv, Step, Enabled;
    if es != [] {
      StepKeeps(s, es[0]);
      ReachableInv(Step(s, es[0]), es[1..], s');
    }
  }

  lemma EmptyInv()
    ensures Inv(EMPTY)
  {
  }

  // ----- nothing that was notified is lost -----

  function Notices(ns: seq<Note>): (r: seq<(Oid, set<nat>)>)
    ensures |r| == |ns| && forall i :: 0 <= i < |ns| ==> r[i] == (ns[i].oid, ns[i].event)
  {
    seq(|ns|, i requires 0 <= i < |ns| => (ns[i].oid, ns[i].event))
  }

  /** What a run notifies of, by calls and from within callbacks, in order. */
  function AllNotices(es: seq<Event>): seq<(Oid, set<nat>)> {
    if es == [] then []
    else
      (match es[0]
       case NotifyEvent(oid, event) => [(oid, event)]
       case CallEvent(notes) => notes
       case _ => []) + AllNotices(es[1..])
  }

  lemma {:induction false} NotifyAllNotifies(s: State, notes: seq<(Oid, set<nat>)>)
    ensures Notices(NotifyAll(s, notes).notified) == Notices(s.notified) + notes
    ensures NotifyAll(s, notes).watchers == s.watchers && NotifyAll(s, notes).moved == s.moved
    decreases |notes|
  {
    if notes != [] {
      NotifyAllNotifies(Notify(s, notes[0].0, notes[0].1), notes[1..]);
    }
  }

  lemma {:induction false} MoveAllOnlyMoves(s: State)
    ensures MoveAll(s).notified == s.notified && MoveAll(s).watchers == s.watchers
    decreases |s.pending|
  {
    hide FileAll, Matching;
    if s.pending != [] {
      MoveAllOnlyMoves(MoveFirst(s));
    }
  }

  lemma StepNotifies(s: State, e: Event)
    requires Enabled(s, e)
    ensures Notices(Step(s, e).notified) == Notices(s.notified) + AllNotices([e])
  {
    hide MoveAll, NotifyAll, FindRegistration, InsertWatcher, Duplicate;
    assert AllNotices([e][1..]) == [];
    match e
    case MoveEvent => MoveAllOnlyMoves(s);
    case CallEvent(notes) =>
      var s1 := s.(ready := s.ready[1..], delivered := s.delivered + [s.ready[0]]);
      NotifyAllNotifies(s1, notes);
      MoveAllOnlyMoves(Unref(NotifyAll(s1, notes), s.ready[0].note));
    case _ =>
  }

  lemma {:induction false} RunNotifies(s: State, es: seq<Event>, s': State)
    requires Reaches(s, es, s')
    ensures Notices(s'.notified) == Notices(s.notified) + AllNotices(es)
    decreases |es|
  {
    hide Step, Enabled;
    if es != [] {
      StepNotifies(s, es[0]);
      RunNotifies(Step(s, es[0]), es[1..], s');
      assert [es[0]][1..] == [];
      assert AllNotices(es) == AllNotices([es[0]]) + AllNotices(es[1..]);
    }
  }

  /** What a moved notification is due to does not change any more. */
  lemma {:induction false} MoveAllKeepsDue(s: State, n: Note)
    requires Inv(s) && n in s.moved
    ensures n in MoveAll(s).moved && MoveAll(s).moved[n] == s.moved[n]
    decreases |s.pending|
  {
    hide FileAll, Matching, WatchersOk, Conserved, Counted, Accounted, Live, SortedReady;
    if s.pending != [] {
      MoveFirstKeeps(s);
      MoveAllKeepsDue(MoveFirst(s), n);
    }
  }

  lemma {:induction false} MoveAllDue(s: State, n: Note)
    requires Inv(s) && n in s.pending
    ensures n in MoveAll(s).moved && MoveAll(s).moved[n] == Matching(WatchersOf(s, n.oid), n.event)
    decreases |s.pending|
  {
    hide FileAll, Matching, WatchersOk, Conserved, Counted, Accounted, Live, SortedReady, Fresh;
    MoveFirstKeeps(s);
    var s1 := MoveFirst(s);
    if n == s.pending[0] {
      MoveAllKeepsDue(s1, n);
    } else {
      assert n in s1.pending;
      MoveAllDue(s1, n);
    }
  }

  lemma StepKeepsDue(s: State, e: Event, n: Note)
    requires Inv(s) && Enabled(s, e) && n in s.moved
    ensures n in Step(s, e).moved && Step(s, e).moved[n] == s.moved[n]
  {
    hide Inv, MoveAll, NotifyAll, FindRegistration, InsertWatcher, Duplicate;
    match e
    case MoveEvent => MoveAllKeepsDue(s, n);
    case CallEvent(notes) =>
      var x := s.ready[0];
      var s1 := s.(ready := s.ready[1..], delivered := s.delivered + [x]);
      PopKeeps(s);
      UnrefCommutes(s1, notes, x.note);
      NotifyAllKeeps(Unref(s1, x.note), notes);
      NotifyAllNotifies(Unref(s1, x.note), notes);
      MoveAllKeepsDue(NotifyAll(Unref(s1, x.note), notes), n);
    case _ =>
  }

  lemma {:induction false} RunKeepsDue(s: State, es: seq<Event>, s': State, n: Note)
    requires Inv(s) && Reaches(s, es, s') && n in s.moved
    ensures n in s'.moved && s'.moved[n] == s.moved[n]
    decreases |es|
  {
    hide Inv, Step, Enabled;
    if es != [] {
      StepKeeps(s, es[0]);
      StepKeepsDue(s, es[0], n);
      RunKeepsDue(Step(s, es[0]), es[1..], s', n);
    }
  }

  /**
   In every run: what was notified of is exactly what the callers and callbacks notified of, in
   order; each notification is pending or has been moved, once; a watcher gets a notification at
   most once, and only if it was due to it; `refs` is the number of placeholders left; a
   notification has been released, once, exactly when it was moved and its last callback has been
   made; and no callback is ever made for a watcher that is no longer registered.
   */
  lemma CallbackConservation(es: seq<Event>, s: State, x: Ready)
    requires Reaches(EMPTY, es, s)
    ensures Notices(s.notified) == AllNotices(es)
    ensures multiset(s.notified)[x.note] == multiset(s.pending)[x.note] + if x.note in s.moved then 1 else 0
    ensures multiset(s.delivered)[x] <= 1
    ensures x in s.delivered ==> x.note in s.moved && x.watcher in s.moved[x.note]
    ensures x.note in s.refs ==> s.refs[x.note] == NumReady(s.ready, x.note) > 0
    ensures multiset(s.freed)[x.note] == if x.note in s.moved && NumReady(s.ready, x.note) == 0 then 1 else 0
    ensures x in s.ready ==> x.watcher in WatchersOf(s, x.note.oid)
  {
    hide NumReady, Reaches, SortedReady, WatchersOk, Fresh, WatchersOf, Conserved, Counted, Accounted;
    EmptyInv();
    ReachableInv(EMPTY, es, s);
    RunNotifies(EMPTY, es, s);
    assert Notices(EMPTY.notified) == [];
    AccountedMeans(s, x.note);
    ConservedMeans(s, x);
    CountedMeans(s, x.note);
  }

  lemma AccountedMeans(s: State, n: Note)
    requires Accounted(s)
    ensures multiset(s.notified)[n] == multiset(s.pending)[n] + if n in s.moved then 1 else 0
  {
  }

  lemma ConservedMeans(s: State, x: Ready)
    requires Conserved(s)
    ensures multiset(s.delivered)[x] <= 1
    ensures x in s.delivered ==> x.note in s.moved && x.watcher in s.moved[x.note]
  {
    assert multiset(s.delivered)[x] + multiset(s.ready)[x] == if Due(s, x) then 1 else 0;
    assert x in s.delivered <==> x in multiset(s.delivered);
  }

  lemma CountedMeans(s: State, n: Note)
    requires Counted(s)
    ensures n in s.refs ==> s.refs[n] == NumReady(s.ready, n) > 0
    ensures multiset(s.freed)[n] == if n in s.moved && NumReady(s.ready, n) == 0 then 1 else 0
  {
    hide NumReady;
  }

  /** Once nothing is pending or ready, every notification has reached each watcher it was due to exactly once, and is free. */
  lemma EverythingDelivered(es: seq<Event>, s: State, n: Note)
    requires Reaches(EMPTY, es, s) && s.pending == [] && s.ready == [] && n in s.notified
    ensures n in s.moved && multiset(s.freed)[n] == 1
    ensures forall w :: multiset(s.delivered)[Ready(w, n)] == if w in s.moved[n] then 1 else 0
  {
    hide Reaches, SortedReady, WatchersOk, WatchersOf;
    EmptyInv();
    ReachableInv(EMPTY, es, s);
    assert n in multiset(s.notified);
    assert NumReady(s.ready, n) == 0;
    forall w ensures multiset(s.delivered)[Ready(w, n)] == if w in s.moved[n] then 1 else 0 {
      assert Due(s, Ready(w, n)) <==> w in s.moved[n];
    }
  }

  /**
   From notification to callback: whatever is pending when notifications are processed reaches each
   watcher that is then registered for its object and event exactly once by the time that nothing
   is ready, and no other watcher at all.
   */
  lemma NotificationReachesItsWatchers(es: seq<Event>, s: State, es': seq<Event>, s': State, n: Note, w: Watcher)
    requires Reaches(EMPTY, es, s) && n in s.pending && Reaches(MoveAll(s), es', s') && s'.ready == []
    ensures multiset(s'.delivered)[Ready(w, n)]
         == if w in WatchersOf(s, n.oid) && exists b :: b in w.events && b in n.event then 1 else 0
  {
    WatchesIff(w, n.event);
    hide Watches;
    hide Reaches, MoveAll, Matching, WatchersOk, Counted, Fresh, SortedReady, Live, Accounted;
    EmptyInv();
    ReachableInv(EMPTY, es, s);
    MoveAllKeeps(s);
    MoveAllDue(s, n);
    RunKeepsDue(MoveAll(s), es', s', n);
    ReachableInv(MoveAll(s), es', s');
    MatchingIs(WatchersOf(s, n.oid), n.event, w);
    assert Due(s', Ready(w, n)) <==> w in WatchersOf(s, n.oid) && Watches(w, n.event);
  }

  /** Each callback is made for a placeholder of the highest priority that is ready. */
  lemma HighestPriorityFirst(es: seq<Event>, s: State, notes: seq<(Oid, set<nat>)>)
    requires Reaches(EMPTY, es, s) && s.ready != []
    ensures var s' := Deliver(s, notes);
            && s'.delivered == s.delivered + [s.ready[0]]
            && forall y :: y in s.ready ==> s.ready[0].watcher.priority >= y.watcher.priority
  {
    hide Reaches, Deliver, WatchersOk, Conserved, Counted, Accounted, Live;
    EmptyInv();
    ReachableInv(EMPTY, es, s);
    DeliverKeeps(s, notes);
    forall y | y in s.ready ensures s.ready[0].watcher.priority >= y.watcher.priority {
      var i :| 0 <= i < |s.ready| && s.ready[i] == y;
    }
  }

  /** Moving a notification makes it due to exactly the registered watchers of its event. */
  lemma MovedToAllWatchers(s: State, w: Watcher)
    requires s.pending != []
    ensures var n := s.pending[0];
            Due(MoveFirst(s), Ready(w, n)) <==> w in WatchersOf(s, n.oid) && exists b :: b in w.events && b in n.event
  {
    hide FileAll;
    WatchesIff(w, s.pending[0].event);
    MatchingIs(WatchersOf(s, s.pending[0].oid), s.pending[0].event, w);
  }
}
