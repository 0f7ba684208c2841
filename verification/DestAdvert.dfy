/**
 The destination advertisement table and the local destinations it drives: adverts and purge ticks
 (DestAdvert.cpp), client calls (DlepServiceImpl.cpp) and the set difference (DlepMac.h).
 */
module DestAdvert {
  import opened Octets

  /** `info` is reduced to the report interval and the advertised destinations. */
  datatype Entry = Entry(timestamp: int, up: bool, placeholder: bool, interval: nat, dests: set<Mac>)

  datatype State = State(db: map<Mac, Entry>, local: set<Mac>)

  // ----- what the operations do -----

  function Advert(s: State, rf: Mac, interval: nat, dests: set<Mac>, now: int): State {
    if rf !in s.db then s.(db := s.db[rf := Entry(now, false, false, interval, dests)])
    else
      var e := s.db[rf];
      State(s.db[rf := e.(timestamp := now, interval := interval, dests := dests)],
            if e.up then s.local + (dests - e.dests) - (e.dests - dests) else s.local)
  }

  function ClientUp(s: State, m: Mac, now: int): State {
    if m !in s.db then s.(db := s.db[m := Entry(now, true, true, 0, {})])
    else if s.db[m].up then s
    else State(s.db[m := s.db[m].(up := true)], s.local + s.db[m].dests)
  }

  function ClientDown(s: State, m: Mac): State {
    if m !in s.db then s.(local := s.local - {m})
    else if !s.db[m].up then s
    else State(s.db[m := s.db[m].(up := false)], s.local - s.db[m].dests)
  }

  datatype ReturnStatus = Done | DestinationExists | DestinationDoesNotExist

  function UpStatus(s: State, m: Mac): ReturnStatus {
    if m in s.db && s.db[m].up then DestinationExists else Done
  }

  /** `ofPeer`: some peer has the destination, so the call is passed on to it. */
  function DownStatus(s: State, m: Mac, ofPeer: bool): ReturnStatus {
    if m in s.db then (if !s.db[m].up || s.db[m].dests <= s.local then Done else DestinationDoesNotExist)
    else if m in s.local || ofPeer then Done
    else DestinationDoesNotExist
  }

  datatype Fate = Keep | HoldOver | Expire

  /** What a purge tick does with an entry; the product is one of 32-bit unsigned integers. */
  function FateOf(e: Entry, now: int, hold: nat, expire: nat): Fate {
    if hold > 0 && e.placeholder && e.up && now - e.timestamp >= hold then HoldOver
    else if expire > 0 && now - e.timestamp >= (expire * e.interval) % 0x1_0000_0000 then Expire
    else Keep
  }

  /** The destinations of up entries among `rfs` that have expired. */
  ghost function Expired(db: map<Mac, Entry>, rfs: set<Mac>, now: int, hold: nat, expire: nat): set<Mac> {
    set rf, d | rf in rfs && rf in db && FateOf(db[rf], now, hold, expire) == Expire && db[rf].up && d in db[rf].dests :: d
  }

  ghost function Purge(s: State, now: int, hold: nat, expire: nat): State {
    State(map rf | rf in s.db && FateOf(s.db[rf], now, hold, expire) == Keep :: s.db[rf],
          s.local - Expired(s.db, s.db.Keys, now, hold, expire))
  }

  // ----- the code -----

  /** `getDifference`: what is in `a` and not in `b`, added to `c`. */
  method GetDifference(a: set<Mac>, b: set<Mac>, c: set<Mac>) returns (out: set<Mac>)
    ensures out == c + (a - b)
  {
    out := c;
    var todo := a;
    while todo != {}
      invariant todo <= a && out == c + ((a - todo) - b)
      decreases todo
    {
      var x :| x in todo;
      todo := todo - {x};
      var found := false;
      var rest := b;
      while rest != {} && !found
        invariant rest <= b
        invariant found <==> x in b - rest
        decreases rest
      {
        var y :| y in rest;
        rest := rest - {y};
        if x == y {
          found := true;
        }
      }
      if !found {
        out := out + {x};
      }
    }
  }

  class AdvertTable {
    var db: map<Mac, Entry>
    var local: set<Mac>

    ghost function Value(): State
      reads this
    {
      State(db, local)
    }

    constructor ()
      ensures Value() == State(map[], {})
    {
      db, local := map[], {};
    }

    method AddAll(macs: set<Mac>)
      modifies `local
      ensures local == old(local) + macs
    {
      var todo := macs;
      while todo != {}
        invariant todo <= macs && local == old(local) + (macs - todo)
        decreases todo
      {
        var m :| m in todo;
        local := local + {m};
        todo := todo - {m};
      }
    }

    method RemoveAll(macs: set<Mac>) returns (found: bool)
      modifies `local
      ensures local == old(local) - macs
      ensures found <==> macs <= old(local)
    {
      var todo := macs;
      found := true;
      while todo != {}
        invariant todo <= macs && local == old(local) - (macs - todo)
        invariant found <==> macs - todo <= old(local)
        decreases todo
      {
        var m :| m in todo;
        found := found && m in local;
        local := local - {m};
        todo := todo - {m};
      }
    }

    /** `handle_message`. */
    method HandleMessage(rf: Mac, interval: nat, dests: set<Mac>, now: int)
      modifies this
      ensures Value() == Advert(old(Value()), rf, interval, dests, now)
    {
      if rf !in db {
        db := db[rf := Entry(now, false, false, interval, dests)];
      } else {
        var e := db[rf];
        if e.up {
          var added := GetDifference(dests, e.dests, {});
          AddAll(added);
          var deleted := GetDifference(e.dests, dests, {});
          var _ := RemoveAll(deleted);
        }
        db := db[rf := e.(timestamp := now, interval := interval, dests := dests)];
      }
    }

    /** `DlepServiceImpl::destination_up` with destination advertisement enabled. */
    method DestinationUp(m: Mac, now: int) returns (rs: ReturnStatus)
      modifies this
      ensures Value() == ClientUp(old(Value()), m, now)
      ensures rs == UpStatus(old(Value()), m)
    {
      rs := Done;
      if m in db {
        if !db[m].up {
          AddAll(db[m].dests);
          db := db[m := db[m].(up := true)];
        } else {
          rs := DestinationExists;
        }
      } else {
        db := db[m := Entry(now, true, true, 0, {})];
      }
    }

    /** `DlepServiceImpl::destination_down` with destination advertisement enabled. */
    method DestinationDown(m: Mac, ofPeer: bool) returns (rs: ReturnStatus)
      modifies this
      ensures Value() == ClientDown(old(Value()), m)
      ensures rs == DownStatus(old(Value()), m, ofPeer)
    {
      rs := Done;
      if m in db {
        if db[m].up {
          var found := RemoveAll(db[m].dests);
          if !found {
            rs := DestinationDoesNotExist;
          }
          db := db[m := db[m].(up := false)];
        }
      } else if m in local {
        local := local - {m};
      } else if !ofPeer {
        rs := DestinationDoesNotExist;
      }
    }

    /** `handle_purge_advert_timeout`: entries are erased while the table is walked. */
    method PurgeTimeout(now: int, hold: nat, expire: nat)
      modifies this
      ensures Value() == Purge(old(Value()), now, hold, expire)
    {
      ghost var db0, local0 := db, local;
      var todo := db.Keys;
      while todo != {}
        invariant todo <= db.Keys <= db0.Keys
        invariant forall rf :: rf in db ==> db[rf] == db0[rf]
        invariant forall rf :: rf in db0 ==> (rf in db <==> rf in todo || FateOf(db0[rf], now, hold, expire) == Keep)
        invariant local == local0 - Expired(db0, db0.Keys - todo, now, hold, expire)
        decreases todo
      {
        var rf :| rf in todo;
        var e := db[rf];
        ghost var seen := db0.Keys - todo;
        todo := todo - {rf};
        ExpiredStep(db0, seen, rf, now, hold, expire);
        assert db0.Keys - todo == seen + {rf};
        if hold > 0 && e.placeholder && e.up && now - e.timestamp >= hold {
          db := db - {rf};
        } else if expire > 0 && now - e.timestamp >= (expire * e.interval) % 0x1_0000_0000 {
          if e.up {
            var _ := RemoveAll(e.dests);
          }
          db := db - {rf};
        }
      }
      assert db0.Keys - todo == db0.Keys;
    }
  }

  lemma ExpiredStep(db: map<Mac, Entry>, seen: set<Mac>, rf: Mac, now: int, hold: nat, expire: nat)
    requires rf in db
    ensures var e := db[rf];
            Expired(db, seen + {rf}, now, hold, expire)
            == Expired(db, seen, now, hold, expire)
               + if FateOf(e, now, hold, expire) == Expire && e.up then e.dests else {}
  {
    hide FateOf;
  }

  // ----- staying in step -----

  ghost predicate UpWith(s: State, rf: Mac, d: Mac) {
    rf in s.db && s.db[rf].up && d in s.db[rf].dests
  }

  /** The local destinations are the union of the destinations of the up entries. */
  ghost predicate InStep(s: State) {
    forall d :: d in s.local <==> exists rf :: UpWith(s, rf, d)
  }

  /** That union is contained in the local destinations. */
  ghost predicate Covered(s: State) {
    forall rf, d :: UpWith(s, rf, d) ==> d in s.local
  }

  /** Each destination is advertised by one RF ID only, and is not itself a client's MAC. */
  ghost predicate Separate(s: State, owner: Mac -> Mac, clients: set<Mac>) {
    && (forall rf, d :: rf in s.db && d in s.db[rf].dests ==> owner(d) == rf && d !in clients)
    && s.local !! clients
  }

  datatype Event =
    | AdvertEvent(rf: Mac, interval: nat, dests: set<Mac>, now: int)
    | UpEvent(mac: Mac, now: int)
    | DownEvent(mac: Mac)
    | PurgeEvent(now: int, hold: nat, expire: nat)

  ghost predicate Legal(e: Event, owner: Mac -> Mac, clients: set<Mac>) {
    match e
    case AdvertEvent(rf, _, dests, _) => forall d :: d in dests ==> owner(d) == rf && d !in clients
    case UpEvent(m, _) => m in clients
    case DownEvent(m) => m in clients
    case PurgeEvent(_, _, _) => true
  }

  ghost function Step(s: State, e: Event): State {
    match e
    case AdvertEvent(rf, interval, dests, now) => Advert(s, rf, interval, dests, now)
    case UpEvent(m, now) => ClientUp(s, m, now)
    case DownEvent(m) => ClientDown(s, m)
    case PurgeEvent(now, hold, expire) => Purge(s, now, hold, expire)
  }

  ghost function Run(s: State, es: seq<Event>): State
    decreases |es|
  {
    if es == [] then s else Run(Step(s, es[0]), es[1..])
  }

  lemma AdvertKeeps(s: State, rf: Mac, interval: nat, dests: set<Mac>, now: int, owner: Mac -> Mac, clients: set<Mac>)
    requires Separate(s, owner, clients) && Covered(s)
    requires forall d :: d in dests ==> owner(d) == rf && d !in clients
    ensures var s' := Advert(s, rf, interval, dests, now);
            Separate(s', owner, clients) && Covered(s') && (InStep(s) ==> InStep(s'))
  {
    var s' := Advert(s, rf, interval, dests, now);
    forall rf', d | UpWith(s', rf', d) ensures d in s'.local {
      if rf' != rf { assert UpWith(s, rf', d); } else if d in s.db[rf].dests { assert UpWith(s, rf, d); }
    }
    if InStep(s) {
      forall d | d in s'.local ensures exists rf' :: UpWith(s', rf', d) {
        if d in s.local {
          var rf' :| UpWith(s, rf', d);
          assert UpWith(s', rf', d);
        } else {
          assert UpWith(s', rf, d);
        }
      }
    }
  }

  lemma UpKeeps(s: State, m: Mac, now: int, owner: Mac -> Mac, clients: set<Mac>)
    requires Separate(s, owner, clients) && Covered(s) && m in clients
    ensures var s' := ClientUp(s, m, now);
            Separate(s', owner, clients) && Covered(s') && (InStep(s) ==> InStep(s'))
  {
    var s' := ClientUp(s, m, now);
    forall rf, d | UpWith(s', rf, d) ensures d in s'.local {
      if rf != m { assert UpWith(s, rf, d); }
    }
    if InStep(s) {
      forall d | d in s'.local ensures exists rf :: UpWith(s', rf, d) {
        if d in s.local {
          var rf :| UpWith(s, rf, d);
          assert UpWith(s', rf, d);
        } else {
          assert UpWith(s', m, d);
        }
      }
    }
  }

  lemma DownKeeps(s: State, m: Mac, owner: Mac -> Mac, clients: set<Mac>)
    requires Separate(s, owner, clients) && Covered(s) && m in clients
    ensures var s' := ClientDown(s, m);
            Separate(s', owner, clients) && Covered(s') && (InStep(s) ==> InStep(s'))
  {
    var s' := ClientDown(s, m);
    forall rf, d | UpWith(s', rf, d) ensures d in s'.local {
      assert UpWith(s, rf, d);
      assert owner(d) == rf;
    }
    if InStep(s) {
      forall d | d in s'.local ensures exists rf :: UpWith(s', rf, d) {
        var rf :| UpWith(s, rf, d);
        assert UpWith(s', rf, d);
      }
    }
  }

  /** Nothing that the hold interval erases has destinations. */
  ghost predicate HoldsNothing(s: State, now: int, hold: nat, expire: nat) {
    forall rf :: rf in s.db && FateOf(s.db[rf], now, hold, expire) == HoldOver ==> s.db[rf].dests == {}
  }

  lemma PurgeKeeps(s: State, now: int, hold: nat, expire: nat, owner: Mac -> Mac, clients: set<Mac>)
    requires Separate(s, owner, clients) && Covered(s)
    ensures var s' := Purge(s, now, hold, expire); Separate(s', owner, clients) && Covered(s')
  {
    hide FateOf;
    var s' := Purge(s, now, hold, expire);
    forall rf, d | UpWith(s', rf, d) ensures d in s'.local {
      assert UpWith(s, rf, d);
      assert owner(d) == rf;
      assert forall rf' :: rf' in s.db && d in s.db[rf'].dests ==> rf' == rf;
    }
  }

  /**
   A purge tick keeps the table and the local destinations in step exactly when no entry that the
   hold interval erases still has destinations: such an entry goes, and its destinations stay.
   */
  lemma PurgeInStepIff(s: State, now: int, hold: nat, expire: nat, owner: Mac -> Mac, clients: set<Mac>)
    requires Separate(s, owner, clients) && InStep(s)
    ensures InStep(Purge(s, now, hold, expire)) <==> HoldsNothing(s, now, hold, expire)
  {
    var s' := Purge(s, now, hold, expire);
    assert Covered(s) by { InStepCovers(s); }
    PurgeKeeps(s, now, hold, expire, owner, clients);
    assert forall rf :: rf in s.db && FateOf(s.db[rf], now, hold, expire) == HoldOver ==> s.db[rf].up;
    hide FateOf;
    if HoldsNothing(s, now, hold, expire) {
      forall d | d in s'.local ensures exists rf :: UpWith(s', rf, d) {
        var rf :| UpWith(s, rf, d);
        assert UpWith(s', rf, d);
      }
    } else {
      var rf :| rf in s.db && FateOf(s.db[rf], now, hold, expire) == HoldOver && s.db[rf].dests != {};
      var d :| d in s.db[rf].dests;
      assert UpWith(s, rf, d);
      forall rf' | UpWith(s', rf', d) ensures rf' == rf {
        assert owner(d) == rf && owner(d) == rf';
      }
      assert d in s'.local;
      assert !exists rf' :: UpWith(s', rf', d);
    }
  }

  lemma InStepCovers(s: State)
    requires InStep(s)
    ensures Covered(s)
  {
  }

  /** No purge tick of the run uses a hold interval. */
  ghost predicate NoHold(es: seq<Event>) {
    forall e :: e in es && e.PurgeEvent? ==> e.hold == 0
  }

  lemma StepKeeps(s: State, e: Event, owner: Mac -> Mac, clients: set<Mac>)
    requires Separate(s, owner, clients) && Covered(s) && Legal(e, owner, clients)
    ensures Separate(Step(s, e), owner, clients) && Covered(Step(s, e))
    ensures InStep(s) && (e.PurgeEvent? ==> e.hold == 0) ==> InStep(Step(s, e))
  {
    match e
    case AdvertEvent(rf, interval, dests, now) => AdvertKeeps(s, rf, interval, dests, now, owner, clients);
    case UpEvent(m, now) => UpKeeps(s, m, now, owner, clients);
    case DownEvent(m) => DownKeeps(s, m, owner, clients);
    case PurgeEvent(now, hold, expire) =>
      PurgeKeeps(s, now, hold, expire, owner, clients);
      if InStep(s) {
        PurgeInStepIff(s, now, hold, expire, owner, clients);
      }
  }

  lemma {:induction false} RunKeeps(s: State, es: seq<Event>, owner: Mac -> Mac, clients: set<Mac>)
    requires Separate(s, owner, clients) && Covered(s)
    requires forall e :: e in es ==> Legal(e, owner, clients)
    ensures Covered(Run(s, es))
    ensures InStep(s) && NoHold(es) ==> InStep(Run(s, es))
    decreases |es|
  {
    hide Step, InStep, Covered, Separate;
    if es != [] {
      assert es[0] in es;
      StepKeeps(s, es[0], owner, clients);
      RunKeeps(Step(s, es[0]), es[1..], owner, clients);
      assert forall e :: e in es[1..] ==> e in es;
    }
  }

  /**
   With adverts that do not share destinations, and client MACs that are not destinations: in every
   run of adverts, client calls and purge ticks the destinations of up entries are local
   destinations; and without a hold interval there are no others.
   */
  lemma TableInStep(es: seq<Event>, owner: Mac -> Mac, clients: set<Mac>)
    requires forall e :: e in es ==> Legal(e, owner, clients)
    ensures Covered(Run(State(map[], {}), es))
    ensures NoHold(es) ==> InStep(Run(State(map[], {}), es))
  {
    RunKeeps(State(map[], {}), es, owner, clients);
  }

  /** So a client that takes its own MAC down is never told that an advertised destination is missing. */
  lemma DownNeverMissesADestination(es: seq<Event>, owner: Mac -> Mac, clients: set<Mac>, m: Mac, ofPeer: bool)
    requires forall e :: e in es ==> Legal(e, owner, clients)
    ensures var s := Run(State(map[], {}), es); m in s.db ==> DownStatus(s, m, ofPeer) == Done
  {
    hide Run;
    TableInStep(es, owner, clients);
    var s := Run(State(map[], {}), es);
    if m in s.db && s.db[m].up {
      forall d | d in s.db[m].dests ensures d in s.local {
        assert UpWith(s, m, d);
      }
    }
  }

  /** With a hold interval it goes wrong: a placeholder keeps its flag when its advert arrives. */
  lemma HoldIntervalStrandsDestination(rf: Mac, d: Mac, hold: nat)
    requires hold > 0
    ensures var s := Advert(ClientUp(State(map[], {}), rf, 0), rf, 1, {d}, 0);
            InStep(s) && !InStep(Purge(s, hold, hold, 0))
  {
    var s0 := ClientUp(State(map[], {}), rf, 0);
    var s := Advert(s0, rf, 1, {d}, 0);
    assert s.db == map[rf := Entry(0, true, true, 1, {d})];
    assert s.local == {d};
    assert UpWith(s, rf, d);
    var s' := Purge(s, hold, hold, 0);
    assert FateOf(s.db[rf], hold, hold, 0) == HoldOver;
    assert s'.db == map[];
    assert d in s'.local;
  }

  // ----- what a tick takes away, and when -----

  /** The hold interval has passed since a client's call put this entry there. */
  predicate HeldTooLong(e: Entry, now: int, hold: nat) {
    hold > 0 && e.placeholder && e.up && e.timestamp + hold <= now
  }

  /** Too many report intervals have passed since the last advert. */
  predicate TooOld(e: Entry, now: int, expire: nat) {
    expire > 0 && e.timestamp + (expire * e.interval) % 0x1_0000_0000 <= now
  }

  /**
   A tick erases exactly the entries that were held too long or are too old, leaves the others
   alone, and takes down exactly the destinations of up entries that are too old but not held.
   */
  lemma PurgeExactly(s: State, now: int, hold: nat, expire: nat, rf: Mac, d: Mac)
    ensures var s' := Purge(s, now, hold, expire);
            && (rf in s'.db <==> rf in s.db && !HeldTooLong(s.db[rf], now, hold) && !TooOld(s.db[rf], now, expire))
            && (rf in s'.db ==> s'.db[rf] == s.db[rf])
            && (d in s'.local <==>
                  && d in s.local
                  && !exists r :: r in s.db && s.db[r].up && d in s.db[r].dests
                                  && TooOld(s.db[r], now, expire) && !HeldTooLong(s.db[r], now, hold))
  {
    forall r | r in s.db
      ensures FateOf(s.db[r], now, hold, expire)
              == if HeldTooLong(s.db[r], now, hold) then HoldOver else if TooOld(s.db[r], now, expire) then Expire else Keep
    {
    }
    hide FateOf, HeldTooLong, TooOld;
  }

  /** An RF ID that keeps reporting stays: its entry outlives every tick within `expire` report intervals of an advert. */
  lemma RecentAdvertSurvives(s: State, rf: Mac, interval: nat, dests: set<Mac>, t: int, now: int, hold: nat, expire: nat)
    requires rf in s.db ==> !s.db[rf].placeholder
    requires expire == 0 || now < t + (expire * interval) % 0x1_0000_0000
    ensures var s' := Purge(Advert(s, rf, interval, dests, t), now, hold, expire);
            rf in s'.db && s'.db[rf].dests == dests && s'.db[rf].timestamp == t
  {
    PurgeExactly(Advert(s, rf, interval, dests, t), now, hold, expire, rf, rf);
  }

  /** One that falls silent goes, and, if it is up, its destinations with it. */
  lemma SilentSourceGoes(s: State, rf: Mac, interval: nat, dests: set<Mac>, t: int, now: int, hold: nat, expire: nat, d: Mac)
    requires rf in s.db ==> !s.db[rf].placeholder
    requires expire > 0 && t + (expire * interval) % 0x1_0000_0000 <= now
    ensures var s' := Purge(Advert(s, rf, interval, dests, t), now, hold, expire);
            rf !in s'.db && (rf in s.db && s.db[rf].up && d in dests ==> d !in s'.local)
  {
    PurgeExactly(Advert(s, rf, interval, dests, t), now, hold, expire, rf, d);
  }

  /** A client hears that a destination exists exactly when it has called it up and not down since. */
  lemma StatusFollowsCalls(s: State, m: Mac, now: int, ofPeer: bool)
    ensures UpStatus(ClientUp(s, m, now), m) == DestinationExists
    ensures UpStatus(ClientDown(s, m), m) == Done
    ensures m in s.db && !s.db[m].up ==> DownStatus(s, m, ofPeer) == Done && ClientDown(s, m) == s
    ensures m !in s.db ==> ClientDown(s, m) == s.(local := s.local - {m})
    ensures m !in s.db ==> (DownStatus(s, m, ofPeer) == DestinationDoesNotExist <==> m !in s.local && !ofPeer)
  {
  }
}
