/**
 What every run of one peer keeps: only the head of a queue is ever transmitted, a destination's
 requests go out in the order they were queued, and none before its predecessor was answered.
 */
module PeerHistory {
  import opened Octets
  import opened Outcomes
  import opened PeerTransactions

  // ----- runs -----

  /** Everything that can touch a peer's queues: callers, received messages and the timer. */
  datatype Input =
    | Request(dest: Mac, request: MsgName, response: MsgName, now: int)
    | Response(dest: Mac, name: MsgName, now: int)
    | Tick(order: seq<Mac>, now: int, timeout: nat, tries: nat)
    | TerminateCall(now: int)
    | Stopped
    | SessionUp
    | LoseInterest(dest: Mac)
    | RegainInterest(dest: Mac)

  function Step(s: State, e: Input): (r: State)
    requires WellKeyed(s)
    ensures WellKeyed(r)
  {
    match e
    case Request(d, req, resp, now) => SendRequest(s, d, req, resp, now)
    case Response(d, name, now) => HandleResponse(s, d, name, now)
    case Tick(order, now, timeout, tries) => CheckForRetransmits(s, order, now, timeout, tries)
    case TerminateCall(now) => Terminate(s, now)
    case Stopped => s.(phase := Terminating)
    case SessionUp => s.(phase := InSession)
    case LoseInterest(d) => s.(notInterested := s.notInterested + {d})
    case RegainInterest(d) => s.(notInterested := s.notInterested - {d})
  }

  function Run(s: State, es: seq<Input>): (r: State)
    requires WellKeyed(s)
    ensures WellKeyed(r)
    decreases |es|
  {
    if es == [] then s else Run(Step(s, es[0]), es[1..])
  }

  const INITIAL := State(Connected, map[], {}, 0, [])

  // ----- reading the log -----

  /** Serials queued for `d`, in order. */
  function Enq(log: seq<Entry>, d: Mac): seq<nat> {
    if log == [] then []
    else
      var e := log[|log| - 1];
      var before := Enq(log[..|log| - 1], d);
      if e.Enqueued? && e.dest == d then before + [e.serial] else before
  }

  /** Serials answered for `d`, in order. */
  function Mat(log: seq<Entry>, d: Mac): seq<nat> {
    if log == [] then []
    else
      var e := log[|log| - 1];
      var before := Mat(log[..|log| - 1], d);
      if e.Matched? && e.dest == d then before + [e.serial] else before
  }

  /** How often the request `x` for `d` has been transmitted. */
  function SentCount(log: seq<Entry>, d: Mac, x: nat): nat {
    if log == [] then 0
    else
      var e := log[|log| - 1];
      SentCount(log[..|log| - 1], d, x) + if e.Sent? && e.dest == d && e.serial == x then 1 else 0
  }

  /** The oldest request for `d` that has not been answered. */
  function Next(log: seq<Entry>, d: Mac): Option<nat> {
    if |Mat(log, d)| < |Enq(log, d)| then Some(Enq(log, d)[|Mat(log, d)|]) else None
  }

  /** Only the oldest unanswered request is ever transmitted or answered. */
  predicate Disciplined(log: seq<Entry>) {
    log == [] ||
    (var e, before := log[|log| - 1], log[..|log| - 1];
     && Disciplined(before)
     && (!e.Enqueued? ==> Next(before, e.dest) == Some(e.serial)))
  }

  lemma Snoc(log: seq<Entry>, e: Entry)
    ensures (log + [e])[..|log + [e]| - 1] == log
    ensures forall d :: Enq(log + [e], d) == if e.Enqueued? && e.dest == d then Enq(log, d) + [e.serial] else Enq(log, d)
    ensures forall d :: Mat(log + [e], d) == if e.Matched? && e.dest == d then Mat(log, d) + [e.serial] else Mat(log, d)
    ensures forall d, x :: SentCount(log + [e], d, x)
                        == SentCount(log, d, x) + if e.Sent? && e.dest == d && e.serial == x then 1 else 0
    ensures Disciplined(log + [e]) <==> Disciplined(log) && (!e.Enqueued? ==> Next(log, e.dest) == Some(e.serial))
  {
    assert (log + [e])[..|log + [e]| - 1] == log;
  }

  // ----- the invariant -----

  function Serials(q: seq<Pending>): (r: seq<nat>)
    ensures |r| == |q| && forall i :: 0 <= i < |q| ==> r[i] == q[i].serial
  {
    seq(|q|, i requires 0 <= i < |q| => q[i].serial)
  }

  ghost predicate Increasing(s: seq<nat>) {
    forall i, j :: 0 <= i < j < |s| ==> s[i] < s[j]
  }

  /** One destination's queue agrees with the log, and only its head has ever been transmitted. */
  ghost predicate DestInv(q: seq<Pending>, log: seq<Entry>, d: Mac, next: nat) {
    && Mat(log, d) + Serials(q) == Enq(log, d)
    && Increasing(Enq(log, d))
    && (forall i :: 0 <= i < |Enq(log, d)| ==> Enq(log, d)[i] < next)
    && (forall i :: 0 <= i < |q| ==> q[i].sendTries == SentCount(log, d, q[i].serial))
    && (forall i :: 0 < i < |q| ==> q[i].sendTries == 0)
    && (forall x :: x >= next ==> SentCount(log, d, x) == 0)
  }

  ghost predicate Inv(s: State) {
    && WellKeyed(s)
    && Disciplined(s.log)
    && forall d :: DestInv(Queue(s, d), s.log, d, s.nextSerial)
  }

  lemma HeadIsNext(q: seq<Pending>, log: seq<Entry>, d: Mac, next: nat)
    requires DestInv(q, log, d, next) && q != []
    ensures Next(log, d) == Some(q[0].serial)
  {
    assert (Mat(log, d) + Serials(q))[|Mat(log, d)|] == q[0].serial;
  }

  lemma OthersUntouched(q: seq<Pending>, log: seq<Entry>, d: Mac, next: nat, e: Entry)
    requires DestInv(q, log, d, next) && e.dest != d
    ensures DestInv(q, log + [e], d, next)
  {
    Snoc(log, e);
    hide Enq, Mat, SentCount;
  }

  lemma EnqueueAt(q: seq<Pending>, log: seq<Entry>, d: Mac, rp: Pending, next: nat)
    requires DestInv(q, log, d, rp.serial) && rp.sendTries == 0 && next == rp.serial + 1
    ensures DestInv(q + [rp], log + [Enqueued(rp.serial, d)], d, next)
  {
    var log' := log + [Enqueued(rp.serial, d)];
    Snoc(log, Enqueued(rp.serial, d));
    hide Enq, Mat, SentCount;
    assert Serials(q + [rp]) == Serials(q) + [rp.serial];
    assert Mat(log', d) + Serials(q + [rp]) == Enq(log', d);
  }

  lemma TransmitAt(q: seq<Pending>, log: seq<Entry>, d: Mac, next: nat, now: int, req: MsgName)
    requires DestInv(q, log, d, next) && q != []
    ensures DestInv(q[0 := q[0].(sendTime := now, sendTries := q[0].sendTries + 1)],
                    log + [Sent(q[0].serial, d, req, now)], d, next)
  {
    var q' := q[0 := q[0].(sendTime := now, sendTries := q[0].sendTries + 1)];
    Snoc(log, Sent(q[0].serial, d, req, now));
    hide Enq, Mat, SentCount;
    assert Serials(q') == Serials(q);
    HeadIsUnlike(q, log, d, next);
    hide Serials, Increasing;
  }

  /** No other request in the queue has the head's serial number. */
  lemma HeadIsUnlike(q: seq<Pending>, log: seq<Entry>, d: Mac, next: nat)
    requires DestInv(q, log, d, next) && q != []
    ensures forall i :: 0 < i < |q| ==> q[i].serial != q[0].serial
    ensures q[0].serial < next
  {
    hide Enq, Mat, SentCount;
    var m := |Mat(log, d)|;
    forall i | 0 <= i < |q| ensures Enq(log, d)[m + i] == q[i].serial {
      assert (Mat(log, d) + Serials(q))[m + i] == q[i].serial;
    }
  }

  lemma PopAt(q: seq<Pending>, log: seq<Entry>, d: Mac, next: nat)
    requires DestInv(q, log, d, next) && q != []
    ensures DestInv(q[1..], log + [Matched(q[0].serial, d)], d, next)
  {
    var x, t, log' := q[0].serial, q[1..], log + [Matched(q[0].serial, d)];
    Snoc(log, Matched(x, d));
    hide Enq, Mat, SentCount;
    SerialsOfTail(Mat(log, d), q);
    forall i | 0 <= i < |t| ensures t[i].sendTries == SentCount(log', d, t[i].serial) && t[i].sendTries == 0 {
      assert t[i] == q[i + 1];
    }
    hide Serials;
  }

  lemma SerialsOfTail(before: seq<nat>, q: seq<Pending>)
    requires q != []
    ensures (before + [q[0].serial]) + Serials(q[1..]) == before + Serials(q)
  {
  }

  lemma WidenSerials(s: State)
    requires Inv(s)
    ensures Inv(s.(nextSerial := s.nextSerial + 1))
  {
    var s' := s.(nextSerial := s.nextSerial + 1);
    forall d ensures DestInv(Queue(s', d), s'.log, d, s'.nextSerial) {
      assert DestInv(Queue(s, d), s.log, d, s.nextSerial);
    }
  }

  lemma EnqueueKeepsInv(s: State, rp: Pending)
    requires Inv(s) && rp.serial == s.nextSerial && rp.sendTries == 0
    ensures Inv(Enqueue(s.(nextSerial := s.nextSerial + 1), rp))
  {
    hide DestInv, Disciplined, Enq, Mat, SentCount;
    WidenSerials(s);
    var s' := Enqueue(s.(nextSerial := s.nextSerial + 1), rp);
    Snoc(s.log, Enqueued(rp.serial, rp.dest));
    forall d ensures DestInv(Queue(s', d), s'.log, d, s'.nextSerial) {
      if d == rp.dest {
        EnqueueAt(Queue(s, d), s.log, d, rp.(queued := true), s'.nextSerial);
      } else {
        assert DestInv(Queue(s.(nextSerial := s.nextSerial + 1), d), s.log, d, s'.nextSerial);
        OthersUntouched(Queue(s, d), s.log, d, s'.nextSerial, Enqueued(rp.serial, rp.dest));
      }
    }
  }

  lemma TransmitKeepsInv(s: State, d: Mac, now: int)
    requires Inv(s) && d in s.pending
    ensures Inv(TransmitHead(s, d, now))
  {
    hide DestInv, Disciplined, Enq, Mat, SentCount;
    var s' := TransmitHead(s, d, now);
    var h := s.pending[d][0];
    HeadIsNext(Queue(s, d), s.log, d, s.nextSerial);
    Snoc(s.log, Sent(h.serial, d, h.request, now));
    forall d' ensures DestInv(Queue(s', d'), s'.log, d', s'.nextSerial) {
      if d' == d {
        TransmitAt(Queue(s, d), s.log, d, s.nextSerial, now, h.request);
      } else {
        assert DestInv(Queue(s, d'), s.log, d', s.nextSerial);
        OthersUntouched(Queue(s, d'), s.log, d', s.nextSerial, Sent(h.serial, d, h.request, now));
      }
    }
  }

  lemma PopKeepsInv(s: State, d: Mac)
    requires Inv(s) && d in s.pending
    ensures Inv(PopHead(s, d))
  {
    hide DestInv, Disciplined, Enq, Mat, SentCount;
    var s' := PopHead(s, d);
    var h := s.pending[d][0];
    HeadIsNext(Queue(s, d), s.log, d, s.nextSerial);
    Snoc(s.log, Matched(h.serial, d));
    forall d' ensures DestInv(Queue(s', d'), s'.log, d', s'.nextSerial) {
      if d' == d {
        PopAt(Queue(s, d), s.log, d, s.nextSerial);
        assert Queue(s', d) == Queue(s, d)[1..];
      } else {
        assert DestInv(Queue(s, d'), s.log, d', s.nextSerial);
        OthersUntouched(Queue(s, d'), s.log, d', s.nextSerial, Matched(h.serial, d));
      }
    }
  }

  lemma RequestKeepsInv(s: State, d: Mac, req: MsgName, resp: MsgName, now: int)
    requires Inv(s)
    ensures Inv(SendRequest(s, d, req, resp, now))
  {
    hide DestInv, Disciplined, Enq, Mat, SentCount;
    var rp := Pending(s.nextSerial, d, req, resp, false, 0, 0);
    WidenSerials(s);
    if d !in s.notInterested {
      EnqueueKeepsInv(s, rp);
      var s1 := Enqueue(s.(nextSerial := s.nextSerial + 1), rp);
      if s1.pending[d][0].serial == rp.serial {
        TransmitKeepsInv(s1, d, now);
      }
    }
  }

  lemma TerminateKeepsInv(s: State, now: int)
    requires Inv(s)
    ensures Inv(Terminate(s, now))
  {
    hide DestInv, Disciplined;
    if s.phase != Terminating {
      var s' := s.(phase := Terminating);
      assert forall d :: Queue(s', d) == Queue(s, d);
      RequestKeepsInv(s', SESSION, SessionTermination, SessionTerminationResponse, now);
    }
  }

  lemma ResponseKeepsInv(s: State, d: Mac, name: MsgName, now: int)
    requires Inv(s)
    ensures Inv(HandleResponse(s, d, name, now))
  {
    hide DestInv, Disciplined;
    if !Expected(s, d, name) {
      TerminateKeepsInv(s, now);
    } else {
      PopKeepsInv(s, d);
      var s1 := PopHead(s, d);
      if d in s1.pending {
        TransmitKeepsInv(s1, d, now);
      }
    }
  }

  lemma {:induction false} TickKeepsInv(s: State, order: seq<Mac>, now: int, timeout: nat, tries: nat)
    requires Inv(s)
    ensures Inv(CheckForRetransmits(s, order, now, timeout, tries))
    decreases |order|
  {
    hide DestInv, Disciplined;
    if order != [] {
      var q := Queue(s, order[0]);
      if q == [] || !Late(q[0], now, timeout) {
        TickKeepsInv(s, order[1..], now, timeout, tries);
      } else if q[0].sendTries < tries {
        TransmitKeepsInv(s, order[0], now);
        TickKeepsInv(SendExpecting(s, q[0], now), order[1..], now, timeout, tries);
      } else {
        TerminateKeepsInv(s, now);
      }
    }
  }

  lemma StepKeepsInv(s: State, e: Input)
    requires Inv(s)
    ensures Inv(Step(s, e))
  {
    hide DestInv, Disciplined;
    match e
    case Request(d, req, resp, now) => RequestKeepsInv(s, d, req, resp, now);
    case Response(d, name, now) => ResponseKeepsInv(s, d, name, now);
    case Tick(order, now, timeout, tries) => TickKeepsInv(s, order, now, timeout, tries);
    case TerminateCall(now) => TerminateKeepsInv(s, now);
    case _ => assert forall d :: Queue(Step(s, e), d) == Queue(s, d);
  }

  lemma {:induction false} RunKeepsInv(s: State, es: seq<Input>)
    requires Inv(s)
    ensures Inv(Run(s, es))
    decreases |es|
  {
    hide Step, DestInv, Disciplined;
    if es != [] {
      StepKeepsInv(s, es[0]);
      RunKeepsInv(Step(s, es[0]), es[1..]);
    }
  }

  // ----- what the invariant means for the wire -----

  lemma {:induction false} LogPrefix(log: seq<Entry>, k: nat, d: Mac)
    requires k <= |log|
    ensures Enq(log[..k], d) <= Enq(log, d) && Mat(log[..k], d) <= Mat(log, d)
  {
    if k < |log| {
      LogPrefix(log[..|log| - 1], k, d);
      assert log[..|log| - 1][..k] == log[..k];
    } else {
      assert log[..k] == log;
    }
  }

  lemma {:induction false} DisciplinedPrefix(log: seq<Entry>, k: nat)
    requires Disciplined(log) && k <= |log|
    ensures Disciplined(log[..k])
  {
    if k < |log| {
      DisciplinedPrefix(log[..|log| - 1], k);
      assert log[..|log| - 1][..k] == log[..k];
    } else {
      assert log[..k] == log;
    }
  }

  lemma {:induction false} AnsweredInOrder(log: seq<Entry>, d: Mac)
    requires Disciplined(log)
    ensures Mat(log, d) <= Enq(log, d)
  {
    if log != [] {
      AnsweredInOrder(log[..|log| - 1], d);
    }
  }

  lemma {:induction false} AnsweredIsLogged(log: seq<Entry>, d: Mac, i: nat)
    requires i < |Mat(log, d)|
    ensures Matched(Mat(log, d)[i], d) in log
  {
    var before := log[..|log| - 1];
    if i < |Mat(before, d)| {
      AnsweredIsLogged(before, d, i);
      assert Matched(Mat(log, d)[i], d) in before;
    } else {
      assert log[|log| - 1] == Matched(Mat(log, d)[i], d);
    }
  }

  lemma AnswersGrow(log: seq<Entry>, k: nat, k': nat, d: Mac)
    requires k <= |log| && k' <= |log|
    ensures k <= k' ==> |Mat(log[..k], d)| <= |Mat(log[..k'], d)|
  {
    if k <= k' {
      LogPrefix(log[..k'], k, d);
      assert log[..k'][..k] == log[..k];
    }
  }

  predicate IsSend(e: Entry, d: Mac, serial: nat) {
    e.Sent? && e.dest == d && e.serial == serial
  }

  /** When the `j`-th request for a destination goes out, exactly `j` have been answered. */
  lemma AnsweredWhenSent(log: seq<Entry>, d: Mac, j: nat, k: nat)
    requires Disciplined(log) && Increasing(Enq(log, d))
    requires j < |Enq(log, d)| && k < |log|
    requires IsSend(log[k], d, Enq(log, d)[j])
    ensures |Mat(log[..k], d)| == j && Mat(log[..k], d) == Enq(log, d)[..j]
  {
    hide Mat, Enq;
    DisciplinedPrefix(log, k + 1);
    assert log[..k + 1][..k] == log[..k] && log[..k + 1][k] == log[k];
    assert Next(log[..k], d) == Some(log[k].serial);
    LogPrefix(log, k, d);
    AnsweredInOrder(log[..k], d);
    var m := |Mat(log[..k], d)|;
    assert Enq(log, d)[m] == log[k].serial;
    assert m == j;
  }

  /**
   In every run: a request is never transmitted before every earlier request for the same
   destination has been answered, and so all transmissions for a destination are in the order in
   which the requests were queued.
   */
  lemma TransactionOrder(es: seq<Input>, d: Mac, i: nat, j: nat, k: nat)
    requires var log := Run(INITIAL, es).log;
             && i < j < |Enq(log, d)| && k < |log|
             && IsSend(log[k], d, Enq(log, d)[j])
    ensures var log := Run(INITIAL, es).log;
            && Matched(Enq(log, d)[i], d) in log[..k]
            && forall k' :: 0 <= k' < |log| && IsSend(log[k'], d, Enq(log, d)[i]) ==> k' < k
  {
    hide Mat, Enq, Disciplined, Run;
    InitialInv();
    RunKeepsInv(INITIAL, es);
    var s := Run(INITIAL, es);
    var log := s.log;
    assert DestInv(Queue(s, d), log, d, s.nextSerial);
    AnsweredWhenSent(log, d, j, k);
    assert Mat(log[..k], d)[i] == Enq(log, d)[i];
    AnsweredIsLogged(log[..k], d, i);
    forall k' | 0 <= k' < |log| && IsSend(log[k'], d, Enq(log, d)[i])
      ensures k' < k
    {
      AnsweredWhenSent(log, d, i, k');
      AnswersGrow(log, k, k', d);
    }
  }

  lemma InitialInv()
    ensures Inv(INITIAL)
  {
    forall d ensures DestInv(Queue(INITIAL, d), INITIAL.log, d, INITIAL.nextSerial) {
      assert Mat([], d) + Serials([]) == Enq([], d);
    }
  }

  /**
   In every run: no queue is empty or holds a request for another destination, a queue is exactly
   what was queued and not yet answered, and only its head has been transmitted.
   */
  lemma QueuesInEveryRun(es: seq<Input>, d: Mac)
    ensures var s := Run(INITIAL, es);
            && (d in s.pending ==> s.pending[d] != [] && forall p :: p in s.pending[d] ==> p.dest == d)
            && Mat(s.log, d) + Serials(Queue(s, d)) == Enq(s.log, d)
            && (forall i :: 0 <= i < |Queue(s, d)| ==> Queue(s, d)[i].sendTries == SentCount(s.log, d, Queue(s, d)[i].serial))
            && (forall i :: 0 < i < |Queue(s, d)| ==> SentCount(s.log, d, Queue(s, d)[i].serial) == 0)
  {
    hide Mat, Enq, Disciplined, Run, SentCount;
    InitialInv();
    RunKeepsInv(INITIAL, es);
    var s := Run(INITIAL, es);
    assert DestInv(Queue(s, d), s.log, d, s.nextSerial);
  }

  // ----- what is never sent, and what always is -----

  /** Whatever was logged after `s` about `d` is an answer that came in. */
  ghost predicate SilentSince(s: State, s': State, d: Mac) {
    && s.log <= s'.log && d in s'.notInterested
    && forall k :: |s.log| <= k < |s'.log| && s'.log[k].dest == d ==> s'.log[k].Matched?
  }

  lemma SilentThen(s: State, s1: State, s2: State, d: Mac)
    requires SilentSince(s, s1, d) && SilentSince(s1, s2, d)
    ensures SilentSince(s, s2, d)
  {
  }

  lemma {:induction false} TickUnwanted(s: State, order: seq<Mac>, now: int, timeout: nat, tries: nat, d: Mac)
    requires WellKeyed(s) && d in s.notInterested
    ensures SilentSince(s, CheckForRetransmits(s, order, now, timeout, tries), d)
    decreases |order|
  {
    if order != [] {
      var q := Queue(s, order[0]);
      if q == [] || !Late(q[0], now, timeout) {
        TickUnwanted(s, order[1..], now, timeout, tries, d);
      } else if q[0].sendTries < tries {
        var s1 := SendExpecting(s, q[0], now);
        TickUnwanted(s1, order[1..], now, timeout, tries, d);
        SilentThen(s, s1, CheckForRetransmits(s1, order[1..], now, timeout, tries), d);
      }
    }
  }

  /** Nothing is queued or sent for a destination in which the peer is not interested, whatever happens. */
  lemma UnwantedIsSilent(s: State, e: Input, d: Mac)
    requires WellKeyed(s) && d in s.notInterested && e != RegainInterest(d)
    ensures SilentSince(s, Step(s, e), d)
  {
    match e
    case Tick(order, now, timeout, tries) => TickUnwanted(s, order, now, timeout, tries, d);
    case _ =>
  }

  /** The peer is told that the session ends: at once, or behind what the session has queued already. */
  lemma TerminationIsAnnounced(s: State, now: int)
    requires WellKeyed(s) && s.phase != Terminating && SESSION !in s.notInterested
    ensures var s' := Terminate(s, now);
            && Queue(s', SESSION) != []
            && Queue(s', SESSION)[|Queue(s', SESSION)| - 1].request == SessionTermination
            && (Queue(s, SESSION) == [] ==>
                  s'.log == s.log + [Enqueued(s.nextSerial, SESSION), Sent(s.nextSerial, SESSION, SessionTermination, now)])
  {
  }
}
