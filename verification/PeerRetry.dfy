/**
 Bounded retry: how often a request is transmitted, and how soon an unanswered one ends the
 session (`check_for_retransmits` and the one-second timer in Peer.cpp).
 */
module PeerRetry {
  import opened Octets
  import opened Outcomes
  import opened PeerTransactions
  import opened PeerHistory

  function Limit(tries: nat): nat {
    if tries < 1 then 1 else tries
  }

  // ----- at most max(1, send-tries) transmissions -----

  /** The configured number of tries does not change during the run. */
  ghost predicate ConstantTries(es: seq<Input>, tries: nat) {
    forall e :: e in es && e.Tick? ==> e.tries == tries
  }

  ghost predicate Bounded(s: State, n: nat) {
    forall d, x :: SentCount(s.log, d, x) <= n
  }

  lemma TransmitKeepsBound(s: State, d: Mac, now: int, n: nat)
    requires Inv(s) && Bounded(s, n) && d in s.pending && s.pending[d][0].sendTries < n
    ensures Bounded(TransmitHead(s, d, now), n)
  {
    hide Enq, Mat, Disciplined, SentCount;
    var h := s.pending[d][0];
    assert DestInv(Queue(s, d), s.log, d, s.nextSerial);
    Snoc(s.log, Sent(h.serial, d, h.request, now));
  }

  lemma RequestKeepsBound(s: State, d: Mac, req: MsgName, resp: MsgName, now: int, n: nat)
    requires Inv(s) && Bounded(s, n) && n >= 1
    ensures Bounded(SendRequest(s, d, req, resp, now), n)
  {
    hide DestInv, Disciplined, SentCount;
    if d !in s.notInterested {
      var rp := Pending(s.nextSerial, d, req, resp, false, 0, 0);
      var s1 := Enqueue(s.(nextSerial := s.nextSerial + 1), rp);
      EnqueueKeepsInv(s, rp);
      Snoc(s.log, Enqueued(rp.serial, d));
      if s1.pending[d][0].serial == rp.serial {
        FreshHeadIsNew(s, rp);
        TransmitKeepsBound(s1, d, now, n);
      }
    }
  }

  /** If a request just queued is the head of its queue, it is the only one there. */
  lemma FreshHeadIsNew(s: State, rp: Pending)
    requires Inv(s) && rp.serial == s.nextSerial
    requires Enqueue(s, rp).pending[rp.dest][0].serial == rp.serial
    ensures Queue(s, rp.dest) == []
  {
    hide Enq, Mat, Disciplined, SentCount;
    var q := Queue(s, rp.dest);
    if q != [] {
      HeadIsNext(q, s.log, rp.dest, s.nextSerial);
    }
  }

  lemma TerminateKeepsBound(s: State, now: int, n: nat)
    requires Inv(s) && Bounded(s, n) && n >= 1
    ensures Bounded(Terminate(s, now), n)
  {
    hide DestInv, Disciplined, SentCount;
    if s.phase != Terminating {
      var s' := s.(phase := Terminating);
      assert forall d :: Queue(s', d) == Queue(s, d);
      RequestKeepsBound(s', SESSION, SessionTermination, SessionTerminationResponse, now, n);
    }
  }

  lemma ResponseKeepsBound(s: State, d: Mac, name: MsgName, now: int, n: nat)
    requires Inv(s) && Bounded(s, n) && n >= 1
    ensures Bounded(HandleResponse(s, d, name, now), n)
  {
    hide Enq, Mat, Disciplined, SentCount;
    if !Expected(s, d, name) {
      TerminateKeepsBound(s, now, n);
    } else {
      PopKeepsInv(s, d);
      var s1 := PopHead(s, d);
      Snoc(s.log, Matched(s.pending[d][0].serial, d));
      if d in s1.pending {
        assert DestInv(Queue(s, d), s.log, d, s.nextSerial);
        assert s1.pending[d][0] == Queue(s, d)[1];
        TransmitKeepsBound(s1, d, now, n);
      }
    }
  }

  lemma {:induction false} TickKeepsBound(s: State, order: seq<Mac>, now: int, timeout: nat, tries: nat)
    requires Inv(s) && Bounded(s, Limit(tries))
    ensures Bounded(CheckForRetransmits(s, order, now, timeout, tries), Limit(tries))
    decreases |order|
  {
    hide DestInv, Disciplined, Bounded;
    if order != [] {
      var q := Queue(s, order[0]);
      if q == [] || !Late(q[0], now, timeout) {
        TickKeepsBound(s, order[1..], now, timeout, tries);
      } else if q[0].sendTries < tries {
        TransmitKeepsInv(s, order[0], now);
        TransmitKeepsBound(s, order[0], now, Limit(tries));
        TickKeepsBound(SendExpecting(s, q[0], now), order[1..], now, timeout, tries);
      } else {
        TerminateKeepsBound(s, now, Limit(tries));
      }
    }
  }

  lemma StepKeepsBound(s: State, e: Input, tries: nat)
    requires Inv(s) && Bounded(s, Limit(tries)) && (e.Tick? ==> e.tries == tries)
    ensures Bounded(Step(s, e), Limit(tries))
  {
    hide DestInv, Disciplined, SentCount;
    match e
    case Request(d, req, resp, now) => RequestKeepsBound(s, d, req, resp, now, Limit(tries));
    case Response(d, name, now) => ResponseKeepsBound(s, d, name, now, Limit(tries));
    case Tick(order, now, timeout, _) => TickKeepsBound(s, order, now, timeout, tries);
    case TerminateCall(now) => TerminateKeepsBound(s, now, Limit(tries));
    case _ =>
  }

  lemma {:induction false} RunKeepsBound(s: State, es: seq<Input>, tries: nat)
    requires Inv(s) && Bounded(s, Limit(tries)) && ConstantTries(es, tries)
    ensures Bounded(Run(s, es), Limit(tries))
    decreases |es|
  {
    hide Step, DestInv, Disciplined, Bounded;
    if es != [] {
      StepKeepsBound(s, es[0], tries);
      StepKeepsInv(s, es[0]);
      RunKeepsBound(Step(s, es[0]), es[1..], tries);
    }
  }

  /** No request is transmitted more than max(1, send-tries) times, in any run. */
  lemma BoundedRetransmission(es: seq<Input>, tries: nat, d: Mac, serial: nat)
    requires ConstantTries(es, tries)
    ensures var n := SentCount(Run(INITIAL, es).log, d, serial); n <= 1 || n <= tries
  {
    hide Step, Run;
    InitialInv();
    RunKeepsBound(INITIAL, es, tries);
  }

  // ----- when a tick repeats a request, and when it ends the session -----

  /** A tick leaves the head of a queue alone whose timeout has not passed. */
  lemma {:induction false} TickSparesFresh(s: State, order: seq<Mac>, now: int, timeout: nat, tries: nat, d: Mac)
    requires Inv(s) && d in s.pending && now <= s.pending[d][0].sendTime + timeout
    ensures var h, s' := s.pending[d][0], CheckForRetransmits(s, order, now, timeout, tries);
            && SentCount(s'.log, d, h.serial) == SentCount(s.log, d, h.serial)
            && d in s'.pending && s'.pending[d][0] == h
    decreases |order|
  {
    hide DestInv, Disciplined, SentCount;
    if order != [] {
      var e := order[0];
      var q := Queue(s, e);
      if q == [] || !Late(q[0], now, timeout) {
        TickSparesFresh(s, order[1..], now, timeout, tries, d);
      } else if q[0].sendTries < tries {
        var s1 := SendExpecting(s, q[0], now);
        TransmitKeepsInv(s, e, now);
        Snoc(s.log, Sent(q[0].serial, e, q[0].request, now));
        assert e != d;
        TickSparesFresh(s1, order[1..], now, timeout, tries, d);
      } else {
        TerminateSparesHead(s, now, d);
      }
    }
  }

  /** The termination message goes behind what is queued for the session already. */
  lemma TerminateSparesHead(s: State, now: int, d: Mac)
    requires Inv(s) && d in s.pending
    ensures var h, s' := s.pending[d][0], Terminate(s, now);
            SentCount(s'.log, d, h.serial) == SentCount(s.log, d, h.serial) && d in s'.pending && s'.pending[d][0] == h
  {
    hide DestInv, Disciplined, SentCount;
    if s.phase != Terminating && SESSION !in s.notInterested {
      var rp := Pending(s.nextSerial, SESSION, SessionTermination, SessionTerminationResponse, false, 0, 0);
      var s0 := s.(phase := Terminating, nextSerial := s.nextSerial + 1);
      var s1 := Enqueue(s0, rp);
      Snoc(s.log, Enqueued(rp.serial, SESSION));
      if s1.pending[SESSION][0].serial == rp.serial {
        FreshHeadIsNew(s, rp);
        Snoc(s1.log, Sent(rp.serial, SESSION, SessionTermination, now));
      }
    }
  }

  /** A late head with no tries left. */
  ghost predicate OutOfTries(s: State, order: seq<Mac>, now: int, timeout: nat, tries: nat) {
    exists e :: e in order && e in s.pending && s.pending[e] != []
             && s.pending[e][0].sendTime + timeout < now && s.pending[e][0].sendTries >= tries
  }

  /** A tick ends the session if and only if it finds a late head with no tries left. */
  lemma {:induction false} TickTerminatesIff(s: State, order: seq<Mac>, now: int, timeout: nat, tries: nat)
    requires WellKeyed(s) && s.phase != Terminating
    ensures CheckForRetransmits(s, order, now, timeout, tries).phase == Terminating
            <==> OutOfTries(s, order, now, timeout, tries)
    decreases |order|
  {
    if order != [] {
      var e := order[0];
      var q := Queue(s, e);
      if q == [] || !Late(q[0], now, timeout) {
        TickTerminatesIff(s, order[1..], now, timeout, tries);
        OutOfTriesLater(s, s, order, now, timeout, tries);
      } else if q[0].sendTries < tries {
        var s1 := SendExpecting(s, q[0], now);
        TickTerminatesIff(s1, order[1..], now, timeout, tries);
        OutOfTriesLater(s, s1, order, now, timeout, tries);
      }
    }
  }

  /** Looking at a first queue that is not out of tries changes nothing for the others. */
  lemma OutOfTriesLater(s: State, s1: State, order: seq<Mac>, now: int, timeout: nat, tries: nat)
    requires WellKeyed(s) && order != []
    requires Queue(s, order[0]) == [] || !Late(Queue(s, order[0])[0], now, timeout) || Queue(s, order[0])[0].sendTries < tries
    requires s1 == s || (Queue(s, order[0]) != [] && s1 == SendExpecting(s, Queue(s, order[0])[0], now))
    ensures OutOfTries(s, order, now, timeout, tries) <==> OutOfTries(s1, order[1..], now, timeout, tries)
  {
    if e :| e in order && e in s.pending && s.pending[e] != []
            && s.pending[e][0].sendTime + timeout < now && s.pending[e][0].sendTries >= tries {
      assert e != order[0] && e in order[1..];
      assert e in s1.pending && s1.pending[e] == s.pending[e];
    }
    if e :| e in order[1..] && e in s1.pending && s1.pending[e] != []
            && s1.pending[e][0].sendTime + timeout < now && s1.pending[e][0].sendTries >= tries {
      assert e != order[0] && s1.pending[e] == s.pending[e];
    }
  }

  /** A tick sends a late, wanted head again, once, unless it ends the session before it gets there. */
  lemma {:induction false} TickResendsLate(s: State, order: seq<Mac>, now: int, timeout: nat, tries: nat, d: Mac)
    requires Inv(s) && d in s.pending && d in order && d !in s.notInterested
    requires s.pending[d][0].sendTime + timeout < now && !OutOfTries(s, order, now, timeout, tries)
    ensures var h, s' := s.pending[d][0], CheckForRetransmits(s, order, now, timeout, tries);
            && SentCount(s'.log, d, h.serial) == SentCount(s.log, d, h.serial) + 1
            && d in s'.pending && s'.pending[d][0] == h.(sendTime := now, sendTries := h.sendTries + 1)
    decreases |order|
  {
    hide DestInv, Disciplined, SentCount;
    var e := order[0];
    var q := Queue(s, e);
    assert q != [] && Late(q[0], now, timeout) ==> q[0].sendTries < tries;
    if q == [] || !Late(q[0], now, timeout) {
      OutOfTriesLater(s, s, order, now, timeout, tries);
      TickResendsLate(s, order[1..], now, timeout, tries, d);
    } else {
      var s1 := SendExpecting(s, q[0], now);
      OutOfTriesLater(s, s1, order, now, timeout, tries);
      TransmitKeepsInv(s, e, now);
      Snoc(s.log, Sent(q[0].serial, e, q[0].request, now));
      if e == d {
        TickSparesFresh(s1, order[1..], now, timeout, tries, d);
      } else {
        TickResendsLate(s1, order[1..], now, timeout, tries, d);
      }
    }
  }

  // ----- transmissions of one request are far apart -----

  /** When the request `x` for `d` was last transmitted. */
  function LastSent(log: seq<Entry>, d: Mac, x: nat): Option<int> {
    if log == [] then None
    else
      var e := log[|log| - 1];
      if e.Sent? && e.dest == d && e.serial == x then Some(e.time) else LastSent(log[..|log| - 1], d, x)
  }

  /** Each transmission comes more than `timeout` seconds after the one before it, if there is one. */
  predicate Spaced(log: seq<Entry>, timeout: nat) {
    log == [] ||
    (var e, before := log[|log| - 1], log[..|log| - 1];
     && Spaced(before, timeout)
     && (e.Sent? && LastSent(before, e.dest, e.serial).Some? ==> LastSent(before, e.dest, e.serial).value + timeout < e.time))
  }

  lemma LastSentSnoc(log: seq<Entry>, e: Entry, timeout: nat)
    ensures forall d, x :: LastSent(log + [e], d, x)
                        == if e.Sent? && e.dest == d && e.serial == x then Some(e.time) else LastSent(log, d, x)
    ensures Spaced(log + [e], timeout) <==>
            && Spaced(log, timeout)
            && (e.Sent? && LastSent(log, e.dest, e.serial).Some? ==> LastSent(log, e.dest, e.serial).value + timeout < e.time)
  {
    assert (log + [e])[..|log + [e]| - 1] == log;
  }

  lemma {:induction false} NeverSent(log: seq<Entry>, d: Mac, x: nat)
    ensures LastSent(log, d, x).None? <==> SentCount(log, d, x) == 0
  {
    if log != [] {
      NeverSent(log[..|log| - 1], d, x);
    }
  }

  /** The head of a queue knows when it was last transmitted. */
  ghost predicate HeadTimed(s: State, d: Mac) {
    d in s.pending && s.pending[d] != [] && s.pending[d][0].sendTries > 0
    ==> LastSent(s.log, d, s.pending[d][0].serial) == Some(s.pending[d][0].sendTime)
  }

  ghost predicate Timed(s: State, timeout: nat) {
    Spaced(s.log, timeout) && forall d :: HeadTimed(s, d)
  }

  /** Transmitting a head for the first time, or when its timeout has passed. */
  lemma TransmitKeepsTimed(s: State, d: Mac, now: int, timeout: nat)
    requires Inv(s) && Timed(s, timeout) && d in s.pending
    requires s.pending[d][0].sendTries > 0 ==> s.pending[d][0].sendTime + timeout < now
    ensures Timed(TransmitHead(s, d, now), timeout)
  {
    hide Enq, Mat, Disciplined, SentCount, LastSent, Spaced;
    var h, s' := s.pending[d][0], TransmitHead(s, d, now);
    assert DestInv(Queue(s, d), s.log, d, s.nextSerial);
    NeverSent(s.log, d, h.serial);
    assert HeadTimed(s, d);
    LastSentSnoc(s.log, Sent(h.serial, d, h.request, now), timeout);
    forall e ensures HeadTimed(s', e) {
      assert HeadTimed(s, e);
    }
  }

  lemma QueueingKeepsTimed(s: State, rp: Pending, timeout: nat)
    requires Inv(s) && Timed(s, timeout) && rp.sendTries == 0
    ensures Timed(Enqueue(s.(nextSerial := s.nextSerial + 1), rp), timeout)
  {
    hide DestInv, Disciplined, LastSent, Spaced;
    var s' := Enqueue(s.(nextSerial := s.nextSerial + 1), rp);
    LastSentSnoc(s.log, Enqueued(rp.serial, rp.dest), timeout);
    forall e ensures HeadTimed(s', e) {
      assert HeadTimed(s, e);
    }
  }

  lemma RequestKeepsTimed(s: State, d: Mac, req: MsgName, resp: MsgName, now: int, timeout: nat)
    requires Inv(s) && Timed(s, timeout)
    ensures Timed(SendRequest(s, d, req, resp, now), timeout)
  {
    hide DestInv, Disciplined, Spaced, LastSent, HeadTimed;
    var rp := Pending(s.nextSerial, d, req, resp, false, 0, 0);
    if d !in s.notInterested {
      var s1 := Enqueue(s.(nextSerial := s.nextSerial + 1), rp);
      EnqueueKeepsInv(s, rp);
      QueueingKeepsTimed(s, rp, timeout);
      if s1.pending[d][0].serial == rp.serial {
        FreshHeadIsNew(s, rp);
        TransmitKeepsTimed(s1, d, now, timeout);
      }
    } else {
      SameQueuesTimed(s, s.(nextSerial := s.nextSerial + 1), timeout);
    }
  }

  lemma SameQueuesTimed(s: State, s': State, timeout: nat)
    requires Timed(s, timeout) && s'.pending == s.pending && s'.log == s.log
    ensures Timed(s', timeout)
  {
    hide Spaced, LastSent;
    forall e ensures HeadTimed(s', e) {
      assert HeadTimed(s, e);
    }
  }

  lemma TerminateKeepsTimed(s: State, now: int, timeout: nat)
    requires Inv(s) && Timed(s, timeout)
    ensures Timed(Terminate(s, now), timeout)
  {
    hide DestInv, Disciplined, Timed;
    if s.phase != Terminating {
      var s' := s.(phase := Terminating);
      assert forall d :: Queue(s', d) == Queue(s, d);
      SameQueuesTimed(s, s', timeout);
      RequestKeepsTimed(s', SESSION, SessionTermination, SessionTerminationResponse, now, timeout);
    }
  }

  lemma PopKeepsTimed(s: State, d: Mac, timeout: nat)
    requires Inv(s) && Timed(s, timeout) && d in s.pending
    ensures Timed(PopHead(s, d), timeout) && (|s.pending[d]| > 1 ==> s.pending[d][1].sendTries == 0)
  {
    hide Enq, Mat, Disciplined, SentCount, LastSent, Spaced;
    var s' := PopHead(s, d);
    assert DestInv(Queue(s, d), s.log, d, s.nextSerial);
    LastSentSnoc(s.log, Matched(s.pending[d][0].serial, d), timeout);
    forall e ensures HeadTimed(s', e) {
      assert HeadTimed(s, e);
    }
  }

  lemma ResponseKeepsTimed(s: State, d: Mac, name: MsgName, now: int, timeout: nat)
    requires Inv(s) && Timed(s, timeout)
    ensures Timed(HandleResponse(s, d, name, now), timeout)
  {
    hide DestInv, Disciplined, Timed;
    if !Expected(s, d, name) {
      TerminateKeepsTimed(s, now, timeout);
    } else {
      PopKeepsInv(s, d);
      PopKeepsTimed(s, d, timeout);
      var s1 := PopHead(s, d);
      if d in s1.pending {
        TransmitKeepsTimed(s1, d, now, timeout);
      }
    }
  }

  lemma {:induction false} TickKeepsTimed(s: State, order: seq<Mac>, now: int, timeout: nat, tries: nat)
    requires Inv(s) && Timed(s, timeout)
    ensures Timed(CheckForRetransmits(s, order, now, timeout, tries), timeout)
    decreases |order|
  {
    hide DestInv, Disciplined, Timed;
    if order != [] {
      var q := Queue(s, order[0]);
      if q == [] || !Late(q[0], now, timeout) {
        TickKeepsTimed(s, order[1..], now, timeout, tries);
      } else if q[0].sendTries < tries {
        TransmitKeepsInv(s, order[0], now);
        TransmitKeepsTimed(s, order[0], now, timeout);
        TickKeepsTimed(SendExpecting(s, q[0], now), order[1..], now, timeout, tries);
      } else {
        TerminateKeepsTimed(s, now, timeout);
      }
    }
  }

  lemma StepKeepsTimed(s: State, e: Input, timeout: nat)
    requires Inv(s) && Timed(s, timeout) && (e.Tick? ==> e.timeout == timeout)
    ensures Timed(Step(s, e), timeout)
  {
    hide DestInv, Disciplined, Timed;
    match e
    case Request(d, req, resp, now) => RequestKeepsTimed(s, d, req, resp, now, timeout);
    case Response(d, name, now) => ResponseKeepsTimed(s, d, name, now, timeout);
    case Tick(order, now, _, tries) => TickKeepsTimed(s, order, now, timeout, tries);
    case TerminateCall(now) => TerminateKeepsTimed(s, now, timeout);
    case _ => SameQueuesTimed(s, Step(s, e), timeout);
  }

  lemma {:induction false} RunKeepsTimed(s: State, es: seq<Input>, timeout: nat)
    requires Inv(s) && Timed(s, timeout) && forall e :: e in es && e.Tick? ==> e.timeout == timeout
    ensures Timed(Run(s, es), timeout)
    decreases |es|
  {
    hide Step, DestInv, Disciplined, Timed;
    if es != [] {
      StepKeepsTimed(s, es[0], timeout);
      StepKeepsInv(s, es[0]);
      RunKeepsTimed(Step(s, es[0]), es[1..], timeout);
    }
  }

  lemma {:induction false} SpacedApart(log: seq<Entry>, timeout: nat, i: nat, j: nat)
    requires Spaced(log, timeout) && i < j < |log| && log[i].Sent? && log[j].Sent?
    requires log[i].dest == log[j].dest && log[i].serial == log[j].serial
    ensures log[i].time + timeout < log[j].time
    decreases |log|
  {
    var before := log[..|log| - 1];
    if j < |log| - 1 {
      SpacedApart(before, timeout, i, j);
    } else {
      LastSentAfter(before, timeout, i);
    }
  }

  /** The last transmission of a request is no earlier than any other. */
  lemma {:induction false} LastSentAfter(log: seq<Entry>, timeout: nat, i: nat)
    requires Spaced(log, timeout) && i < |log| && log[i].Sent?
    ensures var last := LastSent(log, log[i].dest, log[i].serial); last.Some? && log[i].time <= last.value
    decreases |log|
  {
    if i < |log| - 1 {
      LastSentAfter(log[..|log| - 1], timeout, i);
    }
  }

  /** In every run with a constant timeout, two transmissions of one request are more than that many seconds apart. */
  lemma RetransmissionsAreSpaced(es: seq<Input>, timeout: nat, i: nat, j: nat)
    requires forall e :: e in es && e.Tick? ==> e.timeout == timeout
    requires var log := Run(INITIAL, es).log;
             && i < j < |log| && log[i].Sent? && log[j].Sent?
             && log[i].dest == log[j].dest && log[i].serial == log[j].serial
    ensures var log := Run(INITIAL, es).log; log[i].time + timeout < log[j].time
  {
    hide Step, Run, Inv, LastSent, HeadTimed;
    InitialInv();
    assert Timed(INITIAL, timeout) by { NothingTimed(timeout); }
    RunKeepsTimed(INITIAL, es, timeout);
    SpacedApart(Run(INITIAL, es).log, timeout, i, j);
  }

  lemma NothingTimed(timeout: nat)
    ensures Timed(INITIAL, timeout)
  {
  }

  // ----- an unanswered request ends the session in time -----

  ghost predicate EntersTerminating(s: State, es: seq<Input>)
    requires WellKeyed(s)
    decreases |es|
  {
    s.phase == Terminating || (es != [] && EntersTerminating(Step(s, es[0]), es[1..]))
  }

  /** The timer fires at `t + 1`, `t + 2`, ... with a constant configuration, and looks at `d`. */
  ghost predicate OneSecondTicks(es: seq<Input>, t: int, d: Mac, timeout: nat, tries: nat)
    decreases |es|
  {
    es == [] ||
    if es[0].Tick? then
      && es[0].now == t + 1 && es[0].timeout == timeout && es[0].tries == tries && d in es[0].order
      && OneSecondTicks(es[1..], t + 1, d, timeout, tries)
    else
      OneSecondTicks(es[1..], t, d, timeout, tries)
  }

  function Clock(es: seq<Input>, t: int): int
    decreases |es|
  {
    if es == [] then t else Clock(es[1..], if es[0].Tick? then t + 1 else t)
  }

  /** Nobody answers the head of `d`'s queue, and `d` stays wanted. */
  ghost predicate Unanswered(es: seq<Input>, d: Mac, response: MsgName) {
    forall e :: e in es ==>
      !(e.Response? && e.dest == d && e.name == response) && !(e.LoseInterest? && e.dest == d)
  }

  /** `h` is the head of the queue of a destination that is still wanted. */
  ghost predicate Waiting(s: State, d: Mac, h: Pending) {
    d in s.pending && s.pending[d] != [] && s.pending[d][0] == h && d !in s.notInterested
  }

  lemma {:induction false} ScanOtherQueues(s: State, order: seq<Mac>, now: int, timeout: nat, tries: nat, d: Mac, h: Pending)
    requires WellKeyed(s) && Waiting(s, d, h) && (d !in order || !Late(h, now, timeout))
    ensures var s' := CheckForRetransmits(s, order, now, timeout, tries);
            s'.phase == Terminating || (Waiting(s', d, h) && s'.phase == s.phase)
    decreases |order|
  {
    if order != [] {
      var q := Queue(s, order[0]);
      if q == [] || !Late(q[0], now, timeout) {
        ScanOtherQueues(s, order[1..], now, timeout, tries, d, h);
      } else if q[0].sendTries < tries {
        assert order[0] != d;
        ScanOtherQueues(SendExpecting(s, q[0], now), order[1..], now, timeout, tries, d, h);
      }
    }
  }

  /** One tick: a late head is sent again or ends the session. */
  lemma {:induction false} ScanThisQueue(s: State, order: seq<Mac>, now: int, timeout: nat, tries: nat, d: Mac, h: Pending)
    requires WellKeyed(s) && Waiting(s, d, h) && d in order && Late(h, now, timeout)
    ensures var s' := CheckForRetransmits(s, order, now, timeout, tries);
            || s'.phase == Terminating
            || (h.sendTries < tries && s'.phase == s.phase
                && Waiting(s', d, h.(sendTime := now, sendTries := h.sendTries + 1)))
    decreases |order|
  {
    var q := Queue(s, order[0]);
    if order[0] == d {
      if h.sendTries < tries {
        var s1 := SendExpecting(s, h, now);
        ScanOtherQueues(s1, order[1..], now, timeout, tries, d, h.(sendTime := now, sendTries := h.sendTries + 1));
      }
    } else if q == [] || !Late(q[0], now, timeout) {
      ScanThisQueue(s, order[1..], now, timeout, tries, d, h);
    } else if q[0].sendTries < tries {
      ScanThisQueue(SendExpecting(s, q[0], now), order[1..], now, timeout, tries, d, h);
    }
  }

  /** Anything but a tick leaves an unanswered head in place, or terminates the peer. */
  lemma QuietStepKeepsWaiting(s: State, e: Input, d: Mac, h: Pending)
    requires Inv(s) && Waiting(s, d, h) && !e.Tick? && Unanswered([e], d, h.response)
    ensures var s' := Step(s, e); s'.phase == Terminating || Waiting(s', d, h)
  {
    hide Enq, Mat, Disciplined, SentCount;
    match e
    case Request(d', req, resp, now) =>
      if d' == d {
        var rp := Pending(s.nextSerial, d, req, resp, false, 0, 0);
        if Enqueue(s, rp).pending[d][0].serial == rp.serial {
          FreshHeadIsNew(s, rp);
        }
      }
    case Response(d', name, now) =>
      assert e in [e];
    case LoseInterest(d') =>
      assert e in [e];
    case _ =>
  }

  /**
   With one tick a second and a constant configuration, a request first sent at `t0` that stays
   unanswered and wanted forces the peer into the terminating state no later than
   max(1, send-tries) * (ack-timeout + 1) seconds after its first transmission.
   */
  lemma {:induction false} UnansweredRequestTerminates(
      s: State, es: seq<Input>, d: Mac, h: Pending, t0: int, t: int, timeout: nat, tries: nat)
    requires Inv(s) && Waiting(s, d, h) && 1 <= h.sendTries <= Limit(tries)
    requires h.sendTime == t0 + (h.sendTries - 1) * (timeout + 1) && h.sendTime <= t <= h.sendTime + timeout
    requires Unanswered(es, d, h.response) && OneSecondTicks(es, t, d, timeout, tries)
    ensures EntersTerminating(s, es) || Clock(es, t) < t0 + Limit(tries) * (timeout + 1)
    decreases |es|
  {
    hide DestInv, Disciplined, Step;
    if es == [] {
      Product(h.sendTries, Limit(tries), timeout + 1);
    } else if s.phase != Terminating {
      var e, rest := es[0], es[1..];
      var s' := Step(s, e);
      StepKeepsInv(s, e);
      assert e in es && forall x :: x in rest ==> x in es;
      if !e.Tick? {
        QuietStepKeepsWaiting(s, e, d, h);
        if s'.phase != Terminating {
          UnansweredRequestTerminates(s', rest, d, h, t0, t, timeout, tries);
        }
      } else {
        TickStep(s, e);
        if Late(h, e.now, timeout) {
          ScanThisQueue(s, e.order, e.now, timeout, tries, d, h);
          var h' := h.(sendTime := e.now, sendTries := h.sendTries + 1);
          if s'.phase != Terminating {
            assert h.sendTries * (timeout + 1) == (h.sendTries - 1) * (timeout + 1) + timeout + 1;
            UnansweredRequestTerminates(s', rest, d, h', t0, t + 1, timeout, tries);
          }
        } else {
          ScanOtherQueues(s, e.order, e.now, timeout, tries, d, h);
          if s'.phase != Terminating {
            UnansweredRequestTerminates(s', rest, d, h, t0, t + 1, timeout, tries);
          }
        }
      }
      TerminatingNow(s', rest);
    }
  }

  /** The deadline, counted from the moment of the first transmission. */
  lemma DeadlineAfterFirstSend(s: State, es: seq<Input>, d: Mac, h: Pending, timeout: nat, tries: nat)
    requires Inv(s) && Waiting(s, d, h) && h.sendTries == 1
    requires Unanswered(es, d, h.response) && OneSecondTicks(es, h.sendTime, d, timeout, tries)
    requires Clock(es, h.sendTime) >= h.sendTime + Limit(tries) * (timeout + 1)
    ensures EntersTerminating(s, es)
  {
    UnansweredRequestTerminates(s, es, d, h, h.sendTime, h.sendTime, timeout, tries);
  }

  lemma TickStep(s: State, e: Input)
    requires WellKeyed(s) && e.Tick?
    ensures Step(s, e) == CheckForRetransmits(s, e.order, e.now, e.timeout, e.tries)
  {
  }

  lemma TerminatingNow(s: State, es: seq<Input>)
    requires WellKeyed(s)
    ensures s.phase == Terminating ==> EntersTerminating(s, es)
  {
  }

  lemma Product(k: nat, n: nat, m: nat)
    requires 1 <= k <= n && m >= 1
    ensures (k - 1) * m + (m - 1) < n * m
  {
    assert (k - 1) * m + m == k * m;
    assert k * m <= n * m by {
      assert n * m == k * m + (n - k) * m;
    }
  }
}
