/**
 A modem and a router over reliable FIFO channels.  The modem's local destinations change by
 client calls; the router keeps the destinations it was told about.  The modem end is the
 transaction machine of one peer, unchanged.
 */
module TwoNode {
  import opened Octets
  import opened PeerTransactions
  import opened PeerHistory

  /** A destination message on the wire; `ok` is the status of a response. */
  datatype Packet = Packet(name: MsgName, dest: Mac, ok: bool)

  datatype System = System(
    modem: State,
    local: set<Mac>,         // the modem's own destinations
    routerPhase: Phase,
    remote: set<Mac>,        // the router's destinations from this modem
    toRouter: seq<Packet>,
    toModem: seq<Packet>)

  datatype Action =
    | ClientUp(mac: Mac, now: int)
    | ClientDown(mac: Mac, now: int)
    | RouterReceives
    | ModemReceives(now: int)
    | Timer(order: seq<Mac>, now: int, timeout: nat, tries: nat)

  /** What the modem's machine put on the wire, read off its log. */
  function Emitted(log: seq<Entry>): seq<Packet> {
    if log == [] then []
    else if log[0].Sent? then [Packet(log[0].request, log[0].dest, true)] + Emitted(log[1..])
    else Emitted(log[1..])
  }

  /** Replace the modem's machine state and append what it transmitted to the channel. */
  function Advance(sys: System, modem: State): System
    requires sys.modem.log <= modem.log
  {
    sys.(modem := modem, toRouter := sys.toRouter + Emitted(modem.log[|sys.modem.log|..]))
  }

  /** `PeerData::addDestination` with `tell_peers`, then `Peer::destination_up`. */
  function DoClientUp(sys: System, m: Mac, now: int): System
    requires WellKeyed(sys.modem)
  {
    if m in sys.local then sys
    else Advance(sys.(local := sys.local + {m}), SendRequest(sys.modem, m, DestUp, DestUpResponse, now))
  }

  /** `PeerData::removeDestination` with `tell_peers`, then `Peer::destination_down`. */
  function DoClientDown(sys: System, m: Mac, now: int): System
    requires WellKeyed(sys.modem)
  {
    if m !in sys.local then sys
    else Advance(sys.(local := sys.local - {m}), SendRequest(sys.modem, m, DestDown, DestDownResponse, now))
  }

  /** `handle_destination_up` and `handle_destination_down` on the router, which has no destinations of its own. */
  function DoRouterReceives(sys: System): System {
    if sys.toRouter == [] then sys
    else
      var p := sys.toRouter[0];
      var s := sys.(toRouter := sys.toRouter[1..]);
      match p.name
      case DestUp =>
        s.(remote := sys.remote + {p.dest},
           toModem := sys.toModem + [Packet(DestUpResponse, p.dest, p.dest !in sys.remote)])
      case DestDown =>
        if p.dest in sys.remote then
          s.(remote := sys.remote - {p.dest}, toModem := sys.toModem + [Packet(DestDownResponse, p.dest, true)])
        else
          s.(routerPhase := Terminating, toModem := sys.toModem + [Packet(SessionTermination, SESSION, true)])
      case _ => s.(routerPhase := Terminating)
  }

  /** `check_status_code_failure`, then `handle_response` on the modem. */
  function DoModemReceives(sys: System, now: int): System
    requires WellKeyed(sys.modem)
  {
    if sys.toModem == [] then sys
    else
      var p := sys.toModem[0];
      var s := sys.(toModem := sys.toModem[1..]);
      if p.name == SessionTermination then s.(modem := sys.modem.(phase := Terminating))
      else if !p.ok then Advance(s, Terminate(sys.modem, now))
      else Advance(s, HandleResponse(sys.modem, p.dest, p.name, now))
  }

  function Act(sys: System, a: Action): (r: System)
    requires WellKeyed(sys.modem)
    ensures WellKeyed(r.modem)
  {
    match a
    case ClientUp(m, now) => DoClientUp(sys, m, now)
    case ClientDown(m, now) => DoClientDown(sys, m, now)
    case RouterReceives => DoRouterReceives(sys)
    case ModemReceives(now) => DoModemReceives(sys, now)
    case Timer(order, now, timeout, tries) =>
      Advance(sys, CheckForRetransmits(sys.modem, order, now, timeout, tries))
  }

  /** No response is late when the timer fires. */
  ghost predicate Timely(sys: System, a: Action) {
    a.Timer? ==> forall d :: d in sys.modem.pending && sys.modem.pending[d] != [] ==>
      !Late(sys.modem.pending[d][0], a.now, a.timeout)
  }

  function RunSystem(sys: System, acts: seq<Action>): (r: System)
    requires WellKeyed(sys.modem)
    ensures WellKeyed(r.modem)
    decreases |acts|
  {
    if acts == [] then sys else RunSystem(Act(sys, acts[0]), acts[1..])
  }

  ghost predicate TimelyRun(sys: System, acts: seq<Action>)
    requires WellKeyed(sys.modem)
    decreases |acts|
  {
    acts == [] || (Timely(sys, acts[0]) && TimelyRun(Act(sys, acts[0]), acts[1..]))
  }

  /** A session that has just come up; the modem's earlier destinations follow from `sendAllDestinations`. */
  const FRESH := System(State(InSession, map[], {}, 0, []), {}, InSession, {}, [], [])

  /** `sendAllDestinations`: announce each local destination in turn. */
  function Announced(dests: seq<Mac>, now: int): (r: System)
    ensures WellKeyed(r.modem)
    decreases |dests|
  {
    if dests == [] then FRESH
    else DoClientUp(Announced(dests[..|dests| - 1], now), dests[|dests| - 1], now)
  }

  // ----- the invariant, one destination at a time -----

  /** The packets on a channel that concern `m`. */
  function Of(ch: seq<Packet>, m: Mac): seq<Packet> {
    if ch == [] then []
    else if ch[0].dest == m then [ch[0]] + Of(ch[1..], m)
    else Of(ch[1..], m)
  }

  /** A request and its response are for the same operation, and operations alternate. */
  ghost predicate Alternating(q: seq<Pending>) {
    && (forall i :: 0 <= i < |q| ==>
          || (q[i].request == DestUp && q[i].response == DestUpResponse)
          || (q[i].request == DestDown && q[i].response == DestDownResponse))
    && (forall i :: 0 <= i < |q| - 1 ==> q[i].request != q[i + 1].request)
  }

  /** The head of the queue is on its way out, or its answer is on its way back. */
  ghost predicate InFlight(h: Pending, m: Mac, out: seq<Packet>, back: seq<Packet>, known: bool) {
    || (out == [Packet(h.request, m, true)] && back == [] && (known <==> h.request == DestDown))
    || (out == [] && back == [Packet(h.response, m, true)] && (known <==> h.request == DestUp))
  }

  ghost predicate Agrees(q: seq<Pending>, m: Mac, out: seq<Packet>, back: seq<Packet>, known: bool, wanted: bool) {
    && Alternating(q)
    && (q == [] ==> out == [] && back == [] && (known <==> wanted))
    && (q != [] ==> InFlight(q[0], m, out, back, known) && (q[|q| - 1].request == DestUp <==> wanted))
  }

  ghost predicate AgreesOn(sys: System, m: Mac) {
    Agrees(Queue(sys.modem, m), m, Of(sys.toRouter, m), Of(sys.toModem, m), m in sys.remote, m in sys.local)
  }

  ghost predicate Consistent(sys: System) {
    && Inv(sys.modem)
    && sys.modem.phase == InSession && sys.routerPhase == InSession && sys.modem.notInterested == {}
    && forall m :: AgreesOn(sys, m)
  }

  lemma {:induction false} OfSnoc(ch: seq<Packet>, p: Packet, m: Mac)
    ensures Of(ch + [p], m) == if p.dest == m then Of(ch, m) + [p] else Of(ch, m)
  {
    if ch == [] {
      assert (ch + [p])[1..] == [];
    } else {
      assert (ch + [p])[1..] == ch[1..] + [p];
      OfSnoc(ch[1..], p, m);
    }
  }

  // ----- the modem's machine: what a request or an answer puts on the wire -----

  lemma EmittedPair(a: Entry, b: Entry)
    requires !a.Sent? && b.Sent?
    ensures Emitted([a, b]) == [Packet(b.request, b.dest, true)]
  {
    assert [a, b][1..] == [b] && [b][1..] == [];
    assert Emitted([b]) == [Packet(b.request, b.dest, true)];
  }

  lemma RequestOnWire(s: State, m: Mac, req: MsgName, resp: MsgName, now: int)
    requires Inv(s) && s.notInterested == {}
    ensures var s' := SendRequest(s, m, req, resp, now);
            && Inv(s') && s'.phase == s.phase && s'.notInterested == {}
            && (forall d :: d != m ==> Queue(s', d) == Queue(s, d))
            && |Queue(s', m)| == |Queue(s, m)| + 1
            && (forall i :: 0 <= i < |Queue(s, m)| ==> Queue(s', m)[i] == Queue(s, m)[i])
            && Queue(s', m)[|Queue(s, m)|].request == req && Queue(s', m)[|Queue(s, m)|].response == resp
            && Emitted(s'.log[|s.log|..]) == if Queue(s, m) == [] then [Packet(req, m, true)] else []
  {
    hide DestInv, Disciplined, Emitted;
    var rp := Pending(s.nextSerial, m, req, resp, false, 0, 0);
    var s1 := Enqueue(s.(nextSerial := s.nextSerial + 1), rp);
    var s' := SendRequest(s, m, req, resp, now);
    RequestKeepsInv(s, m, req, resp, now);
    if Queue(s, m) == [] {
      assert s'.log[|s.log|..] == [Enqueued(rp.serial, m), Sent(rp.serial, m, req, now)];
      EmittedPair(Enqueued(rp.serial, m), Sent(rp.serial, m, req, now));
    } else {
      OldHeadIsOlder(s, m);
      assert s'.log[|s.log|..] == [Enqueued(rp.serial, m)];
      EmittedOne(Enqueued(rp.serial, m));
    }
  }

  lemma EmittedOne(a: Entry)
    requires !a.Sent?
    ensures Emitted([a]) == []
  {
    assert [a][1..] == [];
  }

  lemma OldHeadIsOlder(s: State, m: Mac)
    requires Inv(s) && Queue(s, m) != []
    ensures Queue(s, m)[0].serial < s.nextSerial
  {
    hide Enq, Mat, Disciplined, SentCount;
    assert DestInv(Queue(s, m), s.log, m, s.nextSerial);
    HeadIsNext(Queue(s, m), s.log, m, s.nextSerial);
  }

  lemma AnswerOnWire(s: State, m: Mac, name: MsgName, now: int)
    requires Inv(s) && s.notInterested == {} && Expected(s, m, name)
    ensures var s' := HandleResponse(s, m, name, now);
            && Inv(s') && s'.phase == s.phase && s'.notInterested == {}
            && (forall d :: d != m ==> Queue(s', d) == Queue(s, d))
            && |Queue(s', m)| == |Queue(s, m)| - 1
            && (forall i :: 0 <= i < |Queue(s', m)| ==>
                  Queue(s', m)[i].request == Queue(s, m)[i + 1].request && Queue(s', m)[i].response == Queue(s, m)[i + 1].response)
            && Emitted(s'.log[|s.log|..]) == if |Queue(s, m)| == 1 then [] else [Packet(Queue(s, m)[1].request, m, true)]
  {
    hide DestInv, Disciplined, Emitted;
    var s1 := PopHead(s, m);
    var s' := HandleResponse(s, m, name, now);
    var h := Queue(s, m)[0];
    ResponseKeepsInv(s, m, name, now);
    if |Queue(s, m)| == 1 {
      assert s'.log[|s.log|..] == [Matched(h.serial, m)];
      EmittedOne(Matched(h.serial, m));
    } else {
      var n := Queue(s, m)[1];
      assert s'.log[|s.log|..] == [Matched(h.serial, m), Sent(n.serial, m, n.request, now)];
      EmittedPair(Matched(h.serial, m), Sent(n.serial, m, n.request, now));
    }
  }

  // ----- every action keeps the invariant -----

  lemma HeadKind(q: seq<Pending>)
    requires Alternating(q) && q != []
    ensures || (q[0].request == DestUp && q[0].response == DestUpResponse)
            || (q[0].request == DestDown && q[0].response == DestDownResponse)
  {
  }

  /** A new request for `m` reverses what the client wants; it goes out at once if it is alone. */
  lemma AgreesRequested(q: seq<Pending>, q': seq<Pending>, m: Mac, out: seq<Packet>, back: seq<Packet>, known: bool, up: bool)
    requires Agrees(q, m, out, back, known, !up)
    requires |q'| == |q| + 1 && forall i :: 0 <= i < |q| ==> q'[i] == q[i]
    requires q'[|q|].request == (if up then DestUp else DestDown)
    requires q'[|q|].response == (if up then DestUpResponse else DestDownResponse)
    ensures Agrees(q', m, if q == [] then out + [Packet(q'[0].request, m, true)] else out, back, known, up)
  {
  }

  /** The router answers the head of the queue. */
  lemma AgreesReceived(q: seq<Pending>, m: Mac, p: Packet, out: seq<Packet>, back: seq<Packet>, known: bool, wanted: bool)
    requires Agrees(q, m, [p] + out, back, known, wanted)
    ensures q != [] && p == Packet(q[0].request, m, true) && (known <==> q[0].request == DestDown)
    ensures Agrees(q, m, out, back + [Packet(q[0].response, m, true)], q[0].request == DestUp, wanted)
  {
    assert ([p] + out)[0] == p;
    assert |[p] + out| == 1 + |out|;
    HeadKind(q);
  }

  /** The modem takes the answer off, and its next request, if any, goes out. */
  lemma AgreesAnswered(q: seq<Pending>, q': seq<Pending>, m: Mac, p: Packet, out: seq<Packet>, back: seq<Packet>, known: bool, wanted: bool)
    requires Agrees(q, m, out, [p] + back, known, wanted)
    requires |q| > 0 ==> |q'| == |q| - 1
    requires |q| > 0 ==> forall i :: 0 <= i < |q'| ==> q'[i].request == q[i + 1].request && q'[i].response == q[i + 1].response
    ensures q != [] && p == Packet(q[0].response, m, true)
    ensures Agrees(q', m, if |q| == 1 then out else out + [Packet(q[1].request, m, true)], back, known, wanted)
  {
    assert ([p] + back)[0] == p;
    assert |[p] + back| == 1 + |back|;
    HeadKind(q);
    if |q| > 1 {
      assert q'[|q'| - 1].request == q[|q| - 1].request;
      assert q[0].request != q[1].request;
      HeadKind(q');
    }
  }

  /** A client call on `m`: one request for `m` is queued, and sent if it is alone. */
  lemma ClientCallKeeps(sys: System, m: Mac, up: bool, now: int)
    requires Consistent(sys) && (m in sys.local <==> !up)
    ensures Consistent(if up then DoClientUp(sys, m, now) else DoClientDown(sys, m, now))
  {
    hide DestInv, Disciplined, Emitted, Of, SendRequest, Agrees;
    var req, resp := if up then DestUp else DestDown, if up then DestUpResponse else DestDownResponse;
    var sys' := if up then DoClientUp(sys, m, now) else DoClientDown(sys, m, now);
    RequestOnWire(sys.modem, m, req, resp, now);
    assert sys.toRouter + [] == sys.toRouter;
    forall x ensures AgreesOn(sys', x) {
      assert AgreesOn(sys, x);
      OfSnoc(sys.toRouter, Packet(req, m, true), x);
      if x == m {
        AgreesRequested(Queue(sys.modem, m), Queue(sys'.modem, m), m, Of(sys.toRouter, m), Of(sys.toModem, m), m in sys.remote, up);
      }
    }
  }

  lemma RouterReceivesKeeps(sys: System)
    requires Consistent(sys)
    ensures Consistent(DoRouterReceives(sys))
  {
    hide DestInv, Disciplined, Agrees;
    if sys.toRouter != [] {
      var p, m := sys.toRouter[0], sys.toRouter[0].dest;
      var q := Queue(sys.modem, m);
      var sys' := DoRouterReceives(sys);
      assert AgreesOn(sys, m);
      AgreesReceived(q, m, p, Of(sys.toRouter[1..], m), Of(sys.toModem, m), m in sys.remote, m in sys.local);
      QueueKind(sys, m);
      forall x ensures AgreesOn(sys', x) {
        assert AgreesOn(sys, x);
        OfSnoc(sys.toModem, Packet(q[0].response, m, true), x);
      }
    }
  }

  lemma QueueKind(sys: System, m: Mac)
    requires AgreesOn(sys, m) && Queue(sys.modem, m) != []
    ensures var h := Queue(sys.modem, m)[0];
            || (h.request == DestUp && h.response == DestUpResponse)
            || (h.request == DestDown && h.response == DestDownResponse)
  {
    HeadKind(Queue(sys.modem, m));
  }

  /** What arrives at the modem is the answer to the head of its queue. */
  lemma AnswerIsExpected(sys: System)
    requires Consistent(sys) && sys.toModem != []
    ensures var p := sys.toModem[0];
            && p.ok && Expected(sys.modem, p.dest, p.name)
            && (p.name == DestUpResponse || p.name == DestDownResponse)
  {
    hide DestInv, Disciplined, Alternating;
    var p := sys.toModem[0];
    assert AgreesOn(sys, p.dest);
    assert ([p] + Of(sys.toModem[1..], p.dest))[0] == p;
    QueueKind(sys, p.dest);
  }

  lemma ModemReceivesKeeps(sys: System, now: int)
    requires Consistent(sys)
    ensures Consistent(DoModemReceives(sys, now))
  {
    hide DestInv, Disciplined, Emitted, Agrees, HandleResponse, Expected;
    if sys.toModem != [] {
      var p, m := sys.toModem[0], sys.toModem[0].dest;
      var q := Queue(sys.modem, m);
      AnswerIsExpected(sys);
      AnswerOnWire(sys.modem, m, p.name, now);
      var sys' := DoModemReceives(sys, now);
      assert AgreesOn(sys, m);
      AgreesAnswered(q, Queue(sys'.modem, m), m, p, Of(sys.toRouter, m), Of(sys.toModem[1..], m), m in sys.remote, m in sys.local);
      assert sys.toRouter + [] == sys.toRouter;
      forall x ensures AgreesOn(sys', x) {
        assert AgreesOn(sys, x);
        if |q| > 1 {
          OfSnoc(sys.toRouter, Packet(q[1].request, m, true), x);
        }
      }
    }
  }

  lemma {:induction false} TimelyTimerIsQuiet(s: State, order: seq<Mac>, now: int, timeout: nat, tries: nat)
    requires WellKeyed(s)
    requires forall d :: d in s.pending && s.pending[d] != [] ==> !Late(s.pending[d][0], now, timeout)
    ensures CheckForRetransmits(s, order, now, timeout, tries) == s
    decreases |order|
  {
    if order != [] {
      TimelyTimerIsQuiet(s, order[1..], now, timeout, tries);
    }
  }

  lemma ActKeepsConsistent(sys: System, a: Action)
    requires Consistent(sys) && Timely(sys, a)
    ensures Consistent(Act(sys, a))
  {
    hide DestInv, Disciplined, AgreesOn, Emitted, SendRequest, HandleResponse;
    match a
    case ClientUp(m, now) => if m !in sys.local { ClientCallKeeps(sys, m, true, now); }
    case ClientDown(m, now) => if m in sys.local { ClientCallKeeps(sys, m, false, now); }
    case RouterReceives => RouterReceivesKeeps(sys);
    case ModemReceives(now) => ModemReceivesKeeps(sys, now);
    case Timer(order, now, timeout, tries) =>
      TimelyTimerIsQuiet(sys.modem, order, now, timeout, tries);
      NothingEmitted(sys);
  }

  lemma NothingEmitted(sys: System)
    ensures Advance(sys, sys.modem) == sys
  {
    assert sys.modem.log[|sys.modem.log|..] == [];
    assert sys.toRouter + [] == sys.toRouter;
  }

  lemma {:induction false} RunKeepsConsistent(sys: System, acts: seq<Action>)
    requires Consistent(sys) && TimelyRun(sys, acts)
    ensures Consistent(RunSystem(sys, acts))
    decreases |acts|
  {
    hide DestInv, Disciplined, AgreesOn, Act, Timely;
    if acts != [] {
      ActKeepsConsistent(sys, acts[0]);
      RunKeepsConsistent(Act(sys, acts[0]), acts[1..]);
    }
  }

  lemma {:induction false} AnnouncedIsConsistent(dests: seq<Mac>, now: int)
    ensures Consistent(Announced(dests, now))
    decreases |dests|
  {
    if dests == [] {
      InitialInv();
      FreshInv();
    } else {
      hide DestInv, Disciplined, AgreesOn, DoClientUp;
      AnnouncedIsConsistent(dests[..|dests| - 1], now);
      var sys := Announced(dests[..|dests| - 1], now);
      ActKeepsConsistent(sys, ClientUp(dests[|dests| - 1], now));
    }
  }

  lemma FreshInv()
    ensures Consistent(FRESH)
  {
    InitialInv();
    hide Enq, Mat, SentCount, Disciplined;
    assert forall d :: Queue(FRESH.modem, d) == Queue(INITIAL, d);
    assert forall d :: DestInv(Queue(INITIAL, d), INITIAL.log, d, INITIAL.nextSerial);
  }

  /**
   Two-node agreement.  From any session start, in every run of client calls and deliveries in
   which no response is late: neither side terminates; every answer that reaches the modem is the
   one its queue expects; and whenever nothing is in transit, no request is pending and the router
   knows exactly the modem's local destinations.
   */
  lemma TwoNodeAgreement(dests: seq<Mac>, now: int, acts: seq<Action>)
    requires TimelyRun(Announced(dests, now), acts)
    ensures var sys := RunSystem(Announced(dests, now), acts);
            && sys.modem.phase == InSession && sys.routerPhase == InSession
            && (sys.toModem != [] ==> sys.toModem[0].ok && Expected(sys.modem, sys.toModem[0].dest, sys.toModem[0].name))
            && (sys.toRouter == [] && sys.toModem == [] ==> sys.modem.pending == map[] && sys.remote == sys.local)
  {
    hide DestInv, Disciplined, Alternating, Announced, RunSystem;
    AnnouncedIsConsistent(dests, now);
    RunKeepsConsistent(Announced(dests, now), acts);
    var sys := RunSystem(Announced(dests, now), acts);
    if sys.toModem != [] {
      AnswerIsExpected(sys);
    }
    if sys.toRouter == [] && sys.toModem == [] {
      Quiescent(sys);
    }
  }

  // ----- agreement is always within reach -----

  /** The requests that are queued at the modem, each with its destination. */
  ghost function Outstanding(s: State): set<(Mac, nat)> {
    set d, i | d in s.pending && 0 <= i < |s.pending[d]| :: (d, s.pending[d][i].serial)
  }

  /** Taking an answer leaves strictly fewer requests outstanding. */
  lemma AnswerShrinks(s: State, m: Mac, name: MsgName, now: int)
    requires Inv(s) && s.notInterested == {} && Expected(s, m, name)
    ensures Outstanding(HandleResponse(s, m, name, now)) < Outstanding(s)
  {
    hide Disciplined, Enq, Mat, SentCount;
    var s' := HandleResponse(s, m, name, now);
    var q := s.pending[m];
    assert forall d :: d != m ==> Queue(s', d) == Queue(s, d);
    assert |Queue(s', m)| == |q| - 1 && forall i :: 0 <= i < |q| - 1 ==> Queue(s', m)[i].serial == q[i + 1].serial;
    HeadIsUnique(s, m);
    hide HandleResponse, Inv;
    forall x | x in Outstanding(s') ensures x in Outstanding(s) {
      var d, i :| d in s'.pending && 0 <= i < |s'.pending[d]| && x == (d, s'.pending[d][i].serial);
      if d == m {
        assert x == (m, s.pending[m][i + 1].serial);
      } else {
        assert Queue(s, d) == Queue(s', d) != [];
        assert x == (d, s.pending[d][i].serial);
      }
    }
    assert (m, q[0].serial) in Outstanding(s);
    assert (m, q[0].serial) !in Outstanding(s');
  }

  lemma HeadIsUnique(s: State, m: Mac)
    requires Inv(s) && m in s.pending
    ensures forall i :: 0 < i < |s.pending[m]| ==> s.pending[m][i].serial != s.pending[m][0].serial
  {
    hide Disciplined, Enq, Mat, SentCount;
    assert DestInv(Queue(s, m), s.log, m, s.nextSerial);
    HeadIsUnlike(Queue(s, m), s.log, m, s.nextSerial);
  }

  /**
   From every consistent state, delivering what is in transit comes to an end: finitely many
   deliveries empty both channels, and then the router knows exactly the modem's destinations.
   */
  lemma {:induction false} DeliveriesReachAgreement(sys: System, now: int) returns (acts: seq<Action>)
    requires Consistent(sys)
    ensures forall a :: a in acts ==> a == RouterReceives || a == ModemReceives(now)
    ensures var end := RunSystem(sys, acts);
            end.toRouter == [] && end.toModem == [] && end.modem.pending == map[]
            && end.local == sys.local && end.remote == sys.local
    decreases Outstanding(sys.modem), |sys.toRouter|
  {
    hide DestInv, Disciplined, Emitted, HandleResponse, Outstanding, Agrees;
    if sys.toModem != [] {
      AnswerIsExpected(sys);
      ModemReceivesKeeps(sys, now);
      AnswerShrinks(sys.modem, sys.toModem[0].dest, sys.toModem[0].name, now);
      var rest := DeliveriesReachAgreement(Act(sys, ModemReceives(now)), now);
      acts := [ModemReceives(now)] + rest;
    } else if sys.toRouter != [] {
      RouterReceivesKeeps(sys);
      RouterLeavesModemAlone(sys);
      var rest := DeliveriesReachAgreement(Act(sys, RouterReceives), now);
      acts := [RouterReceives] + rest;
    } else {
      acts := [];
      Quiescent(sys);
    }
  }

  lemma RouterLeavesModemAlone(sys: System)
    requires sys.toRouter != []
    ensures var sys' := DoRouterReceives(sys);
            sys'.modem == sys.modem && sys'.local == sys.local && |sys'.toRouter| < |sys.toRouter|
  {
  }

  lemma Quiescent(sys: System)
    requires Consistent(sys) && sys.toRouter == [] && sys.toModem == []
    ensures sys.modem.pending == map[] && sys.remote == sys.local
  {
    hide DestInv, Disciplined, Alternating;
    forall m ensures m !in sys.modem.pending && (m in sys.remote <==> m in sys.local) {
      assert AgreesOn(sys, m);
    }
  }

  // ----- why no response may be late -----

  /** The modem takes this as the end of the session. */
  predicate Fatal(p: Packet) {
    p.name == SessionTermination || !p.ok
  }

  /**
   Something has gone wrong for `d` beyond repair: the end of the session is on its way to the
   modem, or a request that the router will refuse is on its way to the router.
   */
  ghost predicate Doomed(sys: System, d: Mac) {
    (exists p :: p in sys.toModem && Fatal(p)) || RefusedNext(Of(sys.toRouter, d), d in sys.remote)
  }

  /** The router refuses an Up for what it knows and a Down for what it does not; a repeated one comes to that. */
  ghost predicate RefusedNext(out: seq<Packet>, known: bool) {
    && out != [] && (out[0].name == DestUp || out[0].name == DestDown)
    && ((known <==> out[0].name == DestUp) || (|out| > 1 && out[1] == out[0]))
  }

  lemma {:induction false} OfAppend(a: seq<Packet>, b: seq<Packet>, m: Mac)
    ensures Of(a + b, m) == Of(a, m) + Of(b, m)
  {
    if a == [] {
      assert a + b == b;
    } else {
      assert (a + b)[1..] == a[1..] + b;
      OfAppend(a[1..], b, m);
    }
  }

  lemma RouterKeepsDoomed(sys: System, d: Mac)
    requires Doomed(sys, d) && sys.toRouter != []
    ensures Doomed(DoRouterReceives(sys), d)
  {
    var p, sys' := sys.toRouter[0], DoRouterReceives(sys);
    assert Of(sys.toRouter, d) == if p.dest == d then [p] + Of(sys.toRouter[1..], d) else Of(sys.toRouter[1..], d);
    if x :| x in sys.toModem && Fatal(x) {
      assert x in sys'.toModem;
    } else if p.dest == d && p.name == DestUp && d in sys.remote {
      assert Packet(DestUpResponse, d, false) in sys'.toModem;
    } else if p.dest == d && p.name == DestDown && d !in sys.remote {
      assert Packet(SessionTermination, SESSION, true) in sys'.toModem;
    }
  }

  /** The router takes everything off its channel: the end of the session is on its way to the modem. */
  lemma {:induction false} RouterRefuses(sys: System, d: Mac) returns (acts: seq<Action>)
    requires WellKeyed(sys.modem) && Doomed(sys, d)
    ensures forall a :: a in acts ==> a == RouterReceives
    ensures var end := RunSystem(sys, acts);
            exists p :: p in end.toModem && Fatal(p)
    decreases |sys.toRouter|
  {
    hide Doomed, DoRouterReceives;
    if sys.toRouter == [] {
      acts := [];
      NothingRefused(sys, d);
    } else {
      RouterKeepsDoomed(sys, d);
      RouterLeavesModemAlone(sys);
      var rest := RouterRefuses(Act(sys, RouterReceives), d);
      acts := [RouterReceives] + rest;
    }
  }

  lemma NothingRefused(sys: System, d: Mac)
    requires Doomed(sys, d) && sys.toRouter == []
    ensures exists p :: p in sys.toModem && Fatal(p)
  {
  }

  /** The modem takes messages off until it meets the failure. */
  lemma {:induction false} ModemGivesUp(sys: System, now: int) returns (acts: seq<Action>)
    requires WellKeyed(sys.modem) && exists p :: p in sys.toModem && Fatal(p)
    ensures forall a :: a in acts ==> a == ModemReceives(now)
    ensures RunSystem(sys, acts).modem.phase == Terminating
    decreases |sys.toModem|
  {
    hide HandleResponse, Emitted;
    var sys' := Act(sys, ModemReceives(now));
    if !Fatal(sys.toModem[0]) {
      var p :| p in sys.toModem && Fatal(p);
      assert p in sys.toModem[1..];
      var rest := ModemGivesUp(sys', now);
      acts := [ModemReceives(now)] + rest;
    } else {
      acts := [ModemReceives(now)];
      assert RunSystem(sys', acts[1..]) == sys';
    }
  }

  /** A tick that finds `d` late repeats its head on the wire, unless it ends the session. */
  lemma {:induction false} TickRepeatsHead(s: State, order: seq<Mac>, now: int, timeout: nat, tries: nat, d: Mac)
    requires WellKeyed(s) && s.notInterested == {} && d in s.pending && d in order && Late(s.pending[d][0], now, timeout)
    ensures var s' := CheckForRetransmits(s, order, now, timeout, tries);
            || s'.phase == Terminating
            || (var out := Of(Emitted(s'.log[|s.log|..]), d);
                out != [] && out[0] == Packet(s.pending[d][0].request, d, true))
    decreases |order|
  {
    hide Of;
    var e := order[0];
    var q := Queue(s, e);
    var s' := CheckForRetransmits(s, order, now, timeout, tries);
    if q == [] || !Late(q[0], now, timeout) {
      TickRepeatsHead(s, order[1..], now, timeout, tries, d);
    } else if q[0].sendTries < tries {
      var s1 := TransmitHead(s, e, now);
      var sent := Sent(q[0].serial, e, q[0].request, now);
      assert SendExpecting(s, q[0], now) == s1;
      assert s' == CheckForRetransmits(s1, order[1..], now, timeout, tries);
      var rest := s'.log[|s1.log|..];
      assert s'.log[|s.log|..] == [sent] + rest by { assert s1.log <= s'.log; }
      EmittedFirst(sent, rest);
      OfFirst(Packet(sent.request, e, true), Emitted(rest), d);
      if e != d {
        assert s1.pending[d] == s.pending[d];
        TickRepeatsHead(s1, order[1..], now, timeout, tries, d);
      }
    }
  }

  lemma EmittedFirst(a: Entry, rest: seq<Entry>)
    requires a.Sent?
    ensures Emitted([a] + rest) == [Packet(a.request, a.dest, true)] + Emitted(rest)
  {
    assert ([a] + rest)[1..] == rest;
  }

  lemma OfFirst(p: Packet, rest: seq<Packet>, m: Mac)
    ensures Of([p] + rest, m) == if p.dest == m then [p] + Of(rest, m) else Of(rest, m)
  {
    assert ([p] + rest)[1..] == rest;
  }

  lemma LateTickDooms(sys: System, order: seq<Mac>, now: int, timeout: nat, tries: nat, d: Mac)
    requires Consistent(sys) && d in sys.modem.pending && d in order && Late(sys.modem.pending[d][0], now, timeout)
    ensures var sys' := Act(sys, Timer(order, now, timeout, tries));
            sys'.modem.phase == Terminating || Doomed(sys', d)
  {
    hide DestInv, Disciplined, Emitted, Of, CheckForRetransmits, Alternating;
    var s' := CheckForRetransmits(sys.modem, order, now, timeout, tries);
    var sys' := Advance(sys, s');
    TickRepeatsHead(sys.modem, order, now, timeout, tries, d);
    if s'.phase != Terminating {
      assert AgreesOn(sys, d);
      QueueKind(sys, d);
      OfAppend(sys.toRouter, Emitted(s'.log[|sys.modem.log|..]), d);
      assert RefusedNext(Of(sys'.toRouter, d), d in sys'.remote);
    }
  }

  /**
   A request that is repeated although its answer is merely slow ends the session.  From every
   consistent state, a tick that finds any head late is followed by deliveries, and nothing else,
   after which the modem is terminating: the router refuses an Up for what it has, answers a Down
   for what it has not with the end of the session, and the modem takes either as fatal.
   */
  lemma LateRetransmitEndsSession(sys: System, order: seq<Mac>, now: int, timeout: nat, tries: nat, d: Mac)
    returns (acts: seq<Action>)
    requires Consistent(sys) && d in sys.modem.pending && d in order && Late(sys.modem.pending[d][0], now, timeout)
    ensures Deliveries(acts)
    ensures RunSystem(Act(sys, Timer(order, now, timeout, tries)), acts).modem.phase == Terminating
  {
    hide Act, Doomed;
    var sys' := Act(sys, Timer(order, now, timeout, tries));
    LateTickDooms(sys, order, now, timeout, tries, d);
    if sys'.modem.phase == Terminating {
      acts := [];
    } else {
      acts := RouterRefuses(sys', d);
      var more := ModemGivesUp(RunSystem(sys', acts), now);
      RunOfAppend(sys', acts, more);
      acts := acts + more;
    }
  }

  ghost predicate Deliveries(acts: seq<Action>) {
    forall a :: a in acts ==> a.RouterReceives? || a.ModemReceives?
  }

  lemma {:induction false} RunOfAppend(sys: System, a: seq<Action>, b: seq<Action>)
    requires WellKeyed(sys.modem)
    ensures RunSystem(sys, a + b) == RunSystem(RunSystem(sys, a), b)
    decreases |a|
  {
    hide Act;
    if a == [] {
      assert a + b == b;
    } else {
      assert (a + b)[1..] == a[1..] + b;
      RunOfAppend(Act(sys, a[0]), a[1..], b);
    }
  }

  lemma {:induction false} DeliveriesAreTimely(sys: System, acts: seq<Action>)
    requires WellKeyed(sys.modem) && Deliveries(acts)
    ensures TimelyRun(sys, acts)
    decreases |acts|
  {
    hide Act;
    if acts != [] {
      assert acts[0] in acts;
      DeliveriesAreTimely(Act(sys, acts[0]), acts[1..]);
    }
  }

  /**
   The session survives a tick that looks at every queue, whatever is delivered afterwards, if and
   only if no response was late.
   */
  lemma TickIsHarmlessIffTimely(sys: System, order: seq<Mac>, now: int, timeout: nat, tries: nat)
    requires Consistent(sys) && forall d :: d in sys.modem.pending ==> d in order
    ensures Timely(sys, Timer(order, now, timeout, tries))
            <==> forall acts :: Deliveries(acts) ==> InSessionAfter(Act(sys, Timer(order, now, timeout, tries)), acts)
  {
    hide DestInv, Disciplined, AgreesOn, Act, RunSystem, Deliveries;
    var a := Timer(order, now, timeout, tries);
    if Timely(sys, a) {
      ActKeepsConsistent(sys, a);
      forall acts | Deliveries(acts) ensures InSessionAfter(Act(sys, a), acts) {
        DeliveriesAreTimely(Act(sys, a), acts);
        RunKeepsConsistent(Act(sys, a), acts);
      }
    } else {
      var d :| d in sys.modem.pending && sys.modem.pending[d] != [] && Late(sys.modem.pending[d][0], now, timeout);
      var acts := LateRetransmitEndsSession(sys, order, now, timeout, tries, d);
      assert !InSessionAfter(Act(sys, a), acts);
    }
  }

  ghost predicate InSessionAfter(sys: System, acts: seq<Action>)
    requires WellKeyed(sys.modem)
  {
    var end := RunSystem(sys, acts);
    end.modem.phase == InSession && end.routerPhase == InSession
  }

  // ----- the router does not end the session on its own -----

  predicate UpOrDown(name: MsgName) {
    name == DestUp || name == DestDown
  }

  /** The modem is terminating, or only Ups and Downs are queued and sent, and a router that is terminating has told the modem. */
  ghost predicate Told(sys: System) {
    || sys.modem.phase == Terminating
    || (&& (forall d, i :: d in sys.modem.pending && 0 <= i < |sys.modem.pending[d]| ==> UpOrDown(sys.modem.pending[d][i].request))
        && (forall p :: p in sys.toRouter ==> UpOrDown(p.name))
        && (sys.routerPhase == Terminating ==> exists p :: p in sys.toModem && Fatal(p)))
  }

  ghost predicate OnlyUpsAndDowns(s: State) {
    forall d, i :: d in s.pending && 0 <= i < |s.pending[d]| ==> UpOrDown(s.pending[d][i].request)
  }

  /** What a step of the modem's machine adds to its queues and puts on the wire, unless it terminates. */
  ghost predicate Orderly(s: State, s': State) {
    && s.log <= s'.log
    && (s'.phase != Terminating ==> OnlyUpsAndDowns(s') && forall p :: p in Emitted(s'.log[|s.log|..]) ==> UpOrDown(p.name))
  }

  lemma {:induction false} EmittedAppend(a: seq<Entry>, b: seq<Entry>)
    ensures Emitted(a + b) == Emitted(a) + Emitted(b)
  {
    if a == [] {
      assert a + b == b;
    } else {
      assert (a + b)[1..] == a[1..] + b;
      EmittedAppend(a[1..], b);
    }
  }

  lemma TransmitOrderly(s: State, d: Mac, now: int)
    requires WellKeyed(s) && OnlyUpsAndDowns(s) && d in s.pending
    ensures Orderly(s, TransmitHead(s, d, now))
  {
    var s' := TransmitHead(s, d, now);
    var e := Sent(s.pending[d][0].serial, d, s.pending[d][0].request, now);
    assert s'.log[|s.log|..] == [e] && [e] + [] == [e];
    EmittedFirst(e, []);
  }

  lemma OrderlyThen(s: State, s1: State, s2: State)
    requires Orderly(s, s1) && Orderly(s1, s2) && (s1.phase == Terminating ==> s2.phase == Terminating)
    ensures Orderly(s, s2)
  {
    hide Emitted;
    var a, b := s1.log[|s.log|..], s2.log[|s1.log|..];
    assert s2.log[|s.log|..] == a + b;
    EmittedAppend(a, b);
  }

  lemma QuietOrderly(s: State, s': State)
    requires s.log <= s'.log && OnlyUpsAndDowns(s') && forall e :: e in s'.log[|s.log|..] ==> !e.Sent?
    ensures Orderly(s, s')
  {
    NothingSent(s'.log[|s.log|..]);
    hide Emitted;
  }

  lemma {:induction false} NothingSent(log: seq<Entry>)
    requires forall e :: e in log ==> !e.Sent?
    ensures Emitted(log) == []
  {
    if log != [] {
      assert log[0] in log;
      NothingSent(log[1..]);
    }
  }

  lemma RequestOrderly(s: State, m: Mac, req: MsgName, resp: MsgName, now: int)
    requires WellKeyed(s) && OnlyUpsAndDowns(s) && UpOrDown(req)
    ensures Orderly(s, SendRequest(s, m, req, resp, now))
  {
    hide Emitted, Orderly;
    var rp := Pending(s.nextSerial, m, req, resp, false, 0, 0);
    var s0 := s.(nextSerial := s.nextSerial + 1);
    if m in s.notInterested {
      QuietOrderly(s, s0);
    } else {
      var s1 := Enqueue(s0, rp);
      assert s1.log[|s.log|..] == [Enqueued(rp.serial, m)];
      QuietOrderly(s, s1);
      if s1.pending[m][0].serial == rp.serial {
        TransmitOrderly(s1, m, now);
        OrderlyThen(s, s1, TransmitHead(s1, m, now));
      }
    }
  }

  lemma ResponseOrderly(s: State, d: Mac, name: MsgName, now: int)
    requires WellKeyed(s) && OnlyUpsAndDowns(s)
    ensures Orderly(s, HandleResponse(s, d, name, now))
  {
    hide Emitted;
    if Expected(s, d, name) {
      var s1 := PopHead(s, d);
      assert s1.log[|s.log|..] == [Matched(s.pending[d][0].serial, d)];
      QuietOrderly(s, s1);
      if d in s1.pending && d !in s1.notInterested {
        TransmitOrderly(s1, d, now);
        OrderlyThen(s, s1, TransmitHead(s1, d, now));
      }
    }
  }

  lemma {:induction false} TickOrderly(s: State, order: seq<Mac>, now: int, timeout: nat, tries: nat)
    requires WellKeyed(s) && OnlyUpsAndDowns(s)
    ensures Orderly(s, CheckForRetransmits(s, order, now, timeout, tries))
    ensures s.phase == Terminating ==> CheckForRetransmits(s, order, now, timeout, tries).phase == Terminating
    decreases |order|
  {
    hide Emitted, Orderly;
    if order == [] {
      QuietOrderly(s, s);
    } else {
      var q := Queue(s, order[0]);
      if q == [] || !Late(q[0], now, timeout) {
        TickOrderly(s, order[1..], now, timeout, tries);
      } else if q[0].sendTries < tries {
        var s1 := SendExpecting(s, q[0], now);
        if order[0] in s.notInterested {
          QuietOrderly(s, s);
        } else {
          TransmitOrderly(s, order[0], now);
        }
        assert OnlyUpsAndDowns(s1);
        TickOrderly(s1, order[1..], now, timeout, tries);
        OrderlyThen(s, s1, CheckForRetransmits(s1, order[1..], now, timeout, tries));
      } else {
        TerminateOrderly(s, now);
      }
    }
  }

  lemma TerminateOrderly(s: State, now: int)
    requires WellKeyed(s)
    ensures Orderly(s, Terminate(s, now)) && Terminate(s, now).phase == Terminating
  {
  }

  /** The modem's machine takes an orderly step. */
  lemma AdvanceTold(sys: System, s': State)
    requires Told(sys) && sys.modem.phase != Terminating && Orderly(sys.modem, s')
    requires sys.routerPhase == Terminating ==> exists p :: p in sys.toModem && Fatal(p)
    ensures Told(Advance(sys, s'))
  {
    hide Emitted, Fatal;
  }

  lemma RouterTold(sys: System)
    requires Told(sys)
    ensures Told(DoRouterReceives(sys))
  {
    if sys.toRouter != [] {
      var sys' := DoRouterReceives(sys);
      var p := sys.toRouter[0];
      if x :| x in sys.toModem && Fatal(x) {
        assert x in sys'.toModem;
      }
      if p.name == DestDown && p.dest !in sys.remote {
        assert Packet(SessionTermination, SESSION, true) in sys'.toModem;
      }
    }
  }

  lemma ModemTold(sys: System, now: int)
    requires WellKeyed(sys.modem) && Told(sys)
    ensures Told(DoModemReceives(sys, now))
  {
    hide Emitted, HandleResponse, Orderly;
    if sys.toModem != [] && sys.modem.phase != Terminating {
      var p := sys.toModem[0];
      if !Fatal(p) {
        var s := sys.(toModem := sys.toModem[1..]);
        ResponseOrderly(sys.modem, p.dest, p.name, now);
        if x :| x in sys.toModem && Fatal(x) {
          assert x in s.toModem;
        }
        AdvanceTold(s, HandleResponse(sys.modem, p.dest, p.name, now));
      }
    } else if sys.modem.phase == Terminating {
      StaysTerminating(sys.modem, now);
    }
  }

  lemma StaysTerminating(s: State, now: int)
    requires WellKeyed(s) && s.phase == Terminating
    ensures forall d, name :: HandleResponse(s, d, name, now).phase == Terminating
    ensures forall d, req, resp :: SendRequest(s, d, req, resp, now).phase == Terminating
  {
  }

  lemma {:induction false} TickStaysTerminating(s: State, order: seq<Mac>, now: int, timeout: nat, tries: nat)
    requires WellKeyed(s) && s.phase == Terminating
    ensures CheckForRetransmits(s, order, now, timeout, tries).phase == Terminating
    decreases |order|
  {
    if order != [] {
      var q := Queue(s, order[0]);
      if q == [] || !Late(q[0], now, timeout) {
        TickStaysTerminating(s, order[1..], now, timeout, tries);
      } else if q[0].sendTries < tries {
        TickStaysTerminating(SendExpecting(s, q[0], now), order[1..], now, timeout, tries);
      }
    }
  }

  lemma CallTold(sys: System, m: Mac, up: bool, now: int)
    requires WellKeyed(sys.modem) && Told(sys)
    ensures Told(if up then DoClientUp(sys, m, now) else DoClientDown(sys, m, now))
  {
    hide Emitted, SendRequest, Orderly;
    var req, resp := if up then DestUp else DestDown, if up then DestUpResponse else DestDownResponse;
    if (m in sys.local) != up {
      var sys0 := sys.(local := if up then sys.local + {m} else sys.local - {m});
      if sys.modem.phase == Terminating {
        StaysTerminating(sys.modem, now);
      } else {
        RequestOrderly(sys.modem, m, req, resp, now);
        AdvanceTold(sys0, SendRequest(sys.modem, m, req, resp, now));
      }
    }
  }

  lemma ActTold(sys: System, a: Action)
    requires WellKeyed(sys.modem) && Told(sys)
    ensures Told(Act(sys, a))
  {
    hide Emitted, SendRequest, HandleResponse, CheckForRetransmits, Orderly;
    match a
    case ClientUp(m, now) => CallTold(sys, m, true, now);
    case ClientDown(m, now) => CallTold(sys, m, false, now);
    case RouterReceives => RouterTold(sys);
    case ModemReceives(now) => ModemTold(sys, now);
    case Timer(order, now, timeout, tries) =>
      if sys.modem.phase == Terminating {
        TickStaysTerminating(sys.modem, order, now, timeout, tries);
      } else {
        TickOrderly(sys.modem, order, now, timeout, tries);
        AdvanceTold(sys, CheckForRetransmits(sys.modem, order, now, timeout, tries));
      }
  }

  lemma {:induction false} RunTold(sys: System, acts: seq<Action>)
    requires WellKeyed(sys.modem) && Told(sys)
    ensures Told(RunSystem(sys, acts))
    decreases |acts|
  {
    hide Act, Told;
    if acts != [] {
      ActTold(sys, acts[0]);
      RunTold(Act(sys, acts[0]), acts[1..]);
    }
  }

  /**
   In every run from a consistent state, whatever the clients do, whatever is delivered and however
   late: a router that is terminating has told the modem, which is terminating too or has the
   message on its way.
   */
  lemma RouterNeverEndsAlone(sys: System, acts: seq<Action>)
    requires Consistent(sys)
    ensures var end := RunSystem(sys, acts);
            end.routerPhase == Terminating
            ==> end.modem.phase == Terminating || exists p :: p in end.toModem && (p.name == SessionTermination || !p.ok)
  {
    hide DestInv, Disciplined, RunSystem;
    forall d, i | d in sys.modem.pending && 0 <= i < |sys.modem.pending[d]| ensures UpOrDown(sys.modem.pending[d][i].request) {
      assert AgreesOn(sys, d);
    }
    forall p | p in sys.toRouter ensures UpOrDown(p.name) {
      assert AgreesOn(sys, p.dest);
      OfContains(sys.toRouter, p);
    }
    RunTold(sys, acts);
  }

  lemma {:induction false} OfContains(ch: seq<Packet>, p: Packet)
    requires p in ch
    ensures p in Of(ch, p.dest)
  {
    if ch[0] != p {
      OfContains(ch[1..], p);
    }
  }
}
