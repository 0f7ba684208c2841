/**
 The transaction machine of one peer (Peer.cpp): one queue of pending requests per destination,
 of which only the head may be in flight (section 8 of RFC 8175), retransmission, response
 matching and termination.

 The functions say what each operation does to the peer's state; the class performs it.
 */
module PeerTransactions {
  import opened Octets

  /** The empty MAC address stands for the session itself. */
  const SESSION: Mac := []

  datatype Phase = Connected | InSession | Terminating

  datatype MsgName =
    | SessionInit | SessionInitResponse
    | SessionUpdate | SessionUpdateResponse
    | SessionTermination | SessionTerminationResponse
    | DestUp | DestUpResponse
    | DestAnnounce | DestAnnounceResponse
    | DestDown | DestDownResponse
    | LinkCharRequest | LinkCharResponse

  /** A `ResponsePending`; `serial` plays the part of its address. */
  datatype Pending = Pending(
    serial: nat, dest: Mac, request: MsgName, response: MsgName,
    queued: bool, sendTime: int, sendTries: nat)

  /** What happened to the queues, in order. */
  datatype Entry =
    | Enqueued(serial: nat, dest: Mac)
    | Sent(serial: nat, dest: Mac, request: MsgName, time: int)
    | Matched(serial: nat, dest: Mac)

  datatype State = State(
    phase: Phase,
    pending: map<Mac, seq<Pending>>,
    notInterested: set<Mac>,
    nextSerial: nat,
    log: seq<Entry>)

  function Queue(s: State, d: Mac): seq<Pending> {
    if d in s.pending then s.pending[d] else []
  }

  /** No queue is empty, and each holds only queued requests for its own destination. */
  ghost predicate WellKeyed(s: State) {
    forall d :: d in s.pending ==>
      s.pending[d] != [] && forall i :: 0 <= i < |s.pending[d]| ==> s.pending[d][i].dest == d && s.pending[d][i].queued
  }

  // ----- send_message_expecting_response -----

  function Enqueue(s: State, rp: Pending): (r: State)
    requires WellKeyed(s)
    ensures WellKeyed(r) && s.log <= r.log
  {
    s.(pending := s.pending[rp.dest := Queue(s, rp.dest) + [rp.(queued := true)]],
       log := s.log + [Enqueued(rp.serial, rp.dest)])
  }

  function TransmitHead(s: State, d: Mac, now: int): (r: State)
    requires WellKeyed(s) && d in s.pending
    ensures WellKeyed(r) && s.log <= r.log
  {
    var q := s.pending[d];
    s.(pending := s.pending[d := q[0 := q[0].(sendTime := now, sendTries := q[0].sendTries + 1)]],
       log := s.log + [Sent(q[0].serial, d, q[0].request, now)])
  }

  /** A request is only ever handed over when it is new or already the head of its queue. */
  function SendExpecting(s: State, rp: Pending, now: int): (r: State)
    requires WellKeyed(s) && (rp.queued ==> rp.dest in s.pending)
    ensures WellKeyed(r) && s.log <= r.log
  {
    if rp.dest in s.notInterested then s
    else
      var s1 := if rp.queued then s else Enqueue(s, rp);
      if s1.pending[rp.dest][0].serial == rp.serial then TransmitHead(s1, rp.dest, now) else s1
  }

  function SendRequest(s: State, d: Mac, request: MsgName, response: MsgName, now: int): (r: State)
    requires WellKeyed(s)
    ensures WellKeyed(r) && s.log <= r.log
  {
    SendExpecting(s.(nextSerial := s.nextSerial + 1),
                  Pending(s.nextSerial, d, request, response, false, 0, 0), now)
  }

  // ----- terminate -----

  function Terminate(s: State, now: int): (r: State)
    requires WellKeyed(s)
    ensures WellKeyed(r) && s.log <= r.log && r.phase == Terminating
  {
    if s.phase == Terminating then s
    else SendRequest(s.(phase := Terminating), SESSION, SessionTermination, SessionTerminationResponse, now)
  }

  // ----- handle_response -----

  predicate Expected(s: State, d: Mac, name: MsgName) {
    Queue(s, d) != [] && Queue(s, d)[0].response == name
  }

  function PopHead(s: State, d: Mac): (r: State)
    requires WellKeyed(s) && d in s.pending
    ensures WellKeyed(r) && s.log <= r.log
  {
    var q := s.pending[d];
    s.(pending := if |q| == 1 then s.pending - {d} else s.pending[d := q[1..]],
       log := s.log + [Matched(q[0].serial, d)])
  }

  function HandleResponse(s: State, d: Mac, name: MsgName, now: int): (r: State)
    requires WellKeyed(s)
    ensures WellKeyed(r) && s.log <= r.log
  {
    if !Expected(s, d, name) then Terminate(s, now)
    else
      var s1 := PopHead(s, d);
      if d !in s1.pending then s1 else SendExpecting(s1, s1.pending[d][0], now)
  }

  // ----- check_for_retransmits -----

  predicate Late(p: Pending, now: int, timeout: nat) {
    p.sendTime + timeout < now
  }

  /** Visit the queues in `order`; the scan stops when it terminates the peer. */
  function CheckForRetransmits(s: State, order: seq<Mac>, now: int, timeout: nat, tries: nat): (r: State)
    requires WellKeyed(s)
    ensures WellKeyed(r) && s.log <= r.log
    decreases |order|
  {
    if order == [] then s
    else
      var q := Queue(s, order[0]);
      if q == [] || !Late(q[0], now, timeout) then CheckForRetransmits(s, order[1..], now, timeout, tries)
      else if q[0].sendTries < tries
      then CheckForRetransmits(SendExpecting(s, q[0], now), order[1..], now, timeout, tries)
      else Terminate(s, now)
  }

  // ----- the peer object -----

  class Peer {
    var pstate: Phase
    var responsesPending: map<Mac, seq<Pending>>
    var notInterested: set<Mac>
    var nextSerial: nat
    ghost var log: seq<Entry>

    ghost function Now(): State
      reads this
    {
      State(pstate, responsesPending, notInterested, nextSerial, log)
    }

    constructor ()
      ensures Now() == State(Connected, map[], {}, 0, []) && WellKeyed(Now())
    {
      pstate, responsesPending, notInterested, nextSerial, log := Connected, map[], {}, 0, [];
    }

    method SendMessageExpectingResponse(rp: Pending, now: int)
      requires WellKeyed(Now()) && (rp.queued ==> rp.dest in responsesPending)
      modifies this
      ensures Now() == SendExpecting(old(Now()), rp, now)
    {
      if rp.dest in notInterested {
        return;
      }
      if !rp.queued {
        var q := if rp.dest in responsesPending then responsesPending[rp.dest] else [];
        responsesPending := responsesPending[rp.dest := q + [rp.(queued := true)]];
        log := log + [Enqueued(rp.serial, rp.dest)];
      }
      var q := responsesPending[rp.dest];
      if q[0].serial == rp.serial {
        log := log + [Sent(q[0].serial, rp.dest, q[0].request, now)];
        var sent := q[0].(sendTime := now, sendTries := q[0].sendTries + 1);
        responsesPending := responsesPending[rp.dest := q[0 := sent]];
      }
    }

    method TerminateSession(now: int)
      requires WellKeyed(Now())
      modifies this
      ensures Now() == Terminate(old(Now()), now)
    {
      if pstate == Terminating {
        return;
      }
      pstate := Terminating;
      var rp := Pending(nextSerial, SESSION, SessionTermination, SessionTerminationResponse, false, 0, 0);
      nextSerial := nextSerial + 1;
      SendMessageExpectingResponse(rp, now);
    }

    method HandleIncomingResponse(d: Mac, name: MsgName, now: int) returns (ok: bool)
      requires WellKeyed(Now())
      modifies this
      ensures ok == old(Expected(Now(), d, name))
      ensures Now() == HandleResponse(old(Now()), d, name, now)
    {
      ok := false;
      if d in responsesPending && responsesPending[d][0].response == name {
        var q := responsesPending[d];
        log := log + [Matched(q[0].serial, d)];
        ok := true;
        if |q| == 1 {
          responsesPending := responsesPending - {d};
        } else {
          responsesPending := responsesPending[d := q[1..]];
          SendMessageExpectingResponse(q[1], now);
        }
      }
      if !ok {
        TerminateSession(now);
      }
    }

    method CheckRetransmits(order: seq<Mac>, now: int, timeout: nat, tries: nat)
      requires WellKeyed(Now())
      modifies this
      ensures Now() == CheckForRetransmits(old(Now()), order, now, timeout, tries)
    {
      hide SendExpecting, Terminate;
      assert order[0..] == order;
      var i := 0;
      while i < |order|
        invariant 0 <= i <= |order| && WellKeyed(Now())
        invariant CheckForRetransmits(Now(), order[i..], now, timeout, tries)
               == CheckForRetransmits(old(Now()), order, now, timeout, tries)
      {
        var d := order[i];
        assert order[i..][1..] == order[i + 1..] && order[i..][0] == d;
        ghost var s, rest := Now(), order[i + 1..];
        assert CheckForRetransmits(s, order[i..], now, timeout, tries)
            == if d !in s.pending || !Late(s.pending[d][0], now, timeout) then CheckForRetransmits(s, rest, now, timeout, tries)
               else if s.pending[d][0].sendTries < tries
               then CheckForRetransmits(SendExpecting(s, s.pending[d][0], now), rest, now, timeout, tries)
               else Terminate(s, now);
        hide CheckForRetransmits;
        if d in responsesPending && Late(responsesPending[d][0], now, timeout) {
          var head := responsesPending[d][0];
          if head.sendTries < tries {
            SendMessageExpectingResponse(head, now);
          } else {
            TerminateSession(now);
            return;
          }
        }
        i := i + 1;
      }
      assert order[i..] == [];
    }
  }
}
