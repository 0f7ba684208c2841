/**
 Destination Announce on the modem (Peer.cpp): an announced destination that the modem does not
 have yet leaves a response owed, which a later client call pays (`needs_response` in
 InfoBaseMgr.cpp).
 */
module Announce {
  import opened Octets
  import opened Outcomes
  import opened PeerTransactions

  /** What a message about a destination is answered with: an announce, or an older draft's Up. */
  datatype Due = Due(mac: Mac, response: MsgName)

  datatype Modem = Modem(
    fromPeer: map<Mac, Option<MsgName>>,   // destinations from the router, and the response each still needs
    local: set<Mac>,                       // the modem's own destinations
    notInterested: set<Mac>,
    phase: Phase,
    // history
    announced: seq<Due>,
    responded: seq<Due>,
    abandoned: seq<Due>,
    others: seq<Due>)                      // requests handed to the peer's queues, and responses to Destination Down

  function Owed(s: Modem, m: Mac): Option<MsgName> {
    if m in s.fromPeer then s.fromPeer[m] else None
  }

  function Respond(s: Modem, m: Mac, response: MsgName): Modem {
    s.(responded := s.responded + [Due(m, response)])
  }

  function Other(s: Modem, m: Mac, name: MsgName): Modem {
    s.(others := s.others + [Due(m, name)])
  }

  /** `Peer::destination_up`: pay what is owed; otherwise a Destination Up request goes out instead. */
  function PeerUp(s: Modem, m: Mac): Modem {
    match Owed(s, m)
    case Some(response) => Respond(s.(fromPeer := s.fromPeer[m := None]), m, response)
    case None => Other(s, m, DestUp)
  }

  /** `handle_destination_announce`; `accepted` is whether the client returned Success. */
  function HandleAnnounce(s: Modem, m: Mac, response: MsgName, accepted: bool): Modem {
    var s0 := s.(announced := s.announced + [Due(m, response)]);
    if m in s.fromPeer then Respond(s0, m, response)
    else
      var s1 := s0.(fromPeer := s.fromPeer[m := None], notInterested := s.notInterested - {m});
      if m in s.local then PeerUp(s1.(fromPeer := s1.fromPeer[m := Some(response)]), m)
      else if accepted then s1.(fromPeer := s1.fromPeer[m := Some(response)])
      else Respond(s1, m, response)
  }

  /** Forget a destination of the peer, and with it the response it was owed. */
  function Forget(s: Modem, m: Mac): Modem
    requires m in s.fromPeer
  {
    s.(fromPeer := s.fromPeer - {m},
       abandoned := match s.fromPeer[m] case Some(response) => s.abandoned + [Due(m, response)] case None => s.abandoned)
  }

  /** `DlepServiceImpl::destination_up` without destination advertisement. */
  function ClientUp(s: Modem, m: Mac): Modem {
    if m in s.local then s else PeerUp(s.(local := s.local + {m}), m)
  }

  /** `DlepServiceImpl::destination_down`: our own destination, or else the peer's. */
  function ClientDown(s: Modem, m: Mac): Modem {
    if m in s.local then Other(s.(local := s.local - {m}), m, DestDown)
    else if m in s.fromPeer then Other(Forget(s, m), m, DestDown)
    else s
  }

  /** `handle_destination_down`. */
  function HandleDown(s: Modem, m: Mac): Modem {
    if m in s.fromPeer then Other(Forget(s, m), m, DestDownResponse)
    else if m in s.local then Other(s.(notInterested := s.notInterested + {m}), m, DestDownResponse)
    else if s.phase == Terminating then s
    else Other(s.(phase := Terminating), SESSION, SessionTermination)
  }

  /** Every announce has been answered, is still owed its answer, or was abandoned with its destination. */
  ghost predicate BalancedAt(s: Modem, x: Due) {
    multiset(s.announced)[x]
    == multiset(s.responded)[x] + multiset(s.abandoned)[x] + if Owed(s, x.mac) == Some(x.response) then 1 else 0
  }

  ghost predicate Balanced(s: Modem) {
    forall x :: BalancedAt(s, x)
  }

  /** Paying moves one response from owed to sent. */
  lemma PeerUpBalances(s: Modem, m: Mac)
    requires Balanced(s)
    ensures Balanced(PeerUp(s, m))
  {
    forall x ensures BalancedAt(PeerUp(s, m), x) {
      assert BalancedAt(s, x);
    }
  }

  lemma ForgetBalances(s: Modem, m: Mac)
    requires Balanced(s) && m in s.fromPeer
    ensures Balanced(Forget(s, m))
  {
    forall x ensures BalancedAt(Forget(s, m), x) {
      assert BalancedAt(s, x);
    }
  }

  /** Only what is announced, answered, owed or abandoned matters. */
  lemma SameBalance(s: Modem, s': Modem)
    requires Balanced(s) && s'.fromPeer == s.fromPeer
    requires s'.announced == s.announced && s'.responded == s.responded && s'.abandoned == s.abandoned
    ensures Balanced(s')
  {
    forall x ensures BalancedAt(s', x) {
      assert BalancedAt(s, x);
    }
  }

  /** A new announce is owed its response. */
  lemma OwingBalances(s: Modem, m: Mac, response: MsgName)
    requires Balanced(s) && Owed(s, m) == None
    ensures Balanced(s.(announced := s.announced + [Due(m, response)], fromPeer := s.fromPeer[m := Some(response)]))
  {
    var s' := s.(announced := s.announced + [Due(m, response)], fromPeer := s.fromPeer[m := Some(response)]);
    forall x ensures BalancedAt(s', x) {
      assert BalancedAt(s, x);
    }
  }

  /** Or it is answered at once. */
  lemma AnsweringBalances(s: Modem, s': Modem, m: Mac, response: MsgName)
    requires Balanced(s) && forall d :: Owed(s', d) == Owed(s, d)
    requires s'.announced == s.announced + [Due(m, response)] && s'.responded == s.responded + [Due(m, response)]
    requires s'.abandoned == s.abandoned
    ensures Balanced(s')
  {
    forall x ensures BalancedAt(s', x) {
      assert BalancedAt(s, x);
    }
  }

  lemma AnnounceBalances(s: Modem, m: Mac, response: MsgName, accepted: bool)
    requires Balanced(s)
    ensures Balanced(HandleAnnounce(s, m, response, accepted))
  {
    hide Balanced;
    var s' := HandleAnnounce(s, m, response, accepted);
    if m in s.fromPeer || (m !in s.local && !accepted) {
      AnsweringBalances(s, s', m, response);
    } else {
      OwingBalances(s, m, response);
      var s1 := s.(announced := s.announced + [Due(m, response)], fromPeer := s.fromPeer[m := Some(response)]);
      var s2 := s1.(notInterested := s.notInterested - {m});
      SameBalance(s1, s2);
      assert s.fromPeer[m := None][m := Some(response)] == s.fromPeer[m := Some(response)];
      PeerUpBalances(s2, m);
    }
  }

  lemma DownBalances(s: Modem, m: Mac)
    requires Balanced(s)
    ensures Balanced(HandleDown(s, m)) && Balanced(ClientDown(s, m))
  {
    hide Balanced;
    if m in s.fromPeer {
      ForgetBalances(s, m);
      SameBalance(Forget(s, m), HandleDown(s, m));
      if m !in s.local {
        SameBalance(Forget(s, m), ClientDown(s, m));
      }
    } else {
      SameBalance(s, HandleDown(s, m));
    }
    if m in s.local {
      SameBalance(s, ClientDown(s, m));
    }
  }

  /** The modem's view of one router peer. */
  class RouterPeer {
    var fromPeer: map<Mac, Option<MsgName>>
    var local: set<Mac>
    var notInterested: set<Mac>
    var pstate: Phase
    ghost var announced: seq<Due>
    ghost var responded: seq<Due>
    ghost var abandoned: seq<Due>
    ghost var others: seq<Due>

    ghost function Value(): Modem
      reads this
    {
      Modem(fromPeer, local, notInterested, pstate, announced, responded, abandoned, others)
    }

    /** No announce is lost, and no response is sent without one. */
    ghost predicate Valid()
      reads this
    {
      Balanced(Value())
    }

    constructor (local: set<Mac>)
      ensures Value() == START.(local := local) && Valid()
    {
      this.local := local;
      fromPeer, notInterested, pstate := map[], {}, InSession;
      announced, responded, abandoned, others := [], [], [], [];
    }

    /** `PeerData::needs_response`. */
    method NeedsResponse(m: Mac, response: Option<MsgName>)
      modifies `fromPeer
      ensures fromPeer == if m in old(fromPeer) then old(fromPeer)[m := response] else old(fromPeer)
    {
      if m in fromPeer {
        fromPeer := fromPeer[m := response];
      }
    }

    method DestinationUp(m: Mac)
      requires Valid()
      modifies this
      ensures Valid() && Value() == PeerUp(old(Value()), m)
    {
      hide Balanced;
      PeerUpBalances(Value(), m);
      var response := if m in fromPeer then fromPeer[m] else None;
      if response.Some? {
        NeedsResponse(m, None);
        responded := responded + [Due(m, response.value)];
      } else {
        others := others + [Due(m, DestUp)];
      }
    }

    method HandleDestinationAnnounce(m: Mac, response: MsgName, accepted: bool)
      requires Valid()
      modifies this
      ensures Valid() && Value() == HandleAnnounce(old(Value()), m, response, accepted)
    {
      hide Balanced;
      ghost var s0 := Value();
      AnnounceBalances(s0, m, response, accepted);
      announced := announced + [Due(m, response)];
      var success := false;
      if m !in fromPeer {
        notInterested := notInterested - {m};
        fromPeer := fromPeer[m := None];
        if m in local {
          NeedsResponse(m, Some(response));
          OwingBalances(s0, m, response);
          SameBalance(s0.(announced := announced, fromPeer := s0.fromPeer[m := Some(response)]), Value());
          DestinationUp(m);
          return;
        }
        success := accepted;
      }
      if success {
        NeedsResponse(m, Some(response));
      } else {
        responded := responded + [Due(m, response)];
      }
    }

    method RemoveDestination(m: Mac) returns (ok: bool)
      modifies `fromPeer, `abandoned
      ensures ok <==> m in old(fromPeer)
      ensures Value() == if ok then Forget(old(Value()), m) else old(Value())
    {
      ok := m in fromPeer;
      if ok {
        if fromPeer[m].Some? {
          abandoned := abandoned + [Due(m, fromPeer[m].value)];
        }
        fromPeer := fromPeer - {m};
      }
    }

    method HandleDestinationDown(m: Mac)
      requires Valid()
      modifies this
      ensures Valid() && Value() == HandleDown(old(Value()), m)
    {
      hide Balanced;
      DownBalances(Value(), m);
      var ok := RemoveDestination(m);
      if !ok {
        if m in local {
          notInterested := notInterested + {m};
        } else {
          if pstate != Terminating {
            pstate := Terminating;
            others := others + [Due(SESSION, SessionTermination)];
          }
          return;
        }
      }
      others := others + [Due(m, DestDownResponse)];
    }
  }

  datatype Event =
    | Announced(mac: Mac, response: MsgName, accepted: bool)
    | Downed(mac: Mac)
    | CalledUp(mac: Mac)
    | CalledDown(mac: Mac)

  function Step(s: Modem, e: Event): Modem {
    match e
    case Announced(m, response, accepted) => HandleAnnounce(s, m, response, accepted)
    case Downed(m) => HandleDown(s, m)
    case CalledUp(m) => ClientUp(s, m)
    case CalledDown(m) => ClientDown(s, m)
  }

  function Run(s: Modem, es: seq<Event>): Modem
    decreases |es|
  {
    if es == [] then s else Run(Step(s, es[0]), es[1..])
  }

  lemma StepKeepsBalance(s: Modem, e: Event)
    requires Balanced(s)
    ensures Balanced(Step(s, e))
  {
    hide Balanced, HandleAnnounce, HandleDown, ClientDown;
    match e
    case Announced(m, response, accepted) => AnnounceBalances(s, m, response, accepted);
    case Downed(m) => DownBalances(s, m);
    case CalledUp(m) =>
      SameBalance(s, s.(local := s.local + {m}));
      PeerUpBalances(s.(local := s.local + {m}), m);
    case CalledDown(m) => DownBalances(s, m);
  }

  lemma {:induction false} RunKeepsBalance(s: Modem, es: seq<Event>)
    requires Balanced(s)
    ensures Balanced(Run(s, es))
    decreases |es|
  {
    hide Step, Balanced;
    if es != [] {
      StepKeepsBalance(s, es[0]);
      RunKeepsBalance(Step(s, es[0]), es[1..]);
    }
  }

  const START := Modem(map[], {}, {}, InSession, [], [], [], [])

  /**
   In every run of a session, for each destination and kind of response: announces received are
   responses sent, plus one if a response is owed, plus those abandoned by a Destination Down.  So
   no response is ever sent without an announce that is still outstanding.
   */
  lemma AnnounceConservation(local: set<Mac>, es: seq<Event>, x: Due)
    ensures var s := Run(START.(local := local), es);
            && multiset(s.announced)[x]
               == multiset(s.responded)[x] + multiset(s.abandoned)[x] + (if Owed(s, x.mac) == Some(x.response) then 1 else 0)
            && multiset(s.responded)[x] <= multiset(s.announced)[x]
  {
    hide Run;
    var s0 := START.(local := local);
    assert Balanced(s0);
    RunKeepsBalance(s0, es);
    assert BalancedAt(Run(s0, es), x);
  }

  // ----- what each message and call comes to -----

  /**
   An announce of a destination that the router had not announced, that the modem does not have
   and that the client accepts is owed its response; any other is answered at once.  The router's
   interest in the destination comes back with the first announce.
   */
  lemma AnnounceOutcome(s: Modem, m: Mac, response: MsgName, accepted: bool, d: Mac)
    ensures var s' := HandleAnnounce(s, m, response, accepted);
            var waits := m !in s.fromPeer && m !in s.local && accepted;
            && s'.responded == s.responded + (if waits then [] else [Due(m, response)])
            && (m !in s.fromPeer ==> Owed(s', m) == if waits then Some(response) else None)
            && (m in s.fromPeer || d != m ==> Owed(s', d) == Owed(s, d))
            && s'.fromPeer.Keys == s.fromPeer.Keys + {m}
            && s'.notInterested == (if m in s.fromPeer then s.notInterested else s.notInterested - {m})
            && s'.local == s.local && s'.phase == s.phase && s'.others == s.others && s'.abandoned == s.abandoned
  {
  }

  /** A Down takes a destination away from the router that announced it; one of the modem's own becomes unwanted; any other ends the session. */
  lemma DownOutcome(s: Modem, m: Mac)
    ensures var s' := HandleDown(s, m);
            && m !in s'.fromPeer && s'.local == s.local && s'.responded == s.responded
            && s'.notInterested == (if m in s.local && m !in s.fromPeer then s.notInterested + {m} else s.notInterested)
            && (m in s.fromPeer || m in s.local ==>
                  s'.phase == s.phase && s'.others == s.others + [Due(m, DestDownResponse)])
            && (m !in s.fromPeer && m !in s.local ==> s'.phase == Terminating)
            && s'.abandoned == s.abandoned + match Owed(s, m) case Some(response) => [Due(m, response)] case None => []
  {
  }

  /** A client's new destination pays the response that is owed for it, and is a Destination Up otherwise. */
  lemma UpOutcome(s: Modem, m: Mac)
    requires m !in s.local
    ensures var s' := ClientUp(s, m);
            && m in s'.local && Owed(s', m) == None
            && match Owed(s, m)
               case Some(response) => s'.responded == s.responded + [Due(m, response)] && s'.others == s.others
               case None => s'.responded == s.responded && s'.others == s.others + [Due(m, DestUp)]
  {
  }
}
