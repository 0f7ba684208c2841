/**
 Which data items a message may carry (`validate` in ProtocolMessage.cpp) and which status code
 it reports (`add_status`).
 */
module MessageRules {
  import opened Octets
  import opened Outcomes
  import opened DataItems
  import opened ProtocolConfig

  // ----- validate -----

  datatype Occurs = ExactlyOne | OneOrMore | ZeroOrOne | ZeroOrMore
  datatype Rule = Rule(id: U32, occurs: Occurs)

  datatype SignalInfo = SignalInfo(modemSends: bool, routerSends: bool, rules: seq<Rule>)

  /** `DataItem::validate`: the configured type, and the limits on the value's own fields. */
  predicate ItemValid(c: Config, di: DataItem) {
    && di.id in c.items
    && TypeOf(di.value) == c.items[di.id].valueType
    && var info := c.items[di.id];
       match di.value
       case VU8(n) => if info.percentage then n <= 100 else info.status ==> n in c.statusCodes
       case VU8String(n, _) => info.status ==> n in c.statusCodes
       case VU8Ipv4(f, _) => f <= 1
       case VU8Ipv6(f, _) => f <= 1
       case VIpv4U8(_, mask) => mask <= 32
       case VIpv6U8(_, mask) => mask <= 128
       case VU8Ipv4U8(f, _, mask) => f <= 1 && mask <= 32
       case VU8Ipv6U8(f, _, mask) => f <= 1 && mask <= 128
       case _ => true
  }

  function Count(items: seq<DataItem>, id: U32): nat {
    if items == [] then 0
    else Count(items[..|items| - 1], id) + if items[|items| - 1].id == id then 1 else 0
  }

  predicate Meets(occurs: Occurs, n: nat) {
    match occurs
    case ExactlyOne => n == 1
    case OneOrMore => n >= 1
    case ZeroOrOne => n <= 1
    case ZeroOrMore => true
  }

  predicate MaySend(info: SignalInfo, modemSender: bool) {
    if modemSender then info.modemSends else info.routerSends
  }

  predicate Configured(rules: seq<Rule>, id: U32) {
    exists i :: 0 <= i < |rules| && rules[i].id == id
  }

  /** An id that an earlier rule has used up counts as absent for a later one. */
  function SeenBy(rules: seq<Rule>, i: nat, items: seq<DataItem>): nat
    requires i < |rules|
  {
    if Configured(rules[..i], rules[i].id) then 0 else Count(items, rules[i].id)
  }

  ghost predicate Conforms(c: Config, info: SignalInfo, items: seq<DataItem>, modemSender: bool) {
    && MaySend(info, modemSender)
    && (forall i :: 0 <= i < |info.rules| ==> Meets(info.rules[i].occurs, SeenBy(info.rules, i, items)))
    && (forall i :: 0 <= i < |items| ==> Configured(info.rules, items[i].id) && ItemValid(c, items[i]))
  }

  /** Both kinds of sender may be allowed, or one, or none; what the other may send makes no difference. */
  lemma SenderMustBeAllowed(c: Config, info: SignalInfo, items: seq<DataItem>)
    ensures Conforms(c, info, items, true) ==> info.modemSends
    ensures Conforms(c, info, items, false) ==> info.routerSends
    ensures info.modemSends && info.routerSends ==> (Conforms(c, info, items, true) <==> Conforms(c, info, items, false))
    ensures Conforms(c, info, items, true) <==> info.modemSends && Conforms(c, info.(routerSends := true), items, false)
  {
    hide ItemValid, Meets, SeenBy, Configured;
  }

  /** What an address item says about itself: whether it is added or dropped, the address, and its prefix length. */
  function AddressParts(v: ItemValue): Option<(Option<U8>, seq<Octet>, Option<U8>)> {
    match v
    case VU8Ipv4(f, ip) => Some((Some(f), ip, None))
    case VU8Ipv6(f, ip) => Some((Some(f), ip, None))
    case VIpv4U8(ip, mask) => Some((None, ip, Some(mask)))
    case VIpv6U8(ip, mask) => Some((None, ip, Some(mask)))
    case VU8Ipv4U8(f, ip, mask) => Some((Some(f), ip, Some(mask)))
    case VU8Ipv6U8(f, ip, mask) => Some((Some(f), ip, Some(mask)))
    case _ => None
  }

  /** A configured address item is valid if it is either added or dropped, and its prefix is no longer than the address. */
  lemma AddressValidIff(c: Config, di: DataItem)
    requires di.id in c.items && c.items[di.id].valueType == TypeOf(di.value) && AddressParts(di.value).Some?
    ensures var (flags, ip, mask) := AddressParts(di.value).value;
            ItemValid(c, di) <==> && (flags.Some? ==> flags.value == 0 || flags.value == 1)
                                  && (mask.Some? ==> mask.value as int <= 8 * |ip|)
  {
  }

  /** A valid item has the configured type; an item that is no address, status or percentage needs no more than that. */
  lemma TypedIsValid(c: Config, di: DataItem)
    requires di.id in c.items
    ensures ItemValid(c, di) ==> TypeOf(di.value) == c.items[di.id].valueType
    ensures && TypeOf(di.value) == c.items[di.id].valueType && !c.items[di.id].percentage && !c.items[di.id].status
            && AddressParts(di.value).None?
            ==> ItemValid(c, di)
  {
  }

  /** A status is valid if its code is configured, with and without a text; a percentage if it is one. */
  lemma StatusValidIff(c: Config, id: U32, n: U8, text: seq<Octet>)
    requires id in c.items && !c.items[id].percentage && c.items[id].status
    ensures c.items[id].valueType == TU8 ==> (ItemValid(c, DataItem(id, VU8(n))) <==> n in c.statusCodes)
    ensures c.items[id].valueType == TU8String ==> (ItemValid(c, DataItem(id, VU8String(n, text))) <==> n in c.statusCodes)
  {
  }

  lemma PercentageValidIff(c: Config, id: U32, n: U8)
    requires id in c.items && c.items[id].valueType == TU8 && c.items[id].percentage
    ensures ItemValid(c, DataItem(id, VU8(n))) <==> n <= 100
  {
  }

  lemma {:induction false} CountedMeansPresent(items: seq<DataItem>, id: U32)
    ensures Count(items, id) > 0 <==> exists i :: 0 <= i < |items| && items[i].id == id
  {
    if items != [] {
      CountedMeansPresent(items[..|items| - 1], id);
    }
  }

  /** The counting loop. */
  method CountOccurrences(items: seq<DataItem>) returns (occ: map<U32, nat>)
    ensures forall id :: id in occ <==> Count(items, id) > 0
    ensures forall id :: id in occ ==> occ[id] == Count(items, id)
  {
    occ := map[];
    for n := 0 to |items|
      invariant forall id :: id in occ <==> Count(items[..n], id) > 0
      invariant forall id :: id in occ ==> occ[id] == Count(items[..n], id)
    {
      assert items[..n + 1][..n] == items[..n];
      var id := items[n].id;
      occ := occ[id := if id in occ then occ[id] + 1 else 1];
    }
    assert items[..|items|] == items;
  }

  /** The loop over the rules, which removes each id it has checked. */
  method CheckRules(rules: seq<Rule>, items: seq<DataItem>, counts: map<U32, nat>) returns (ok: bool, left: map<U32, nat>)
    requires forall id :: id in counts <==> Count(items, id) > 0
    requires forall id :: id in counts ==> counts[id] == Count(items, id)
    ensures ok <==> forall i :: 0 <= i < |rules| ==> Meets(rules[i].occurs, SeenBy(rules, i, items))
    ensures ok ==> left == map id | id in counts && !Configured(rules, id) :: counts[id]
  {
    hide Count, Meets;
    left := counts;
    for n := 0 to |rules|
      invariant left == map id | id in counts && !Configured(rules[..n], id) :: counts[id]
      invariant forall i :: 0 <= i < n ==> Meets(rules[i].occurs, SeenBy(rules, i, items))
    {
      var rule := rules[n];
      var actual := 0;
      if rule.id in left {
        actual := left[rule.id];
        left := left - {rule.id};
      }
      assert actual == SeenBy(rules, n, items);
      if !Meets(rule.occurs, actual) {
        return false, left;
      }
      assert rules[..n + 1] == rules[..n] + [rule];
      forall id ensures Configured(rules[..n + 1], id) <==> Configured(rules[..n], id) || id == rule.id {
        if id == rule.id { assert rules[..n + 1][n].id == id; }
        if Configured(rules[..n], id) {
          var i :| 0 <= i < n && rules[..n][i].id == id;
          assert rules[..n + 1][i].id == id;
        }
      }
    }
    assert rules[..|rules|] == rules;
    ok := true;
  }

  /**
   `validate`: accepts exactly the messages whose sender is allowed, whose counts meet the rules,
   and whose items are all configured and valid.
   */
  method Validate(c: Config, info: SignalInfo, items: seq<DataItem>, modemSender: bool) returns (ok: bool)
    ensures ok <==> Conforms(c, info, items, modemSender)
  {
    hide Count, Meets, Configured, SeenBy, ItemValid;
    if !MaySend(info, modemSender) {
      return false;
    }
    var occ := CountOccurrences(items);
    var met, left := CheckRules(info.rules, items, occ);
    if !met {
      return false;
    }
    LeftoversAreUnexpected(info.rules, items, occ, left);
    if left != map[] {
      return false;
    }
    for n := 0 to |items|
      invariant forall i :: 0 <= i < n ==> ItemValid(c, items[i])
    {
      if !ItemValid(c, items[n]) {
        return false;
      }
    }
    ok := true;
  }

  lemma LeftoversAreUnexpected(rules: seq<Rule>, items: seq<DataItem>, counts: map<U32, nat>, left: map<U32, nat>)
    requires forall id :: id in counts <==> Count(items, id) > 0
    requires left == map id | id in counts && !Configured(rules, id) :: counts[id]
    ensures left == map[] <==> forall i :: 0 <= i < |items| ==> Configured(rules, items[i].id)
  {
    hide Count, Configured;
    forall id ensures id in counts <==> exists i :: 0 <= i < |items| && items[i].id == id {
      CountedMeansPresent(items, id);
    }
    if i :| 0 <= i < |items| && !Configured(rules, items[i].id) {
      assert items[i].id in left;
    } else {
      assert forall id :: id !in left;
    }
  }

  // ----- rules that occur twice -----

  ghost predicate MetBySeen(rules: seq<Rule>, items: seq<DataItem>) {
    forall i :: 0 <= i < |rules| ==> Meets(rules[i].occurs, SeenBy(rules, i, items))
  }

  ghost predicate MetByCount(rules: seq<Rule>, items: seq<DataItem>) {
    forall i :: 0 <= i < |rules| ==> Meets(rules[i].occurs, Count(items, rules[i].id))
  }

  /** An earlier rule has the same id. */
  predicate Repeats(rules: seq<Rule>, j: nat)
    requires j < |rules|
  {
    Configured(rules[..j], rules[j].id)
  }

  /** The first rule for an id. */
  function FirstRule(rules: seq<Rule>, id: U32): (f: nat)
    requires Configured(rules, id)
    ensures f < |rules| && rules[f].id == id
    ensures forall k :: 0 <= k < f ==> rules[k].id != id
  {
    if rules[0].id == id then 0
    else
      assert Configured(rules[1..], id) by {
        var i :| 0 <= i < |rules| && rules[i].id == id;
        assert rules[1..][i - 1].id == id;
      }
      1 + FirstRule(rules[1..], id)
  }

  /** A repeated rule asks for nothing that the first rule for its id does not ask for already. */
  predicate Harmless(rules: seq<Rule>, j: nat)
    requires j < |rules|
  {
    Repeats(rules, j) ==>
      || rules[j].occurs == ZeroOrMore
      || (rules[j].occurs == ZeroOrOne && Configured(rules, rules[j].id)
          && rules[FirstRule(rules, rules[j].id)].occurs in {ExactlyOne, ZeroOrOne})
  }

  lemma FirstRuleSeesAll(rules: seq<Rule>, j: nat, items: seq<DataItem>)
    requires j < |rules|
    ensures Configured(rules, rules[j].id)
    ensures SeenBy(rules, j, items) == if Repeats(rules, j) then 0 else Count(items, rules[j].id)
    ensures var f := FirstRule(rules, rules[j].id); !Repeats(rules, f) && rules[f].id == rules[j].id
    ensures !Repeats(rules, j) ==> FirstRule(rules, rules[j].id) == j
  {
    hide Count, FirstRule;
    var id := rules[j].id;
    assert Configured(rules, id);
    var f := FirstRule(rules, id);
    if f < j {
      assert rules[..j][f].id == id;
    }
  }

  lemma HarmlessAgree(rules: seq<Rule>, items: seq<DataItem>)
    requires forall j :: 0 <= j < |rules| ==> Harmless(rules, j)
    ensures MetBySeen(rules, items) <==> MetByCount(rules, items)
  {
    hide Count, FirstRule, SeenBy, Repeats;
    forall j | 0 <= j < |rules|
      ensures MetBySeen(rules, items) ==> Meets(rules[j].occurs, Count(items, rules[j].id))
      ensures MetByCount(rules, items) ==> Meets(rules[j].occurs, SeenBy(rules, j, items))
    {
      FirstRuleSeesAll(rules, j, items);
      var f := FirstRule(rules, rules[j].id);
      FirstRuleSeesAll(rules, f, items);
      assert Harmless(rules, j);
      assert MetBySeen(rules, items) ==> Meets(rules[f].occurs, SeenBy(rules, f, items));
    }
  }

  /** One item for each rule id. */
  function Samples(rules: seq<Rule>): seq<DataItem> {
    if rules == [] then []
    else if Configured(rules[1..], rules[0].id) then Samples(rules[1..])
    else [DataItem(rules[0].id, Blank)] + Samples(rules[1..])
  }

  lemma {:induction false} CountCons(di: DataItem, items: seq<DataItem>, id: U32)
    ensures Count([di] + items, id) == Count(items, id) + if di.id == id then 1 else 0
  {
    var all := [di] + items;
    if items == [] {
      assert all[..|all| - 1] == [];
    } else {
      CountCons(di, items[..|items| - 1], id);
      assert all[..|all| - 1] == [di] + items[..|items| - 1];
    }
  }

  lemma {:induction false} SamplesCount(rules: seq<Rule>, id: U32)
    ensures Count(Samples(rules), id) == if Configured(rules, id) then 1 else 0
  {
    hide Count;
    if rules == [] {
      NoneCounted(id);
    } else {
      SamplesCount(rules[1..], id);
      CountCons(DataItem(rules[0].id, Blank), Samples(rules[1..]), id);
      ConfiguredCons(rules, id);
    }
  }

  lemma NoneCounted(id: U32)
    ensures Count([], id) == 0
  {
  }

  lemma ConfiguredCons(rules: seq<Rule>, id: U32)
    requires rules != []
    ensures Configured(rules, id) <==> rules[0].id == id || Configured(rules[1..], id)
  {
    if i :| 0 <= i < |rules| && rules[i].id == id {
      if i > 0 { assert rules[1..][i - 1].id == id; }
    }
  }

  /** With one item for each id every rule is met, but a repeated mandatory rule does not see it. */
  lemma MandatoryRepeatDisagrees(rules: seq<Rule>, j: nat)
    requires j < |rules| && Repeats(rules, j) && (rules[j].occurs == ExactlyOne || rules[j].occurs == OneOrMore)
    ensures MetByCount(rules, Samples(rules)) && !MetBySeen(rules, Samples(rules))
  {
    hide Count, Samples;
    forall i | 0 <= i < |rules| ensures Meets(rules[i].occurs, Count(Samples(rules), rules[i].id)) {
      SamplesCount(rules, rules[i].id);
      assert Configured(rules, rules[i].id);
    }
    assert SeenBy(rules, j, Samples(rules)) == 0;
  }

  /** With two items of its id, a repeated "at most one" lets through what it should not. */
  lemma OptionalRepeatDisagrees(rules: seq<Rule>, j: nat)
    requires j < |rules| && Repeats(rules, j) && rules[j].occurs == ZeroOrOne && Configured(rules, rules[j].id)
    requires rules[FirstRule(rules, rules[j].id)].occurs !in {ExactlyOne, ZeroOrOne}
    requires forall i :: 0 <= i < |rules| && Repeats(rules, i) ==> rules[i].occurs in {ZeroOrOne, ZeroOrMore}
    ensures var items := [DataItem(rules[j].id, Blank)] + Samples(rules);
            MetBySeen(rules, items) && !MetByCount(rules, items)
  {
    hide Count, Samples, SeenBy, FirstRule, Repeats, Configured;
    var id := rules[j].id;
    var items := [DataItem(id, Blank)] + Samples(rules);
    forall i | 0 <= i < |rules|
      ensures Count(items, rules[i].id) == if rules[i].id == id then 2 else 1
      ensures Meets(rules[i].occurs, SeenBy(rules, i, items))
    {
      FirstRuleSeesAll(rules, i, items);
      SamplesCount(rules, rules[i].id);
      CountCons(DataItem(id, Blank), Samples(rules), rules[i].id);
    }
    assert !Meets(rules[j].occurs, Count(items, rules[j].id));
  }

  /**
   Rules may be repeated, as an extension's rules are appended to those of the message.  Checking
   each rule against what the earlier ones left is checking it against the message, for every
   message, if and only if every repeated rule is harmless.
   */
  lemma RulesCheckedIffHarmless(rules: seq<Rule>)
    ensures (forall items :: MetBySeen(rules, items) <==> MetByCount(rules, items))
            <==> forall j :: 0 <= j < |rules| ==> Harmless(rules, j)
  {
    hide MetBySeen, MetByCount, Harmless;
    if forall j :: 0 <= j < |rules| ==> Harmless(rules, j) {
      forall items ensures MetBySeen(rules, items) <==> MetByCount(rules, items) {
        HarmlessAgree(rules, items);
      }
    } else {
      var j :| 0 <= j < |rules| && !Harmless(rules, j);
      HarmfulDisagrees(rules, j);
    }
  }

  lemma HarmfulDisagrees(rules: seq<Rule>, j: nat)
    requires j < |rules| && !Harmless(rules, j)
    ensures exists items :: !(MetBySeen(rules, items) <==> MetByCount(rules, items))
  {
    hide MetBySeen, MetByCount, FirstRule, Samples, Configured;
    FirstRuleSeesAll(rules, j, []);
    if i :| 0 <= i < |rules| && Repeats(rules, i) && (rules[i].occurs == ExactlyOne || rules[i].occurs == OneOrMore) {
      MandatoryRepeatDisagrees(rules, i);
    } else {
      OptionalRepeatDisagrees(rules, j);
    }
  }

  /** So with distinct ids each rule is met by the number of its items in the message. */
  lemma DistinctRules(c: Config, info: SignalInfo, items: seq<DataItem>, modemSender: bool)
    requires forall i, j :: 0 <= i < j < |info.rules| ==> info.rules[i].id != info.rules[j].id
    ensures Conforms(c, info, items, modemSender)
            <==> && MaySend(info, modemSender)
                 && (forall r :: r in info.rules ==> Meets(r.occurs, Count(items, r.id)))
                 && (forall x :: x in items ==> Configured(info.rules, x.id) && ItemValid(c, x))
  {
    hide Count, Meets, ItemValid, FirstRule;
    forall j | 0 <= j < |info.rules| ensures Harmless(info.rules, j) {
    }
    HarmlessAgree(info.rules, items);
    assert MetByCount(info.rules, items) <==> forall r :: r in info.rules ==> Meets(r.occurs, Count(items, r.id));
  }

  /** A rule repeated by an extension is checked against nothing, so a mandatory one always fails. */
  lemma RepeatedMandatoryRuleRejects(c: Config, info: SignalInfo, items: seq<DataItem>, modemSender: bool, i: nat, j: nat)
    requires i < j < |info.rules| && info.rules[i].id == info.rules[j].id
    requires info.rules[j].occurs == ExactlyOne || info.rules[j].occurs == OneOrMore
    ensures !Conforms(c, info, items, modemSender)
  {
    assert info.rules[..j][i].id == info.rules[j].id;
    assert SeenBy(info.rules, j, items) == 0;
  }

  // ----- add_status -----

  datatype StatusName =
    | Success | UnknownMessage | InvalidMessage | InvalidData | InvalidDestination | InconsistentData
    | NotInterested | RequestDenied | Other(name: string)

  /** What an unconfigured status is replaced by. */
  function Fallback(s: StatusName): StatusName {
    match s
    case InvalidMessage => InvalidData
    case InvalidDestination => InvalidMessage
    case InconsistentData => InvalidMessage
    case InvalidData => InvalidMessage
    case NotInterested => RequestDenied
    case _ => UnknownMessage
  }

  function Follow(s: StatusName, n: nat): StatusName
    decreases n
  {
    if n == 0 then s else Follow(Fallback(s), n - 1)
  }

  /** The configuration ends every fallback chain. */
  predicate Complete(configured: set<StatusName>) {
    UnknownMessage in configured && (InvalidMessage in configured || InvalidData in configured)
  }

  /** How many replacements can still be needed. */
  function Remaining(configured: set<StatusName>, s: StatusName): nat {
    if s in configured then 0
    else
      match s
      case InvalidDestination => 3
      case InconsistentData => 3
      case InvalidMessage => if InvalidData in configured then 1 else 2
      case InvalidData => if InvalidMessage in configured then 1 else 2
      case NotInterested => 3
      case UnknownMessage => 1
      case _ => 2
  }

  /**
   The status that is reported in the end: the one asked for if it is configured; the other of
   Invalid_Message and Invalid_Data for either of them; one of the two, the former if possible, for
   a wrong destination or inconsistent data; Request_Denied, if configured, for Not_Interested; and
   Unknown_Message for everything else.
   */
  function StatusFor(configured: set<StatusName>, asked: StatusName): StatusName {
    var invalid := if InvalidMessage in configured then InvalidMessage else InvalidData;
    if asked in configured then asked
    else if asked in {InvalidMessage, InvalidData, InvalidDestination, InconsistentData} then invalid
    else if asked == NotInterested && RequestDenied in configured then RequestDenied
    else UnknownMessage
  }

  /** The fallback loop of `add_status`, which ends with a configured code on the chain. */
  method FindStatus(configured: set<StatusName>, start: StatusName) returns (s: StatusName, ghost n: nat)
    requires Complete(configured)
    ensures s in configured && s == Follow(start, n)
    ensures forall k :: 0 <= k < n ==> Follow(start, k) !in configured
    ensures s == StatusFor(configured, start)
  {
    s, n := start, 0;
    while s !in configured
      invariant s == Follow(start, n) && StatusFor(configured, s) == StatusFor(configured, start)
      invariant forall k :: 0 <= k < n ==> Follow(start, k) !in configured
      decreases Remaining(configured, s)
    {
      FollowOneMore(start, n);
      s := Fallback(s);
      n := n + 1;
    }
  }

  lemma {:induction false} FollowOneMore(s: StatusName, n: nat)
    ensures Follow(s, n + 1) == Fallback(Follow(s, n))
    decreases n
  {
    if n > 0 {
      FollowOneMore(Fallback(s), n - 1);
    }
  }

  ghost predicate Ends(configured: set<StatusName>, start: StatusName) {
    exists n: nat :: Follow(start, n) in configured
  }

  lemma {:induction false} StuckOnUnknown(n: nat)
    ensures Follow(UnknownMessage, n) == UnknownMessage
  {
    if n > 0 {
      StuckOnUnknown(n - 1);
    }
  }

  lemma {:induction false} StuckOnInvalid(n: nat)
    ensures Follow(InvalidMessage, n) in {InvalidMessage, InvalidData}
    ensures Follow(InvalidData, n) in {InvalidMessage, InvalidData}
  {
    if n > 0 {
      StuckOnInvalid(n - 1);
    }
  }

  lemma {:induction false} ChainEnds(configured: set<StatusName>, s: StatusName)
    requires Complete(configured)
    ensures Ends(configured, s)
    decreases Remaining(configured, s)
  {
    if s in configured {
      assert Follow(s, 0) in configured;
    } else {
      ChainEnds(configured, Fallback(s));
      var n: nat :| Follow(Fallback(s), n) in configured;
      assert Follow(s, n + 1) in configured;
    }
  }

  /** The loop ends for every starting status if and only if the configuration is complete. */
  lemma FallbackEndsIffComplete(configured: set<StatusName>)
    ensures (forall s :: Ends(configured, s)) <==> Complete(configured)
  {
    hide Follow;
    if Complete(configured) {
      forall s ensures Ends(configured, s) {
        ChainEnds(configured, s);
      }
    } else if UnknownMessage !in configured {
      forall n: nat ensures Follow(UnknownMessage, n) !in configured {
        StuckOnUnknown(n);
      }
      assert !Ends(configured, UnknownMessage);
    } else {
      forall n: nat ensures Follow(InvalidMessage, n) !in configured {
        StuckOnInvalid(n);
      }
      assert !Ends(configured, InvalidMessage);
    }
  }
}
