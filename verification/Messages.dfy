/**
 Building and parsing protocol messages (ProtocolMessage.cpp): the wire grammar as functions,
 the round trips between them, and the message object that fills a buffer, patches the length
 in its header, and parses.
 */
module Messages {
  import opened Octets
  import opened Outcomes
  import opened DataItems
  import opened ProtocolConfig

  // ----- the wire form -----

  function EncodeItem(c: Config, di: DataItem): (s: seq<Octet>)
    ensures |s| == c.itemIdSize + c.itemLengthSize + |EncodeValue(di.value, c.extIdSize)|
  {
    var val := EncodeValue(di.value, c.extIdSize);
    BigEndian(di.id, c.itemIdSize) + BigEndian(|val|, c.itemLengthSize) + val
  }

  function EncodeItems(c: Config, items: seq<DataItem>): seq<Octet> {
    if items == [] then [] else EncodeItem(c, items[0]) + EncodeItems(c, items[1..])
  }

  function Prefix(c: Config, isSignal: bool): seq<Octet> {
    if isSignal then c.prefix else []
  }

  function Frame(c: Config, isSignal: bool, id: U32, body: seq<Octet>): seq<Octet> {
    Prefix(c, isSignal) + BigEndian(id, c.signalIdSize) + BigEndian(|body|, c.signalLengthSize) + body
  }

  /** Every field of the data item fits its configured width. */
  predicate ItemFits(c: Config, di: DataItem) {
    && Encodable(di.value, c.extIdSize)
    && di.id < Pow256(c.itemIdSize)
    && |EncodeValue(di.value, c.extIdSize)| < Pow256(c.itemLengthSize)
  }

  /** The data item is configured and its value has the configured type. */
  predicate WellTyped(c: Config, di: DataItem) {
    di.id in c.items && TypeOf(di.value) == c.items[di.id].valueType
  }

  ghost predicate Sendable(c: Config, items: seq<DataItem>) {
    forall di :: di in items ==> ItemFits(c, di) && WellTyped(c, di)
  }

  // ----- parsing -----

  const ITEM_BEYOND_END := "data item extends beyond the end of the message"
  const UNKNOWN_ITEM := "unknown data item id"
  const UNKNOWN_SIGNAL := "unknown signal id"
  const NO_PREFIX := "signal prefix mismatch"

  /** `DataItem::deserialize`: one data item at the front of `s`, and how many octets it takes. */
  function ParseItem(c: Config, s: seq<Octet>): (r: Result<(DataItem, nat)>)
    requires c.Valid()
    ensures r.Ok? ==> c.itemIdSize + c.itemLengthSize <= r.value.1 <= |s|
  {
    var (id, i) :- TakeInt(s, 0, c.itemIdSize);
    var (len, j) :- TakeInt(s, i, c.itemLengthSize);
    assert Pow256(c.itemIdSize) <= Pow256(4) by { Pow256Monotone(c.itemIdSize, 4); }
    if j + len > |s| then Err(ITEM_BEYOND_END)
    else if id !in c.items then Err(UNKNOWN_ITEM)
    else
      var v :- DecodeValue(c.items[id].valueType, s[j..j + len], c.extIdSize);
      Ok((DataItem(id, v), j + len))
  }

  /** What a parse leaves behind: the items read before any error, and the error if there is one. */
  datatype Parsed = Parsed(items: seq<DataItem>, err: Option<string>)

  function ParseItems(c: Config, s: seq<Octet>): (p: Parsed)
    requires c.Valid()
    decreases |s|
  {
    if s == [] then Parsed([], None)
    else
      match ParseItem(c, s)
      case Err(e) => Parsed([], Some(e))
      case Ok((di, n)) =>
        var rest := ParseItems(c, s[n..]);
        Parsed([di] + rest.items, rest.err)
  }

  /** The message header: the signal id and where the data items start. */
  function ParseHeader(c: Config, isSignal: bool, s: seq<Octet>): (r: Result<(U32, nat)>)
    requires c.Valid()
    ensures r.Ok? ==> r.value.1 == |Prefix(c, isSignal)| + c.HeaderSize() <= |s|
  {
    var p := Prefix(c, isSignal);
    if isSignal && (|s| <= |p| || s[..|p|] != p) then Err(NO_PREFIX)
    else
      var (id, i) :- TakeInt(s, |p|, c.signalIdSize);
      assert Pow256(c.signalIdSize) <= Pow256(4) by { Pow256Monotone(c.signalIdSize, 4); }
      var (len, j) :- TakeInt(s, i, c.signalLengthSize);
      if id in c.Table(isSignal).Values then Ok((id as U32, j)) else Err(UNKNOWN_SIGNAL)
  }

  // ----- build, then parse -----

  lemma ParseItemBack(c: Config, di: DataItem, post: seq<Octet>)
    requires c.Valid() && ItemFits(c, di) && WellTyped(c, di)
    ensures ParseItem(c, EncodeItem(c, di) + post)
         == if HasUnreadTail(di.value) then Err(LONG_ITEM) else Ok((di, |EncodeItem(c, di)|))
  {
    hide DecodeValue, EncodeValue, TypeOf, BigEndian, Value, Pow256, TakeInt, Take;
    var val := EncodeValue(di.value, c.extIdSize);
    var idf, lenf := BigEndian(di.id, c.itemIdSize), BigEndian(|val|, c.itemLengthSize);
    var s := EncodeItem(c, di) + post;
    assert s == [] + idf + (lenf + val + post);
    TakeIntBack([], di.id, c.itemIdSize, lenf + val + post);
    assert s == idf + lenf + (val + post);
    TakeIntBack(idf, |val|, c.itemLengthSize, val + post);
    var j := c.itemIdSize + c.itemLengthSize;
    assert s[j..j + |val|] == val;
    DecodeOfEncode(di.value, c.extIdSize);
    assert DecodesBack(di.value, c.extIdSize);
  }

  /** Position of the first data item that cannot be read back, or the length of the list. */
  function FirstUnread(items: seq<DataItem>): (f: nat)
    ensures f <= |items|
    ensures forall k :: 0 <= k < f ==> !HasUnreadTail(items[k].value)
    ensures f < |items| ==> HasUnreadTail(items[f].value)
  {
    if items == [] || HasUnreadTail(items[0].value) then 0 else 1 + FirstUnread(items[1..])
  }

  /** Parsing the built data items gives back exactly those in front of the first unreadable one. */
  lemma {:induction false} ParseItemsUpToUnread(c: Config, items: seq<DataItem>)
    requires c.Valid() && Sendable(c, items)
    ensures var f := FirstUnread(items);
            ParseItems(c, EncodeItems(c, items)) == Parsed(items[..f], if f < |items| then Some(LONG_ITEM) else None)
  {
    hide ParseItem, EncodeItem, ItemFits, WellTyped, HasUnreadTail, EncodeValue;
    if items != [] {
      var di, rest := items[0], items[1..];
      ParseItemBack(c, di, EncodeItems(c, rest));
      assert (EncodeItem(c, di) + EncodeItems(c, rest))[|EncodeItem(c, di)|..] == EncodeItems(c, rest);
      ParseItemsUpToUnread(c, rest);
      assert [di] + rest[..FirstUnread(rest)] == items[..FirstUnread(rest) + 1];
    }
  }

  /**
   Parsing the built data items gives back exactly those items, if and only if none of them is a
   `u16_vu8` with a non-empty vector; otherwise parsing stops at the first such item.
   */
  lemma ParseItemsBack(c: Config, items: seq<DataItem>)
    requires c.Valid() && Sendable(c, items)
    ensures var p := ParseItems(c, EncodeItems(c, items));
            && p.items <= items
            && (forall k :: 0 <= k < |p.items| ==> !HasUnreadTail(p.items[k].value))
            && (p.err.Some? ==> |p.items| < |items| && HasUnreadTail(items[|p.items|].value))
            && (p == Parsed(items, None) <==> forall di :: di in items ==> !HasUnreadTail(di.value))
            && (p.err.Some? <==> exists di :: di in items && HasUnreadTail(di.value))
  {
    hide ParseItems, EncodeItems, ItemFits, WellTyped, HasUnreadTail, FirstUnread;
    ParseItemsUpToUnread(c, items);
    var f := FirstUnread(items);
    if f < |items| {
      assert items[f] in items;
    } else {
      assert items[..f] == items;
    }
  }

  lemma ParseHeaderBack(c: Config, isSignal: bool, id: U32, body: seq<Octet>)
    requires c.Valid() && id in c.Table(isSignal).Values
    requires id < Pow256(c.signalIdSize) && |body| < Pow256(c.signalLengthSize)
    ensures var s := Frame(c, isSignal, id, body);
            var at := |Prefix(c, isSignal)| + c.HeaderSize();
            ParseHeader(c, isSignal, s) == Ok((id, at)) && s[at..] == body
  {
    hide BigEndian, Value, Pow256, TakeInt, Take;
    var p := Prefix(c, isSignal);
    var s := Frame(c, isSignal, id, body);
    var idf, lenf := BigEndian(id, c.signalIdSize), BigEndian(|body|, c.signalLengthSize);
    assert s == p + idf + (lenf + body);
    TakeIntBack(p, id, c.signalIdSize, lenf + body);
    assert s == (p + idf) + lenf + body;
    TakeIntBack(p + idf, |body|, c.signalLengthSize, body);
    assert s[..|p|] == p;
  }

  /** The name, seen as a configured signal or message whose parts all fit. */
  ghost predicate Buildable(c: Config, name: string, items: seq<DataItem>) {
    && c.FindName(name).Some?
    && c.FindName(name).value.0 < Pow256(c.signalIdSize)
    && Sendable(c, items)
    && |EncodeItems(c, items)| < Pow256(c.signalLengthSize)
  }

  function Build(c: Config, name: string, items: seq<DataItem>): seq<Octet>
    requires c.FindName(name).Some?
  {
    var (id, isSignal) := c.FindName(name).value;
    Frame(c, isSignal, id, EncodeItems(c, items))
  }

  function Parse(c: Config, isSignal: bool, s: seq<Octet>): Result<(U32, seq<DataItem>)>
    requires c.Valid()
  {
    var (id, at) :- ParseHeader(c, isSignal, s);
    var p := ParseItems(c, s[at..]);
    if p.err.Some? then Err(p.err.value) else Ok((id, p.items))
  }

  /** Build, then parse: the same id and exactly the same items, if and only if every vector is readable. */
  lemma BuildParseRoundTrip(c: Config, name: string, items: seq<DataItem>)
    requires c.Valid() && Buildable(c, name, items)
    ensures var (id, isSignal) := c.FindName(name).value;
            && (Parse(c, isSignal, Build(c, name, items)) == Ok((id, items))
                <==> forall di :: di in items ==> !HasUnreadTail(di.value))
            && (Parse(c, isSignal, Build(c, name, items)).Err?
                <==> exists di :: di in items && HasUnreadTail(di.value))
  {
    hide ParseItems, EncodeItems, ParseHeader, BigEndian, Pow256, HasUnreadTail, ItemFits, WellTyped;
    var (id, isSignal) := c.FindName(name).value;
    assert id in c.Table(isSignal).Values by { assert name in c.Table(isSignal); }
    ParseHeaderBack(c, isSignal, id, EncodeItems(c, items));
    ParseItemsBack(c, items);
  }

  // ----- where things are on the wire -----

  /** A signal starts with the configured prefix, a message does not; then come id, length and body. */
  lemma FrameLayout(c: Config, isSignal: bool, id: U32, body: seq<Octet>)
    requires id < Pow256(c.signalIdSize) && |body| < Pow256(c.signalLengthSize)
    ensures var f := Frame(c, isSignal, id, body);
            var p := if isSignal then |c.prefix| else 0;
            var h := p + c.signalIdSize + c.signalLengthSize;
            && (isSignal ==> c.prefix <= f)
            && |f| == h + |body| && f[h..] == body
            && Value(f[p..p + c.signalIdSize]) == id
            && Value(f[p + c.signalIdSize..h]) == |body|
  {
    hide BigEndian, Value, Pow256;
    var f := Frame(c, isSignal, id, body);
    var p := if isSignal then |c.prefix| else 0;
    ValueOfBigEndian(id, c.signalIdSize);
    ValueOfBigEndian(|body|, c.signalLengthSize);
    assert f[p..p + c.signalIdSize] == BigEndian(id, c.signalIdSize);
    assert f[p + c.signalIdSize..p + c.signalIdSize + c.signalLengthSize] == BigEndian(|body|, c.signalLengthSize);
  }

  /** A data item is its id, the length of its value, and its value. */
  lemma ItemLayout(c: Config, di: DataItem)
    requires ItemFits(c, di)
    ensures var s, val := EncodeItem(c, di), EncodeValue(di.value, c.extIdSize);
            var h := c.itemIdSize + c.itemLengthSize;
            && |s| == h + |val| && s[h..] == val
            && Value(s[..c.itemIdSize]) == di.id && Value(s[c.itemIdSize..h]) == |val|
  {
    hide BigEndian, Value, Pow256, EncodeValue;
    var s, val := EncodeItem(c, di), EncodeValue(di.value, c.extIdSize);
    ValueOfBigEndian(di.id, c.itemIdSize);
    ValueOfBigEndian(|val|, c.itemLengthSize);
    assert s[..c.itemIdSize] == BigEndian(di.id, c.itemIdSize);
    assert s[c.itemIdSize..c.itemIdSize + c.itemLengthSize] == BigEndian(|val|, c.itemLengthSize);
  }

  /** A name that is a signal is sent with the prefix and the signal's id, any other with the message's id. */
  lemma BuildLayout(c: Config, name: string, items: seq<DataItem>)
    requires Buildable(c, name, items)
    ensures var s := Build(c, name, items);
            if name in c.signals then
              && c.prefix <= s && |s| >= |c.prefix| + c.signalIdSize
              && Value(s[|c.prefix|..|c.prefix| + c.signalIdSize]) == c.signals[name]
            else
              name in c.messages && |s| >= c.signalIdSize && Value(s[..c.signalIdSize]) == c.messages[name]
  {
    hide Frame, Value;
    var (id, isSignal) := c.FindName(name).value;
    FrameLayout(c, isSignal, id, EncodeItems(c, items));
  }

  /** A signal without its prefix, or with nothing behind it, is refused for that reason, and only such a one is. */
  lemma PrefixDemanded(c: Config, s: seq<Octet>)
    requires c.Valid()
    ensures ParseHeader(c, true, s) == Err(NO_PREFIX) <==> !(|c.prefix| < |s| && c.prefix <= s)
    ensures ParseHeader(c, false, s) != Err(NO_PREFIX)
  {
    hide Value, Pow256;
    assert |NO_PREFIX| == 22 && |SHORT_ITEM| == 27 && |UNKNOWN_SIGNAL| == 17;
  }

  /** Which headers are accepted, and what is read: a message from its first octet, a signal from behind its prefix. */
  lemma HeaderAccepted(c: Config, isSignal: bool, s: seq<Octet>)
    requires c.Valid()
    ensures var p := if isSignal then |c.prefix| else 0;
            var h := p + c.signalIdSize + c.signalLengthSize;
            && (ParseHeader(c, isSignal, s).Ok?
                <==> && (isSignal ==> |c.prefix| < |s| && c.prefix <= s)
                     && h <= |s|
                     && Value(s[p..p + c.signalIdSize]) in (if isSignal then c.signals.Values else c.messages.Values))
            && (ParseHeader(c, isSignal, s).Ok? ==> ParseHeader(c, isSignal, s).value == (Value(s[p..p + c.signalIdSize]), h))
  {
    hide Value, Pow256;
  }

  // ----- parse, then build -----

  /** The canonical spelling of a list of data items: explicit zero ports go, lengths follow. */
  function CanonicalItems(c: Config, s: seq<Octet>): seq<Octet>
    requires c.Valid()
    decreases |s|
  {
    if s == [] || ParseItem(c, s).Err? then []
    else
      var (di, n) := ParseItem(c, s).value;
      var val := s[c.itemIdSize + c.itemLengthSize..n];
      var cval := Canonical(c.items[di.id].valueType, val);
      s[..c.itemIdSize] + BigEndian(|cval|, c.itemLengthSize) + cval + CanonicalItems(c, s[n..])
  }

  /** How many connection points in the list spell out a port of zero. */
  function ZeroPorts(c: Config, s: seq<Octet>): nat
    requires c.Valid()
    decreases |s|
  {
    if s == [] || ParseItem(c, s).Err? then 0
    else
      var (di, n) := ParseItem(c, s).value;
      var val := s[c.itemIdSize + c.itemLengthSize..n];
      (if ExplicitZeroPort(c.items[di.id].valueType, val) then 1 else 0) + ZeroPorts(c, s[n..])
  }

  lemma ItemReencodes(c: Config, s: seq<Octet>)
    requires c.Valid() && ParseItem(c, s).Ok?
    ensures var (di, n) := ParseItem(c, s).value;
            && ItemFits(c, di) && WellTyped(c, di) && !HasUnreadTail(di.value)
            && var val := s[c.itemIdSize + c.itemLengthSize..n];
               var cval := Canonical(c.items[di.id].valueType, val);
               && EncodeItem(c, di) == s[..c.itemIdSize] + BigEndian(|cval|, c.itemLengthSize) + cval
               && (!ExplicitZeroPort(c.items[di.id].valueType, val) ==> EncodeItem(c, di) == s[..n])
  {
    hide DecodeValue, EncodeValue, TypeOf, BigEndian, Value, Pow256;
    var (di, n) := ParseItem(c, s).value;
    var h := c.itemIdSize + c.itemLengthSize;
    var val := s[h..n];
    TakeIntReencode(s, 0, c.itemIdSize);
    TakeIntReencode(s, c.itemIdSize, c.itemLengthSize);
    assert s[0..c.itemIdSize] == s[..c.itemIdSize];
    EncodeOfDecode(c.items[di.id].valueType, val, c.extIdSize);
    assert Reencodes(c.items[di.id].valueType, val, c.extIdSize);
    assert s[..n] == s[..c.itemIdSize] + s[c.itemIdSize..h] + s[h..n];
  }

  lemma {:induction false} ItemsReencode(c: Config, s: seq<Octet>)
    requires c.Valid() && ParseItems(c, s).err.None?
    ensures var items := ParseItems(c, s).items;
            && Sendable(c, items)
            && (forall di :: di in items ==> !HasUnreadTail(di.value))
            && EncodeItems(c, items) == CanonicalItems(c, s)
    decreases |s|
  {
    hide ParseItem, EncodeItem, ItemFits, WellTyped, HasUnreadTail, Canonical, BigEndian, EncodeValue;
    if s != [] {
      var (di, n) := ParseItem(c, s).value;
      var items := ParseItems(c, s).items;
      ItemReencodes(c, s);
      ItemsReencode(c, s[n..]);
      assert items[1..] == ParseItems(c, s[n..]).items;
      assert items == [di] + items[1..];
    }
  }

  lemma {:induction false} CanonicalLength(c: Config, s: seq<Octet>)
    requires c.Valid() && ParseItems(c, s).err.None?
    ensures |CanonicalItems(c, s)| == |s| - 2 * ZeroPorts(c, s)
    ensures ZeroPorts(c, s) == 0 ==> CanonicalItems(c, s) == s
    decreases |s|
  {
    hide ParseItem, EncodeItem, ItemFits, WellTyped, Canonical, ExplicitZeroPort, BigEndian, EncodeValue;
    if s != [] {
      var (di, n) := ParseItem(c, s).value;
      ItemReencodes(c, s);
      CanonicalLength(c, s[n..]);
      assert s == s[..n] + s[n..];
    }
  }

  /** The header's length field says how many octets follow it. */
  ghost predicate CorrectlyFramed(c: Config, isSignal: bool, s: seq<Octet>)
    requires c.Valid() && ParseHeader(c, isSignal, s).Ok?
  {
    var at := ParseHeader(c, isSignal, s).value.1;
    Value(s[at - c.signalLengthSize..at]) == |s| - at
  }

  lemma HeaderReencodes(c: Config, isSignal: bool, s: seq<Octet>)
    requires c.Valid() && ParseHeader(c, isSignal, s).Ok? && CorrectlyFramed(c, isSignal, s)
    ensures var (id, at) := ParseHeader(c, isSignal, s).value;
            id < Pow256(c.signalIdSize) && |s[at..]| < Pow256(c.signalLengthSize)
            && Frame(c, isSignal, id, s[at..]) == s
  {
    hide BigEndian, Value, Pow256;
    var (id, at) := ParseHeader(c, isSignal, s).value;
    var p := |Prefix(c, isSignal)|;
    TakeIntReencode(s, p, c.signalIdSize);
    TakeIntReencode(s, p + c.signalIdSize, c.signalLengthSize);
    var i := p + c.signalIdSize;
    assert s[..p] == Prefix(c, isSignal);
    hide TakeInt, Take;
    CutInFour(s, p, i, at);
  }

  lemma CutInFour(s: seq<Octet>, a: nat, b: nat, c: nat)
    requires a <= b <= c <= |s|
    ensures s[..a] + s[a..b] + s[b..c] + s[c..] == s
  {
  }

  /**
   Parse, then build: any accepted, correctly framed message comes back octet for octet, except
   that each connection point with an explicit zero port loses exactly its two port octets, with
   the lengths adjusted.
   */
  lemma ParseBuildRoundTrip(c: Config, name: string, s: seq<Octet>)
    requires c.Valid() && c.FindName(name).Some?
    requires var (id, isSignal) := c.FindName(name).value;
             && ParseHeader(c, isSignal, s).Ok? && CorrectlyFramed(c, isSignal, s)
             && Parse(c, isSignal, s).Ok? && Parse(c, isSignal, s).value.0 == id
    ensures var (id, isSignal) := c.FindName(name).value;
            var items := Parse(c, isSignal, s).value.1;
            var body := s[ParseHeader(c, isSignal, s).value.1..];
            && Buildable(c, name, items)
            && Build(c, name, items) == Frame(c, isSignal, id, CanonicalItems(c, body))
            && |Build(c, name, items)| == |s| - 2 * ZeroPorts(c, body)
            && (ZeroPorts(c, body) == 0 ==> Build(c, name, items) == s)
  {
    hide ParseHeader, ParseItems, EncodeItems, CanonicalItems, ZeroPorts, CorrectlyFramed, BigEndian;
    var (id, isSignal) := c.FindName(name).value;
    var (_, at) := ParseHeader(c, isSignal, s).value;
    HeaderReencodes(c, isSignal, s);
    ItemsReencode(c, s[at..]);
    CanonicalLength(c, s[at..]);
  }

  /** A list of one connection point with an explicit port of zero. */
  function ZeroPortBody(c: Config, k: U32, f: U8, ip: Ipv4): seq<Octet> {
    BigEndian(k, c.itemIdSize) + BigEndian(7, c.itemLengthSize) + ([f] + ip + [0, 0])
  }

  lemma ZeroPortItem(c: Config, k: U32, f: U8, ip: Ipv4)
    requires c.Valid() && k in c.items && c.items[k].valueType == TU8Ipv4U16 && k < Pow256(c.itemIdSize)
    ensures ParseItem(c, ZeroPortBody(c, k, f, ip)) == Ok((DataItem(k, VU8Ipv4U16(f, ip, 0)), |ZeroPortBody(c, k, f, ip)|))
  {
    hide BigEndian, Value, Pow256, TakeInt, DecodeValue;
    var val := [f] + ip + [0, 0];
    var idf, lenf := BigEndian(k, c.itemIdSize), BigEndian(7, c.itemLengthSize);
    var body := ZeroPortBody(c, k, f, ip);
    var h := c.itemIdSize + c.itemLengthSize;
    OneOctetFits(c.itemLengthSize);
    assert body == [] + idf + (lenf + val);
    TakeIntBack([], k, c.itemIdSize, lenf + val);
    assert body == idf + lenf + val;
    TakeIntBack(idf, 7, c.itemLengthSize, val);
    assert body[h..h + 7] == val;
    DecodeZeroPort(f, ip, c.extIdSize);
  }

  lemma ZeroPortItems(c: Config, k: U32, f: U8, ip: Ipv4)
    requires c.Valid() && k in c.items && c.items[k].valueType == TU8Ipv4U16 && k < Pow256(c.itemIdSize)
    ensures var body, items := ZeroPortBody(c, k, f, ip), [DataItem(k, VU8Ipv4U16(f, ip, 0))];
            && ParseItems(c, body) == Parsed(items, None) && ZeroPorts(c, body) == 1
            && |EncodeItems(c, items)| == |body| - 2
  {
    hide ParseItem, EncodeValue, Canonical;
    var body, items := ZeroPortBody(c, k, f, ip), [DataItem(k, VU8Ipv4U16(f, ip, 0))];
    ZeroPortItem(c, k, f, ip);
    DecodeZeroPort(f, ip, c.extIdSize);
    assert body[|body|..] == [] && body[c.itemIdSize + c.itemLengthSize..] == [f] + ip + [0, 0];
    assert items[1..] == [] && EncodeItems(c, []) == [];
  }

  /** An accepted message whose only data item is such a connection point loses the port. */
  lemma ExplicitZeroPortIsLost(c: Config, name: string, k: U32, f: U8, ip: Ipv4)
    requires c.Valid() && c.FindName(name).Some? && c.FindName(name).value.0 < Pow256(c.signalIdSize)
    requires k in c.items && c.items[k].valueType == TU8Ipv4U16 && k < Pow256(c.itemIdSize)
    ensures var (id, isSignal) := c.FindName(name).value;
            var body := ZeroPortBody(c, k, f, ip);
            var s := Frame(c, isSignal, id, body);
            var items := [DataItem(k, VU8Ipv4U16(f, ip, 0))];
            && Parse(c, isSignal, s) == Ok((id, items)) && ZeroPorts(c, body) == 1
            && |Build(c, name, items)| == |s| - 2
  {
    hide BigEndian, Value, Pow256, ParseItems, ZeroPorts, EncodeItems, ParseHeader;
    var (id, isSignal) := c.FindName(name).value;
    OneOctetFits(c.signalLengthSize);
    assert id in c.Table(isSignal).Values by { assert name in c.Table(isSignal); }
    ParseHeaderBack(c, isSignal, id, ZeroPortBody(c, k, f, ip));
    ZeroPortItems(c, k, f, ip);
  }

  lemma OneOctetFits(n: nat)
    requires 1 <= n <= 3
    ensures 14 < Pow256(n)
  {
    Pow256Monotone(1, n);
    assert Pow256(1) == 256;
  }
}
