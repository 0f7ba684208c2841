/**
 Data items: the 22 value types, their wire form and its inverse (DataItem.h, DataItem.cpp).
 */
module DataItems {
  import opened Octets
  import opened Outcomes

  type U8 = n: nat | n < 0x100
  type U16 = n: nat | n < 0x1_0000
  type U32 = n: nat | n < 0x1_0000_0000
  type U64 = n: nat | n < 0x1_0000_0000_0000_0000
  type Ipv4 = s: seq<Octet> | |s| == 4 witness [0, 0, 0, 0]
  type Ipv6 = s: seq<Octet> | |s| == 16 witness [0, 0, 0, 0, 0, 0, 0, 0, 0, 0, 0, 0, 0, 0, 0, 0]

  datatype ValueType =
    | TBlank | TU8 | TU16 | TU32 | TU64 | TVU8 | TA2U16 | TA2U64 | TString | TMac
    | TU8String | TU8Ipv4 | TIpv4U8 | TU8Ipv6 | TIpv6U8 | TU64U8 | TU16VU8 | TVExtId
    | TU8Ipv4U16 | TU8Ipv6U16 | TU8Ipv4U8 | TU8Ipv6U8

  datatype ItemValue =
    | Blank
    | VU8(u8: U8)
    | VU16(u16: U16)
    | VU32(u32: U32)
    | VU64(u64: U64)
    | VOctets(octets: seq<Octet>)
    | VA2U16(first16: U16, second16: U16)
    | VA2U64(first64: U64, second64: U64)
    | VString(text: seq<Octet>)
    | VMac(mac: seq<Octet>)
    | VU8String(code: U8, text1: seq<Octet>)
    | VU8Ipv4(flags4: U8, ip4: Ipv4)
    | VIpv4U8(ip4a: Ipv4, mask4: U8)
    | VU8Ipv6(flags6: U8, ip6: Ipv6)
    | VIpv6U8(ip6a: Ipv6, mask6: U8)
    | VU64U8(big: U64, small: U8)
    | VU16Octets(head: U16, tail: seq<Octet>)
    | VExtIds(ids: seq<U32>)
    | VU8Ipv4U16(tls4: U8, ip4c: Ipv4, port4: U16)
    | VU8Ipv6U16(tls6: U8, ip6c: Ipv6, port6: U16)
    | VU8Ipv4U8(flags4s: U8, ip4s: Ipv4, prefix4: U8)
    | VU8Ipv6U8(flags6s: U8, ip6s: Ipv6, prefix6: U8)

  datatype DataItem = DataItem(id: U32, value: ItemValue)

  /** `get_type`: the variant's index. */
  function TypeOf(v: ItemValue): ValueType {
    match v
    case Blank => TBlank
    case VU8(_) => TU8
    case VU16(_) => TU16
    case VU32(_) => TU32
    case VU64(_) => TU64
    case VOctets(_) => TVU8
    case VA2U16(_, _) => TA2U16
    case VA2U64(_, _) => TA2U64
    case VString(_) => TString
    case VMac(_) => TMac
    case VU8String(_, _) => TU8String
    case VU8Ipv4(_, _) => TU8Ipv4
    case VIpv4U8(_, _) => TIpv4U8
    case VU8Ipv6(_, _) => TU8Ipv6
    case VIpv6U8(_, _) => TIpv6U8
    case VU64U8(_, _) => TU64U8
    case VU16Octets(_, _) => TU16VU8
    case VExtIds(_) => TVExtId
    case VU8Ipv4U16(_, _, _) => TU8Ipv4U16
    case VU8Ipv6U16(_, _, _) => TU8Ipv6U16
    case VU8Ipv4U8(_, _, _) => TU8Ipv4U8
    case VU8Ipv6U8(_, _, _) => TU8Ipv6U8
  }

  // ----- serialize -----

  /** A port of zero is left off a connection point. */
  function EncodePort(port: U16): seq<Octet> {
    if port != 0 then BigEndian(port, 2) else []
  }

  function EncodeExtIds(ids: seq<U32>, extSize: nat): seq<Octet> {
    if ids == [] then [] else BigEndian(ids[0], extSize) + EncodeExtIds(ids[1..], extSize)
  }

  /** The serialize visitor. */
  function EncodeValue(v: ItemValue, extSize: nat): seq<Octet> {
    match v
    case Blank => []
    case VU8(n) => BigEndian(n, 1)
    case VU16(n) => BigEndian(n, 2)
    case VU32(n) => BigEndian(n, 4)
    case VU64(n) => BigEndian(n, 8)
    case VOctets(s) => s
    case VA2U16(a, b) => BigEndian(a, 2) + BigEndian(b, 2)
    case VA2U64(a, b) => BigEndian(a, 8) + BigEndian(b, 8)
    case VString(s) => s
    case VMac(s) => s
    case VU8String(c, s) => BigEndian(c, 1) + s
    case VU8Ipv4(f, ip) => [f] + ip
    case VIpv4U8(ip, m) => ip + [m]
    case VU8Ipv6(f, ip) => [f] + ip
    case VIpv6U8(ip, m) => ip + [m]
    case VU64U8(a, b) => BigEndian(a, 8) + BigEndian(b, 1)
    case VU16Octets(a, s) => BigEndian(a, 2) + s
    case VExtIds(ids) => EncodeExtIds(ids, extSize)
    case VU8Ipv4U16(f, ip, port) => [f] + ip + EncodePort(port)
    case VU8Ipv6U16(f, ip, port) => [f] + ip + EncodePort(port)
    case VU8Ipv4U8(f, ip, m) => [f] + ip + [m]
    case VU8Ipv6U8(f, ip, m) => [f] + ip + [m]
  }

  /** The visitor throws for exactly the values that are not encodable. */
  predicate Encodable(v: ItemValue, extSize: nat) {
    v.VExtIds? ==> forall i :: 0 <= i < |v.ids| ==> v.ids[i] < Pow256(extSize)
  }

  // ----- deserialize -----

  const SHORT_ITEM := "data item has too few bytes"
  const LONG_ITEM := "deserialized length differs from the data item length"

  function Take(s: seq<Octet>, at: nat, n: nat): (r: Result<(seq<Octet>, nat)>)
    requires at <= |s|
    ensures r.Ok? ==> |r.value.0| == n && r.value.1 <= |s|
  {
    if at + n <= |s| then Ok((s[at..at + n], at + n)) else Err(SHORT_ITEM)
  }

  function TakeInt(s: seq<Octet>, at: nat, n: nat): (r: Result<(nat, nat)>)
    requires at <= |s|
    ensures r.Ok? ==> r.value.0 < Pow256(n) && r.value.1 <= |s|
  {
    var (b, it) :- Take(s, at, n);
    BigEndianOfValue(b);
    Ok((Value(b), it))
  }

  function DecodeExtIds(s: seq<Octet>, extSize: nat): Result<seq<U32>>
    requires 0 < extSize <= 4
  {
    if s == [] then Ok([])
    else
      var (x, it) :- TakeInt(s, 0, extSize);
      assert x < Pow256(4) by { Pow256Monotone(extSize, 4); }
      var rest :- DecodeExtIds(s[it..], extSize);
      Ok([x as U32] + rest)
  }

  /** The final check: the iterator must land exactly on the end of the data item. */
  function Finish(s: seq<Octet>, at: nat, v: ItemValue): (r: Result<ItemValue>) {
    if at == |s| then Ok(v) else Err(LONG_ITEM)
  }

  function DecodePort(s: seq<Octet>, at: nat): (r: Result<(U16, nat)>)
    requires at <= |s|
  {
    if at != |s| then
      var (p, it) :- TakeInt(s, at, 2);
      Ok((p as U16, it))
    else
      Ok((0, at))
  }

  /** The `switch` of `DataItem::deserialize` over the octets of one data item's value. */
  function DecodeValue(t: ValueType, s: seq<Octet>, extSize: nat): (r: Result<ItemValue>)
    requires 0 < extSize <= 4
  {
    match t
    case TBlank => Finish(s, 0, Blank)
    case TU8 => var (n, it) :- TakeInt(s, 0, 1); Finish(s, it, VU8(n))
    case TU16 => var (n, it) :- TakeInt(s, 0, 2); Finish(s, it, VU16(n))
    case TU32 => var (n, it) :- TakeInt(s, 0, 4); Finish(s, it, VU32(n))
    case TU64 => var (n, it) :- TakeInt(s, 0, 8); Finish(s, it, VU64(n))
    case TVU8 => Finish(s, |s|, VOctets(s))
    case TA2U16 =>
      var (a, i) :- TakeInt(s, 0, 2);
      var (b, j) :- TakeInt(s, i, 2);
      Finish(s, j, VA2U16(a, b))
    case TA2U64 =>
      var (a, i) :- TakeInt(s, 0, 8);
      var (b, j) :- TakeInt(s, i, 8);
      Finish(s, j, VA2U64(a, b))
    case TString => Finish(s, |s|, VString(s))
    case TMac => Finish(s, |s|, VMac(s))
    case TU8String => var (c, i) :- TakeInt(s, 0, 1); Finish(s, |s|, VU8String(c, s[i..]))
    case TU8Ipv4 =>
      var (f, i) :- TakeInt(s, 0, 1);
      var (ip, j) :- Take(s, i, 4);
      Finish(s, j, VU8Ipv4(f, ip))
    case TIpv4U8 =>
      var (ip, i) :- Take(s, 0, 4);
      var (m, j) :- TakeInt(s, i, 1);
      Finish(s, j, VIpv4U8(ip, m))
    case TU8Ipv6 =>
      var (f, i) :- TakeInt(s, 0, 1);
      var (ip, j) :- Take(s, i, 16);
      Finish(s, j, VU8Ipv6(f, ip))
    case TIpv6U8 =>
      var (ip, i) :- Take(s, 0, 16);
      var (m, j) :- TakeInt(s, i, 1);
      Finish(s, j, VIpv6U8(ip, m))
    case TU64U8 =>
      var (a, i) :- TakeInt(s, 0, 8);
      var (b, j) :- TakeInt(s, i, 1);
      Finish(s, j, VU64U8(a, b))
    case TU16VU8 =>
      // the vector is copied out, but the iterator stays behind the 16-bit field
      var (a, i) :- TakeInt(s, 0, 2);
      Finish(s, i, VU16Octets(a, s[i..]))
    case TVExtId => var ids :- DecodeExtIds(s, extSize); Finish(s, |s|, VExtIds(ids))
    case TU8Ipv4U16 =>
      var (f, i) :- TakeInt(s, 0, 1);
      var (ip, j) :- Take(s, i, 4);
      var (port, k) :- DecodePort(s, j);
      Finish(s, k, VU8Ipv4U16(f, ip, port))
    case TU8Ipv6U16 =>
      var (f, i) :- TakeInt(s, 0, 1);
      var (ip, j) :- Take(s, i, 16);
      var (port, k) :- DecodePort(s, j);
      Finish(s, k, VU8Ipv6U16(f, ip, port))
    case TU8Ipv4U8 =>
      var (f, i) :- TakeInt(s, 0, 1);
      var (ip, j) :- Take(s, i, 4);
      var (m, k) :- TakeInt(s, j, 1);
      Finish(s, k, VU8Ipv4U8(f, ip, m))
    case TU8Ipv6U8 =>
      var (f, i) :- TakeInt(s, 0, 1);
      var (ip, j) :- Take(s, i, 16);
      var (m, k) :- TakeInt(s, j, 1);
      Finish(s, k, VU8Ipv6U8(f, ip, m))
  }

  lemma {:induction false} Pow256Monotone(m: nat, n: nat)
    requires m <= n
    ensures Pow256(m) <= Pow256(n)
  {
    if m < n {
      Pow256Monotone(m, n - 1);
    }
  }

  // ----- the two directions -----

  lemma Widths()
    ensures Pow256(1) == 0x100 && Pow256(2) == 0x1_0000 && Pow256(4) == 0x1_0000_0000
    ensures Pow256(8) == 0x1_0000_0000_0000_0000
  {
    assert Pow256(3) == 0x100_0000;
    assert Pow256(5) == 0x100_0000_0000;
    assert Pow256(6) == 0x1_0000_0000_0000;
    assert Pow256(7) == 0x100_0000_0000_0000;
  }

  /** Reading an integer back from where it was written. */
  lemma TakeIntBack(pre: seq<Octet>, n: nat, size: nat, post: seq<Octet>)
    requires n < Pow256(size)
    ensures TakeInt(pre + BigEndian(n, size) + post, |pre|, size) == Ok((n, |pre| + size))
  {
    var s := pre + BigEndian(n, size) + post;
    assert s[|pre|..|pre| + size] == BigEndian(n, size);
    ValueOfBigEndian(n, size);
  }

  lemma OneOctet(n: Octet)
    ensures BigEndian(n, 1) == [n]
  {
    assert BigEndian(n / 256, 0) == [];
  }

  lemma {:induction false} ExtIdsBack(ids: seq<U32>, extSize: nat)
    requires 0 < extSize <= 4 && Encodable(VExtIds(ids), extSize)
    ensures DecodeExtIds(EncodeExtIds(ids, extSize), extSize) == Ok(ids)
  {
    hide BigEndian, Value, Pow256, TakeInt, Take, DecodeExtIds;
    if ids != [] {
      var first, rest := BigEndian(ids[0], extSize), EncodeExtIds(ids[1..], extSize);
      ExtIdsBack(ids[1..], extSize);
      assert [] + first + rest == first + rest;
      TakeIntBack([], ids[0], extSize, rest);
      assert (first + rest)[extSize..] == rest;
      assert ids == [ids[0]] + ids[1..];
      FirstExtId(first + rest, extSize, ids[0], ids[1..]);
    } else {
      NoExtIds(extSize);
    }
  }

  lemma NoExtIds(extSize: nat)
    requires 0 < extSize <= 4
    ensures DecodeExtIds([], extSize) == Ok([])
  {
  }

  lemma FirstExtId(s: seq<Octet>, extSize: nat, x: U32, rest: seq<U32>)
    requires 0 < extSize <= 4 && extSize <= |s|
    requires TakeInt(s, 0, extSize) == Ok((x, extSize)) && DecodeExtIds(s[extSize..], extSize) == Ok(rest)
    ensures DecodeExtIds(s, extSize) == Ok([x] + rest)
  {
    hide Take, TakeInt, Pow256;
  }

  predicate HasUnreadTail(v: ItemValue) {
    v.VU16Octets? && v.tail != []
  }

  /** What the round trip of one value promises. */
  ghost predicate DecodesBack(v: ItemValue, extSize: nat)
    requires 0 < extSize <= 4
  {
    DecodeValue(TypeOf(v), EncodeValue(v, extSize), extSize)
    == if HasUnreadTail(v) then Err(LONG_ITEM) else Ok(v)
  }

  /**
   Decoding what was encoded gives the value back, for every value of every type except a
   `u16_vu8` with a non-empty vector, which is always rejected.
   */
  lemma DecodeOfEncode(v: ItemValue, extSize: nat)
    requires 0 < extSize <= 4 && Encodable(v, extSize)
    ensures DecodesBack(v, extSize)
  {
    hide *;
    match v
    case VU8(_) | VU16(_) | VU32(_) | VU64(_) => IntegerDecodesBack(v, extSize);
    case VA2U16(_, _) | VA2U64(_, _) | VU64U8(_, _) | VU8String(_, _) | VU16Octets(_, _) => PairDecodesBack(v, extSize);
    case VU8Ipv4(_, _) | VU8Ipv6(_, _) | VIpv4U8(_, _) | VIpv6U8(_, _) => AddressDecodesBack(v, extSize);
    case VU8Ipv4U8(_, _, _) | VU8Ipv6U8(_, _, _) => SubnetDecodesBack(v, extSize);
    case VU8Ipv4U16(_, _, _) | VU8Ipv6U16(_, _, _) => ConnectionPointDecodesBack(v, extSize);
    case Blank | VOctets(_) | VString(_) | VMac(_) | VExtIds(_) => ListDecodesBack(v, extSize);
  }

  lemma ListDecodesBack(v: ItemValue, extSize: nat)
    requires 0 < extSize <= 4 && Encodable(v, extSize)
    requires v.Blank? || v.VOctets? || v.VString? || v.VMac? || v.VExtIds?
    ensures DecodesBack(v, extSize)
  {
    if v.VExtIds? {
      ExtIdsBack(v.ids, extSize);
    }
  }

  lemma IntegerDecodesBack(v: ItemValue, extSize: nat)
    requires 0 < extSize <= 4 && (v.VU8? || v.VU16? || v.VU32? || v.VU64?)
    ensures DecodesBack(v, extSize)
  {
    Widths();
    hide BigEndian, Value, Pow256, TakeInt, Take, DecodeExtIds;
    var n, size := (match v case VU8(n) => n case VU16(n) => n case VU32(n) => n case VU64(n) => n),
                   (match v case VU8(_) => 1 case VU16(_) => 2 case VU32(_) => 4 case VU64(_) => 8);
    assert EncodeValue(v, extSize) == [] + BigEndian(n, size) + [];
    TakeIntBack([], n, size, []);
  }

  lemma PairDecodesBack(v: ItemValue, extSize: nat)
    requires 0 < extSize <= 4
    requires v.VA2U16? || v.VA2U64? || v.VU64U8? || v.VU8String? || v.VU16Octets?
    ensures DecodesBack(v, extSize)
  {
    Widths();
    hide BigEndian, Value, Pow256, TakeInt, Take, DecodeExtIds;
    match v
    case VA2U16(a, b) => TwoIntsBack(a, 2, b, 2);
    case VA2U64(a, b) => TwoIntsBack(a, 8, b, 8);
    case VU64U8(a, b) => TwoIntsBack(a, 8, b, 1);
    case VU8String(c, t) => HeadBack(c, 1, t);
    case VU16Octets(a, t) => HeadBack(a, 2, t);
  }

  lemma AddressDecodesBack(v: ItemValue, extSize: nat)
    requires 0 < extSize <= 4 && (v.VU8Ipv4? || v.VU8Ipv6? || v.VIpv4U8? || v.VIpv6U8?)
    ensures DecodesBack(v, extSize)
  {
    Widths();
    match v
    case VU8Ipv4(f, ip) => FlagAndAddressBack(f, ip, []); assert [f] + ip + [] == [f] + ip;
    case VU8Ipv6(f, ip) => FlagAndAddressBack(f, ip, []); assert [f] + ip + [] == [f] + ip;
    case VIpv4U8(ip, m) => AddressAndMaskBack(ip, m);
    case VIpv6U8(ip, m) => AddressAndMaskBack(ip, m);
  }

  lemma AddressAndMaskBack(pre: seq<Octet>, m: U8)
    ensures var s := pre + [m];
            Take(s, 0, |pre|) == Ok((pre, |pre|)) && TakeInt(s, |pre|, 1) == Ok((m, |pre| + 1))
  {
    Widths();
    OneOctet(m);
    assert pre + [m] == pre + BigEndian(m, 1) + [];
    TakeIntBack(pre, m, 1, []);
    assert (pre + [m])[0..|pre|] == pre;
  }

  lemma ConnectionPointDecodesBack(v: ItemValue, extSize: nat)
    requires 0 < extSize <= 4 && (v.VU8Ipv4U16? || v.VU8Ipv6U16?)
    ensures DecodesBack(v, extSize)
  {
    Widths();
    var f, ip: seq<Octet>, port := if v.VU8Ipv4U16? then v.tls4 else v.tls6,
                                   if v.VU8Ipv4U16? then v.ip4c else v.ip6c,
                                   if v.VU8Ipv4U16? then v.port4 else v.port6;
    FlagAndAddressBack(f, ip, EncodePort(port));
    assert EncodeValue(v, extSize) == ([f] + ip) + EncodePort(port) + [];
    if port != 0 {
      TakeIntBack([f] + ip, port, 2, []);
    }
  }

  lemma SubnetDecodesBack(v: ItemValue, extSize: nat)
    requires 0 < extSize <= 4 && (v.VU8Ipv4U8? || v.VU8Ipv6U8?)
    ensures DecodesBack(v, extSize)
  {
    var f, ip: seq<Octet>, m := if v.VU8Ipv4U8? then v.flags4s else v.flags6s,
                                if v.VU8Ipv4U8? then v.ip4s else v.ip6s,
                                if v.VU8Ipv4U8? then v.prefix4 else v.prefix6;
    FlagAndAddressBack(f, ip, [m]);
    AddressAndMaskBack([f] + ip, m);
  }

  lemma TwoIntsBack(a: nat, m: nat, b: nat, n: nat)
    requires a < Pow256(m) && b < Pow256(n)
    ensures var s := BigEndian(a, m) + BigEndian(b, n);
            TakeInt(s, 0, m) == Ok((a, m)) && TakeInt(s, m, n) == Ok((b, m + n))
  {
    var s := BigEndian(a, m) + BigEndian(b, n);
    assert s == [] + BigEndian(a, m) + BigEndian(b, n);
    TakeIntBack([], a, m, BigEndian(b, n));
    assert s == BigEndian(a, m) + BigEndian(b, n) + [];
    TakeIntBack(BigEndian(a, m), b, n, []);
  }

  lemma HeadBack(a: nat, m: nat, t: seq<Octet>)
    requires a < Pow256(m)
    ensures var s := BigEndian(a, m) + t; TakeInt(s, 0, m) == Ok((a, m)) && s[m..] == t
  {
    assert BigEndian(a, m) + t == [] + BigEndian(a, m) + t;
    TakeIntBack([], a, m, t);
  }

  lemma FlagAndAddressBack(f: U8, ip: seq<Octet>, post: seq<Octet>)
    ensures var s := [f] + ip + post;
            TakeInt(s, 0, 1) == Ok((f, 1)) && Take(s, 1, |ip|) == Ok((ip, 1 + |ip|))
  {
    var s := [f] + ip + post;
    Widths();
    OneOctet(f);
    assert s == [] + BigEndian(f, 1) + (ip + post);
    TakeIntBack([], f, 1, ip + post);
    assert s[1..1 + |ip|] == ip;
  }

  // ----- re-encoding what was decoded -----

  /** A connection point that carries its port explicitly although it is zero. */
  predicate ExplicitZeroPort(t: ValueType, s: seq<Octet>) {
    && ((t == TU8Ipv4U16 && |s| == 7) || (t == TU8Ipv6U16 && |s| == 19))
    && s[|s| - 2..] == [0, 0]
  }

  /** The canonical spelling of a value: an explicit zero port is dropped, nothing else changes. */
  function Canonical(t: ValueType, s: seq<Octet>): (r: seq<Octet>)
    ensures |r| == |s| - (if ExplicitZeroPort(t, s) then 2 else 0)
  {
    if ExplicitZeroPort(t, s) then s[..|s| - 2] else s
  }

  lemma TakeIntReencode(s: seq<Octet>, at: nat, n: nat)
    requires at + n <= |s|
    ensures TakeInt(s, at, n).Ok? && BigEndian(TakeInt(s, at, n).value.0, n) == s[at..at + n]
  {
    BigEndianOfValue(s[at..at + n]);
  }

  lemma {:induction false} ExtIdsReencode(s: seq<Octet>, extSize: nat)
    requires 0 < extSize <= 4 && DecodeExtIds(s, extSize).Ok?
    ensures var ids := DecodeExtIds(s, extSize).value;
            Encodable(VExtIds(ids), extSize) && EncodeExtIds(ids, extSize) == s
  {
    hide BigEndian, Value, Pow256;
    if s != [] {
      TakeIntReencode(s, 0, extSize);
      ExtIdsReencode(s[extSize..], extSize);
      var ids := DecodeExtIds(s, extSize).value;
      assert ids[1..] == DecodeExtIds(s[extSize..], extSize).value;
      forall i | 0 <= i < |ids| ensures ids[i] < Pow256(extSize) {
        if i > 0 { assert ids[i] == ids[1..][i - 1]; }
      }
      assert s == s[..extSize] + s[extSize..];
    }
  }

  lemma ZeroPortOctets(s: seq<Octet>)
    requires |s| == 2
    ensures Value(s) == 0 <==> s == [0, 0]
  {
    BigEndianOfValue(s);
    ValueOfBigEndian(0, 2);
    assert BigEndian(0, 2) == [0, 0] by { assert BigEndian(0, 1) == [0] by { OneOctet(0); } }
  }

  lemma ConnectionPointReencode(s: seq<Octet>, n: nat)
    requires |s| == 1 + n || |s| == 3 + n
    ensures TakeInt(s, 0, 1).Ok? && Take(s, 1, n).Ok? && DecodePort(s, 1 + n).Ok?
    ensures var f, ip, port := TakeInt(s, 0, 1).value.0, Take(s, 1, n).value.0, DecodePort(s, 1 + n).value.0;
            f < 256 && [f] + ip + EncodePort(port)
                       == if |s| == 3 + n && s[1 + n..] == [0, 0] then s[..1 + n] else s
  {
    Widths();
    TakeIntReencode(s, 0, 1);
    var f := TakeInt(s, 0, 1).value.0;
    OneOctet(f);
    assert s[..1 + n] == [f] + s[1..1 + n];
    if |s| == 3 + n {
      TakeIntReencode(s, 1 + n, 2);
      assert s[1 + n..3 + n] == s[1 + n..];
      ZeroPortOctets(s[1 + n..]);
      assert s == s[..1 + n] + s[1 + n..];
    } else {
      assert s == s[..1 + n];
    }
  }

  lemma DecodeZeroPort(f: U8, ip: Ipv4, extSize: nat)
    requires 0 < extSize <= 4
    ensures DecodeValue(TU8Ipv4U16, [f] + ip + [0, 0], extSize) == Ok(VU8Ipv4U16(f, ip, 0))
    ensures EncodeValue(VU8Ipv4U16(f, ip, 0), extSize) == [f] + ip
  {
    hide BigEndian, Value, Pow256, DecodeExtIds;
    var s := [f] + ip + [0, 0];
    FlagAndAddressBack(f, ip, [0, 0]);
    assert s[5..7] == [0, 0];
    ZeroPortOctets(s[5..7]);
  }

  ghost predicate Reencodes(t: ValueType, s: seq<Octet>, extSize: nat)
    requires 0 < extSize <= 4 && DecodeValue(t, s, extSize).Ok?
  {
    var v := DecodeValue(t, s, extSize).value;
    && TypeOf(v) == t && !HasUnreadTail(v) && Encodable(v, extSize)
    && EncodeValue(v, extSize) == Canonical(t, s)
  }

  /** Every accepted value re-encodes to its canonical spelling, and has the configured type. */
  lemma EncodeOfDecode(t: ValueType, s: seq<Octet>, extSize: nat)
    requires 0 < extSize <= 4 && DecodeValue(t, s, extSize).Ok?
    ensures Reencodes(t, s, extSize)
  {
    hide *;
    match t
    case TU8 | TU16 | TU32 | TU64 => IntegerReencodes(t, s, extSize);
    case TA2U16 | TA2U64 | TU64U8 => PairReencodes(t, s, extSize);
    case TU8String | TU16VU8 => HeadReencodes(t, s, extSize);
    case TU8Ipv4 | TU8Ipv6 => FlagAndAddressReencodes(t, s, extSize);
    case TIpv4U8 | TIpv6U8 => AddressAndMaskReencodes(t, s, extSize);
    case TU8Ipv4U8 | TU8Ipv6U8 => SubnetReencodes(t, s, extSize);
    case TU8Ipv4U16 | TU8Ipv6U16 => ConnectionPointReencodes(t, s, extSize);
    case TBlank | TVU8 | TString | TMac | TVExtId => ListReencodes(t, s, extSize);
  }

  lemma ListReencodes(t: ValueType, s: seq<Octet>, extSize: nat)
    requires 0 < extSize <= 4 && t in {TBlank, TVU8, TString, TMac, TVExtId}
    requires DecodeValue(t, s, extSize).Ok?
    ensures Reencodes(t, s, extSize)
  {
    hide BigEndian, Value, Pow256, TakeInt, Take, DecodeExtIds, EncodeExtIds;
    if t == TVExtId {
      ExtIdsReencode(s, extSize);
    }
  }

  lemma ConnectionPointReencodes(t: ValueType, s: seq<Octet>, extSize: nat)
    requires 0 < extSize <= 4 && t in {TU8Ipv4U16, TU8Ipv6U16} && DecodeValue(t, s, extSize).Ok?
    ensures Reencodes(t, s, extSize)
  {
    var n := if t == TU8Ipv4U16 then 4 else 16;
    assert |s| == 1 + n || |s| == 3 + n;
    ConnectionPointReencode(s, n);
    if |s| == 3 + n {
      assert s[..1 + n] == s[..|s| - 2];
    }
  }

  lemma IntegerReencodes(t: ValueType, s: seq<Octet>, extSize: nat)
    requires 0 < extSize <= 4 && t in {TU8, TU16, TU32, TU64} && DecodeValue(t, s, extSize).Ok?
    ensures Reencodes(t, s, extSize)
  {
    Widths();
    var size := if t == TU8 then 1 else if t == TU16 then 2 else if t == TU32 then 4 else 8;
    TakeIntReencode(s, 0, size);
    assert s == s[0..size];
  }

  lemma PairReencodes(t: ValueType, s: seq<Octet>, extSize: nat)
    requires 0 < extSize <= 4 && t in {TA2U16, TA2U64, TU64U8} && DecodeValue(t, s, extSize).Ok?
    ensures Reencodes(t, s, extSize)
  {
    Widths();
    hide BigEndian, Value, Pow256, DecodeExtIds;
    var m, n := if t == TA2U16 then 2 else 8, if t == TA2U16 then 2 else if t == TA2U64 then 8 else 1;
    TwoIntsReencode(s, m, n);
  }

  lemma HeadReencodes(t: ValueType, s: seq<Octet>, extSize: nat)
    requires 0 < extSize <= 4 && t in {TU8String, TU16VU8} && DecodeValue(t, s, extSize).Ok?
    ensures Reencodes(t, s, extSize)
  {
    Widths();
    hide BigEndian, Value, Pow256, DecodeExtIds;
    var m := if t == TU8String then 1 else 2;
    TakeIntReencode(s, 0, m);
    assert s == s[0..m] + s[m..];
  }

  lemma FlagAndAddressReencodes(t: ValueType, s: seq<Octet>, extSize: nat)
    requires 0 < extSize <= 4 && t in {TU8Ipv4, TU8Ipv6} && DecodeValue(t, s, extSize).Ok?
    ensures Reencodes(t, s, extSize)
  {
    hide BigEndian, Value, Pow256, DecodeExtIds;
    var n := if t == TU8Ipv4 then 4 else 16;
    OneFieldReencode(s, 0);
    assert s == [s[0]] + s[1..1 + n];
  }

  lemma AddressAndMaskReencodes(t: ValueType, s: seq<Octet>, extSize: nat)
    requires 0 < extSize <= 4 && t in {TIpv4U8, TIpv6U8} && DecodeValue(t, s, extSize).Ok?
    ensures Reencodes(t, s, extSize)
  {
    hide BigEndian, Value, Pow256, DecodeExtIds;
    var n := if t == TIpv4U8 then 4 else 16;
    OneFieldReencode(s, n);
    assert s == s[0..n] + [s[n]];
  }

  lemma SubnetReencodes(t: ValueType, s: seq<Octet>, extSize: nat)
    requires 0 < extSize <= 4 && t in {TU8Ipv4U8, TU8Ipv6U8} && DecodeValue(t, s, extSize).Ok?
    ensures Reencodes(t, s, extSize)
  {
    hide BigEndian, Value, Pow256, DecodeExtIds;
    var n := if t == TU8Ipv4U8 then 4 else 16;
    OneFieldReencode(s, 0);
    OneFieldReencode(s, 1 + n);
    assert s == [s[0]] + s[1..1 + n] + [s[1 + n]];
  }

  lemma OneFieldReencode(s: seq<Octet>, at: nat)
    requires at < |s|
    ensures TakeInt(s, at, 1) == Ok((s[at], at + 1))
  {
    assert s[at..at + 1] == [s[at]];
    assert Value([s[at]]) == s[at] by { assert [s[at]][..0] == []; }
  }

  lemma TwoIntsReencode(s: seq<Octet>, m: nat, n: nat)
    requires |s| == m + n
    ensures TakeInt(s, 0, m).Ok? && TakeInt(s, m, n).Ok?
    ensures BigEndian(TakeInt(s, 0, m).value.0, m) + BigEndian(TakeInt(s, m, n).value.0, n) == s
  {
    TakeIntReencode(s, 0, m);
    TakeIntReencode(s, m, n);
    assert s == s[0..m] + s[m..m + n];
  }

  // ----- the octets of a value, one by one -----

  /** What precedes and follows an address on the wire. */
  ghost predicate AddressBetween(s: seq<Octet>, before: seq<Octet>, ip: seq<Octet>, after: seq<Octet>) {
    && |s| == |before| + |ip| + |after|
    && (forall i :: 0 <= i < |before| ==> s[i] == before[i])
    && (forall i :: 0 <= i < |ip| ==> s[|before| + i] == ip[i])
    && (forall i :: 0 <= i < |after| ==> s[|before| + |ip| + i] == after[i])
  }

  /** Flags come in front of an address, a prefix length or port behind it; a port of zero is left out. */
  lemma AddressOctets(v: ItemValue, extSize: nat)
    ensures var s := EncodeValue(v, extSize);
            match v
            case VU8Ipv4(f, ip) => AddressBetween(s, [f], ip, [])
            case VU8Ipv6(f, ip) => AddressBetween(s, [f], ip, [])
            case VIpv4U8(ip, m) => AddressBetween(s, [], ip, [m])
            case VIpv6U8(ip, m) => AddressBetween(s, [], ip, [m])
            case VU8Ipv4U8(f, ip, m) => AddressBetween(s, [f], ip, [m])
            case VU8Ipv6U8(f, ip, m) => AddressBetween(s, [f], ip, [m])
            case VU8Ipv4U16(f, ip, port) => AddressBetween(s, [f], ip, if port == 0 then [] else [port / 256, port % 256])
            case VU8Ipv6U16(f, ip, port) => AddressBetween(s, [f], ip, if port == 0 then [] else [port / 256, port % 256])
            case _ => true
  {
    match v
    case VU8Ipv4U16(_, _, port) => TwoOctets(port);
    case VU8Ipv6U16(_, _, port) => TwoOctets(port);
    case _ =>
  }

  lemma TwoOctets(n: U16)
    ensures BigEndian(n, 2) == [n / 256, n % 256]
  {
    OneOctet(n / 256);
  }

  /**
   Integers take the width of their type, most significant octet first, and stand in the order of
   the fields; everything else is copied as it is.
   */
  lemma FieldOctets(v: ItemValue, extSize: nat, k: nat)
    ensures var s := EncodeValue(v, extSize);
            match v
            case VU8(n) => s == [n]
            case VU16(n) => s == [n / 256, n % 256]
            case VU32(n) => |s| == 4 && (k < 4 ==> s[k] == (n / Pow256(3 - k)) % 256)
            case VU64(n) => |s| == 8 && (k < 8 ==> s[k] == (n / Pow256(7 - k)) % 256)
            case VA2U16(a, b) => s == [a / 256, a % 256, b / 256, b % 256]
            case VA2U64(a, b) =>
              |s| == 16 && (k < 8 ==> s[k] == (a / Pow256(7 - k)) % 256 && s[8 + k] == (b / Pow256(7 - k)) % 256)
            case VU64U8(a, b) => |s| == 9 && s[8] == b && (k < 8 ==> s[k] == (a / Pow256(7 - k)) % 256)
            case VOctets(t) => s == t
            case VString(t) => s == t
            case VMac(t) => s == t
            case VExtIds(ids) => ids != [] ==> s == BigEndian(ids[0], extSize) + EncodeExtIds(ids[1..], extSize)
            case VU8String(c, t) => s == [c] + t
            case VU16Octets(a, t) => s == [a / 256, a % 256] + t
            case _ => true
  {
    hide BigEndian, Pow256;
    match v
    case VU8(n) => OneOctet(n);
    case VU16(n) => TwoOctets(n);
    case VU32(n) => if k < 4 { BigEndianAt(n, 4, k); }
    case VU64(n) => if k < 8 { BigEndianAt(n, 8, k); }
    case VA2U16(a, b) => TwoOctets(a); TwoOctets(b);
    case VA2U64(a, b) => if k < 8 { BigEndianAt(a, 8, k); BigEndianAt(b, 8, k); }
    case VU64U8(a, b) => OneOctet(b); if k < 8 { BigEndianAt(a, 8, k); }
    case VU8String(c, t) => OneOctet(c);
    case VU16Octets(a, t) => TwoOctets(a);
    case _ =>
  }
}
