/**
 Lists of IP data items that act as sets of addresses (`ip_equal`, `ip_flags` and
 `find_ip_data_item` in DataItem.cpp, `update_ip_data_items` in InfoBaseMgr.cpp).
 */
module IpLists {
  import opened Octets
  import opened Outcomes
  import opened DataItems

  /** The `ip_equal` visitor: same type, same address and, for draft 17 subnets, same prefix. */
  predicate IpEqual(a: ItemValue, b: ItemValue) {
    TypeOf(a) == TypeOf(b) &&
    match a
    case VU8Ipv4(_, ip) => ip == b.ip4
    case VIpv4U8(ip, _) => ip == b.ip4a
    case VU8Ipv6(_, ip) => ip == b.ip6
    case VIpv6U8(ip, _) => ip == b.ip6a
    case VU8Ipv4U8(_, ip, m) => ip == b.ip4s && m == b.prefix4
    case VU8Ipv6U8(_, ip, m) => ip == b.ip6s && m == b.prefix6
    case _ => false
  }

  /** The `ip_flags` visitor; subnets of draft 8 have no flags field and count as added. */
  function IpFlags(v: ItemValue): U8 {
    match v
    case VU8Ipv4(f, _) => f
    case VU8Ipv6(f, _) => f
    case VU8Ipv4U8(f, _, _) => f
    case VU8Ipv6U8(f, _, _) => f
    case VIpv4U8(_, _) => 1
    case VIpv6U8(_, _) => 1
    case _ => 0
  }

  /** `ip_flags() & IPFlags::add`. */
  predicate Adding(v: ItemValue) {
    IpFlags(v) % 2 == 1
  }

  /** What an IP data item is about, whatever is being done with it. */
  datatype Key = Key(kind: ValueType, address: seq<Octet>, prefix: nat)

  function KeyOf(v: ItemValue): Option<Key> {
    match v
    case VU8Ipv4(_, ip) => Some(Key(TU8Ipv4, ip, 0))
    case VIpv4U8(ip, _) => Some(Key(TIpv4U8, ip, 0))
    case VU8Ipv6(_, ip) => Some(Key(TU8Ipv6, ip, 0))
    case VIpv6U8(ip, _) => Some(Key(TIpv6U8, ip, 0))
    case VU8Ipv4U8(_, ip, m) => Some(Key(TU8Ipv4U8, ip, m))
    case VU8Ipv6U8(_, ip, m) => Some(Key(TU8Ipv6U8, ip, m))
    case _ => None
  }

  /** `ip_equal` is equality of keys: reflexive on IP items, symmetric and transitive. */
  lemma IpEqualIsKeyEquality(a: ItemValue, b: ItemValue)
    ensures IpEqual(a, b) <==> KeyOf(a).Some? && KeyOf(a) == KeyOf(b)
  {
  }

  lemma AddingHasKey(v: ItemValue)
    requires Adding(v)
    ensures KeyOf(v).Some?
  {
  }

  // ----- one update -----

  /** Position of the first item that is `ip_equal` to `v`, or the length of the list. */
  function FirstEqual(items: seq<DataItem>, v: ItemValue): (i: nat)
    ensures i <= |items|
    ensures forall k :: 0 <= k < i ==> !IpEqual(items[k].value, v)
    ensures i < |items| ==> IpEqual(items[i].value, v)
  {
    if items == [] || IpEqual(items[0].value, v) then 0 else 1 + FirstEqual(items[1..], v)
  }

  function UpdateIp(items: seq<DataItem>, di: DataItem): seq<DataItem> {
    var i := FirstEqual(items, di.value);
    if i < |items| then (if Adding(di.value) then items else items[..i] + items[i + 1..])
    else if Adding(di.value) then items + [di]
    else items
  }

  /** `update_ip_data_items`: look for the address; erase it, append it, or leave the list alone. */
  method UpdateIpDataItems(items: seq<DataItem>, di: DataItem) returns (out: seq<DataItem>)
    ensures out == UpdateIp(items, di)
  {
    hide IpEqual, IpFlags;
    var adding := Adding(di.value);
    var it := 0;
    while it < |items|
      invariant it <= |items|
      invariant it + FirstEqual(items[it..], di.value) == FirstEqual(items, di.value)
    {
      if IpEqual(items[it].value, di.value) {
        return if adding then items else items[..it] + items[it + 1..];
      }
      assert items[it..][1..] == items[it + 1..];
      it := it + 1;
    }
    out := if adding then items + [di] else items;
  }

  // ----- the list as a set -----

  predicate HasKey(items: seq<DataItem>, k: Key) {
    exists i :: 0 <= i < |items| && KeyOf(items[i].value) == Some(k)
  }

  /** Every item is an address, and no two are `ip_equal`. */
  ghost predicate IsSet(items: seq<DataItem>) {
    && (forall i :: 0 <= i < |items| ==> KeyOf(items[i].value).Some?)
    && (forall i, j :: 0 <= i < j < |items| ==> !IpEqual(items[i].value, items[j].value))
  }

  /** The same, by keys. */
  ghost predicate DistinctKeys(items: seq<DataItem>) {
    && (forall i :: 0 <= i < |items| ==> KeyOf(items[i].value).Some?)
    && (forall i, j :: 0 <= i < j < |items| ==> KeyOf(items[i].value) != KeyOf(items[j].value))
  }

  lemma SetByKeys(items: seq<DataItem>)
    ensures IsSet(items) <==> DistinctKeys(items)
  {
    forall i, j | 0 <= i < |items| && 0 <= j < |items|
      ensures IpEqual(items[i].value, items[j].value)
              <==> KeyOf(items[i].value).Some? && KeyOf(items[i].value) == KeyOf(items[j].value)
    {
      IpEqualIsKeyEquality(items[i].value, items[j].value);
    }
    hide IpEqual, KeyOf;
  }

  lemma ErasedKey(items: seq<DataItem>, i: nat, k: Key)
    requires DistinctKeys(items) && i < |items|
    ensures var out := items[..i] + items[i + 1..];
            DistinctKeys(out) && (HasKey(out, k) <==> HasKey(items, k) && KeyOf(items[i].value) != Some(k))
  {
    hide KeyOf;
    var out := items[..i] + items[i + 1..];
    assert forall j :: 0 <= j < |out| ==> out[j] == items[if j < i then j else j + 1];
    if HasKey(items, k) && KeyOf(items[i].value) != Some(k) {
      var j :| 0 <= j < |items| && KeyOf(items[j].value) == Some(k);
      assert out[if j < i then j else j - 1] == items[j];
    }
  }

  lemma AppendedKey(items: seq<DataItem>, di: DataItem, k: Key)
    requires DistinctKeys(items) && KeyOf(di.value).Some?
    requires forall j :: 0 <= j < |items| ==> KeyOf(items[j].value) != KeyOf(di.value)
    ensures DistinctKeys(items + [di]) && (HasKey(items + [di], k) <==> HasKey(items, k) || KeyOf(di.value) == Some(k))
  {
    hide KeyOf;
    var out := items + [di];
    assert out[|items|] == di;
    if HasKey(items, k) {
      var j :| 0 <= j < |items| && KeyOf(items[j].value) == Some(k);
      assert out[j] == items[j];
    }
  }

  /** One update keeps the list a set, and changes membership of exactly its own address. */
  lemma UpdateKeepsSet(items: seq<DataItem>, di: DataItem, k: Key)
    requires IsSet(items)
    ensures IsSet(UpdateIp(items, di))
    ensures HasKey(UpdateIp(items, di), k) <==> if KeyOf(di.value) == Some(k) then Adding(di.value) else HasKey(items, k)
  {
    hide IpEqual, KeyOf, IpFlags, Adding, FirstEqual, IsSet, DistinctKeys;
    var i := FirstEqual(items, di.value);
    SetByKeys(items);
    SetByKeys(UpdateIp(items, di));
    forall j | 0 <= j < |items|
      ensures IpEqual(items[j].value, di.value) <==> KeyOf(items[j].value).Some? && KeyOf(items[j].value) == KeyOf(di.value)
    {
      IpEqualIsKeyEquality(items[j].value, di.value);
    }
    if Adding(di.value) {
      AddingHasKey(di.value);
    }
    if i < |items| {
      ErasedKey(items, i, k);
      assert KeyOf(di.value) == Some(k) ==> HasKey(items, k);
    } else {
      NotListed(items, di, k);
      if Adding(di.value) {
        AppendedKey(items, di, k);
      }
    }
  }

  lemma NotListed(items: seq<DataItem>, di: DataItem, k: Key)
    requires IsSet(items) && forall j :: 0 <= j < |items| ==> !IpEqual(items[j].value, di.value)
    ensures forall j :: 0 <= j < |items| ==> KeyOf(items[j].value) != KeyOf(di.value)
    ensures KeyOf(di.value) == Some(k) ==> !HasKey(items, k)
  {
    forall j | 0 <= j < |items| ensures KeyOf(items[j].value) != KeyOf(di.value) {
      IpEqualIsKeyEquality(items[j].value, di.value);
    }
    hide IpEqual, KeyOf;
  }

  // ----- any sequence of updates -----

  function UpdateAll(items: seq<DataItem>, dis: seq<DataItem>): seq<DataItem>
    decreases |dis|
  {
    if dis == [] then items else UpdateAll(UpdateIp(items, dis[0]), dis[1..])
  }

  /** Whether the last operation on an address was an add; `None` if there was none. */
  function LastOp(dis: seq<DataItem>, k: Key): Option<bool>
    decreases |dis|
  {
    if dis == [] then None
    else
      var later := LastOp(dis[1..], k);
      if later.Some? then later
      else if KeyOf(dis[0].value) == Some(k) then Some(Adding(dis[0].value))
      else None
  }

  /**
   After any sequence of adds and drops the list has no two equal addresses, and holds exactly
   those whose last operation was an add, or that were there and never mentioned.
   */
  lemma {:induction false} ListIsASet(items: seq<DataItem>, dis: seq<DataItem>, k: Key)
    requires IsSet(items)
    ensures IsSet(UpdateAll(items, dis))
    ensures HasKey(UpdateAll(items, dis), k)
            <==> match LastOp(dis, k) case Some(added) => added case None => HasKey(items, k)
    decreases |dis|
  {
    hide IpEqual, KeyOf, IpFlags, UpdateIp, IsSet, HasKey;
    if dis != [] {
      UpdateKeepsSet(items, dis[0], k);
      ListIsASet(UpdateIp(items, dis[0]), dis[1..], k);
    }
  }

  // ----- what a peer sees of all this on the wire -----

  /** An address item that starts with an octet of flags. */
  predicate Flagged(v: ItemValue) {
    v.VU8Ipv4? || v.VU8Ipv6? || v.VU8Ipv4U8? || v.VU8Ipv6U8?
  }

  /** A draft 8 subnet: an address and a prefix length, without flags. */
  predicate Unflagged(v: ItemValue) {
    v.VIpv4U8? || v.VIpv6U8?
  }

  /** An item adds its address if the lowest bit of its flags octet is set; without flags it always does. */
  lemma AddingOnTheWire(v: ItemValue, extSize: nat)
    ensures Adding(v) <==> Unflagged(v) || (Flagged(v) && EncodeValue(v, extSize)[0] % 2 == 1)
  {
  }

  /** The same octets behind the flags, or, without flags, the same octets in front of the prefix length. */
  predicate SameOnTheWire(a: ItemValue, b: ItemValue, extSize: nat) {
    var s, t := EncodeValue(a, extSize), EncodeValue(b, extSize);
    || (Flagged(a) && |s| > 0 && |t| > 0 && s[1..] == t[1..])
    || (Unflagged(a) && |s| > 0 && |t| > 0 && s[..|s| - 1] == t[..|t| - 1])
  }

  /**
   Items with flags are equal if all octets behind the flags are; items without flags if the
   addresses are, whatever the prefix lengths; and others never.
   */
  lemma IpEqualOnTheWire(a: ItemValue, b: ItemValue, extSize: nat)
    requires TypeOf(a) == TypeOf(b)
    ensures IpEqual(a, b) <==> SameOnTheWire(a, b, extSize)
  {
    hide BigEndian, EncodeExtIds, EncodeValue, SameOnTheWire;
    match a
    case VU8Ipv4(_, _) => AddressesOnTheWire(a, b, extSize);
    case VU8Ipv6(_, _) => AddressesOnTheWire(a, b, extSize);
    case VIpv4U8(_, _) => OldSubnetsOnTheWire(a, b, extSize);
    case VIpv6U8(_, _) => OldSubnetsOnTheWire(a, b, extSize);
    case VU8Ipv4U8(_, _, _) => SubnetsOnTheWire(a, b, extSize);
    case VU8Ipv6U8(_, _, _) => SubnetsOnTheWire(a, b, extSize);
    case _ => assert !SameOnTheWire(a, b, extSize) by { NoAddressNoMatch(a, b, extSize); }
  }

  lemma NoAddressNoMatch(a: ItemValue, b: ItemValue, extSize: nat)
    requires !Flagged(a) && !Unflagged(a)
    ensures !SameOnTheWire(a, b, extSize)
  {
  }

  lemma AddressesOnTheWire(a: ItemValue, b: ItemValue, extSize: nat)
    requires TypeOf(a) == TypeOf(b) && (a.VU8Ipv4? || a.VU8Ipv6?)
    ensures IpEqual(a, b) <==> SameOnTheWire(a, b, extSize)
  {
    hide BigEndian, EncodeExtIds;
    if a.VU8Ipv4? {
      FlagThenTail(a.flags4, a.ip4, b.flags4, b.ip4);
    } else {
      FlagThenTail(a.flags6, a.ip6, b.flags6, b.ip6);
    }
  }

  lemma OldSubnetsOnTheWire(a: ItemValue, b: ItemValue, extSize: nat)
    requires TypeOf(a) == TypeOf(b) && Unflagged(a)
    ensures IpEqual(a, b) <==> SameOnTheWire(a, b, extSize)
  {
    hide BigEndian, EncodeExtIds;
    if a.VIpv4U8? {
      AddressAndPrefix(a.ip4a, a.mask4, b.ip4a, b.mask4);
    } else {
      AddressAndPrefix(a.ip6a, a.mask6, b.ip6a, b.mask6);
    }
  }

  lemma SubnetsOnTheWire(a: ItemValue, b: ItemValue, extSize: nat)
    requires TypeOf(a) == TypeOf(b) && (a.VU8Ipv4U8? || a.VU8Ipv6U8?)
    ensures IpEqual(a, b) <==> SameOnTheWire(a, b, extSize)
  {
    hide BigEndian, EncodeExtIds;
    if a.VU8Ipv4U8? {
      FlaggedSubnet(a.flags4s, a.ip4s, a.prefix4, b.flags4s, b.ip4s, b.prefix4);
    } else {
      FlaggedSubnet(a.flags6s, a.ip6s, a.prefix6, b.flags6s, b.ip6s, b.prefix6);
    }
  }

  lemma FlagThenTail(f: U8, tail: seq<Octet>, f': U8, tail': seq<Octet>)
    ensures ([f] + tail)[1..] == tail && ([f'] + tail')[1..] == tail'
  {
  }

  lemma FlaggedSubnet(f: U8, ip: seq<Octet>, m: U8, f': U8, ip': seq<Octet>, m': U8)
    requires |ip| == |ip'|
    ensures ([f] + ip + [m])[1..] == ([f'] + ip' + [m'])[1..] <==> ip == ip' && m == m'
  {
    assert ([f] + ip + [m])[1..] == ip + [m] && ([f'] + ip' + [m'])[1..] == ip' + [m'];
    AddressAndPrefix(ip, m, ip', m');
  }

  lemma AddressAndPrefix(ip: seq<Octet>, m: U8, ip': seq<Octet>, m': U8)
    requires |ip| == |ip'|
    ensures (ip + [m])[..|ip + [m]| - 1] == ip && (ip' + [m'])[..|ip' + [m']| - 1] == ip'
    ensures ip + [m] == ip' + [m'] <==> ip == ip' && m == m'
  {
    var s, t := ip + [m], ip' + [m'];
    assert s[..|ip|] == ip && t[..|ip|] == ip' && s[|ip|] == m && t[|ip|] == m';
  }

  /** What stays on the list stays in its order; a new address goes to the end. */
  lemma UpdateIsStable(items: seq<DataItem>, di: DataItem)
    ensures var out := UpdateIp(items, di);
            if Adding(di.value) then items <= out && |out| <= |items| + 1 && (out != items ==> out[|items|] == di)
            else || out == items
                 || exists i :: 0 <= i < |items| && IpEqual(items[i].value, di.value) && out == items[..i] + items[i + 1..]
  {
    hide IpEqual, IpFlags, FirstEqual;
  }
}
