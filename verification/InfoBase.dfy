/**
 The information base (InfoBaseMgr.cpp) and the check that no IP address gets two owners
 (`validate_ip_data_items` and `handle_peer_update` in Peer.cpp; section 13.8.1 of RFC 8175).
 */
module InfoBase {
  import opened Octets
  import opened Outcomes
  import opened DataItems
  import opened ProtocolConfig
  import opened IpLists

  datatype Destination = Destination(metrics: map<U32, DataItem>, ips: seq<DataItem>)
  datatype PeerData = PeerData(metrics: map<U32, DataItem>, ips: seq<DataItem>, dests: map<Mac, Destination>)

  /** The local node and every peer, by peer id. */
  datatype World = World(local: PeerData, peers: map<string, PeerData>)

  // ----- who owns an address -----

  datatype Owner = LocalNode | LocalDest(mac: Mac) | PeerNode(id: string) | PeerDest(id: string, mac: Mac)

  function DestIps(pd: PeerData, m: Mac): seq<DataItem> {
    if m in pd.dests then pd.dests[m].ips else []
  }

  function IpsOf(w: World, o: Owner): seq<DataItem> {
    match o
    case LocalNode => w.local.ips
    case LocalDest(m) => DestIps(w.local, m)
    case PeerNode(p) => if p in w.peers then w.peers[p].ips else []
    case PeerDest(p, m) => if p in w.peers then DestIps(w.peers[p], m) else []
  }

  /** Each list is a set, and no address is on the lists of two owners. */
  ghost predicate OwnedOnce(w: World) {
    && (forall o :: IsSet(IpsOf(w, o)))
    && (forall o, o', k :: HasKey(IpsOf(w, o), k) && HasKey(IpsOf(w, o'), k) ==> o == o')
  }

  // ----- the checks -----

  predicate HasItem(items: seq<DataItem>, v: ItemValue) {
    exists i :: 0 <= i < |items| && IpEqual(v, items[i].value)
  }

  /** `PeerData::find_ip_data_item`: on the peer itself or on one of its destinations. */
  predicate FindIp(pd: PeerData, v: ItemValue) {
    HasItem(pd.ips, v) || exists m :: m in pd.dests && HasItem(pd.dests[m].ips, v)
  }

  predicate OwnedSomewhere(w: World, v: ItemValue) {
    FindIp(w.local, v) || exists p :: p in w.peers && FindIp(w.peers[p], v)
  }

  /** What `validate_ip_data_items` asks of one new item. */
  predicate ItemAllowed(c: Config, w: World, existing: seq<DataItem>, di: DataItem)
    requires di.id in c.items
  {
    c.IsIpAddr(di.id) ==>
      if Adding(di.value) then !OwnedSomewhere(w, di.value) else HasItem(existing, di.value)
  }

  /** `DataItem::find_ip_data_item`. */
  method FindIpDataItem(items: seq<DataItem>, v: ItemValue) returns (found: bool)
    ensures found <==> HasItem(items, v)
  {
    for i := 0 to |items|
      invariant forall k :: 0 <= k < i ==> !IpEqual(v, items[k].value)
    {
      if IpEqual(v, items[i].value) {
        return true;
      }
    }
    found := false;
  }

  /** `PeerData::find_ip_data_item`, with the destinations in any order. */
  method FindOnPeer(pd: PeerData, v: ItemValue) returns (found: bool)
    ensures found <==> FindIp(pd, v)
  {
    found := FindIpDataItem(pd.ips, v);
    var todo := pd.dests.Keys;
    while todo != {} && !found
      invariant todo <= pd.dests.Keys
      invariant found ==> FindIp(pd, v)
      invariant !found ==> !HasItem(pd.ips, v) && forall m :: m in pd.dests.Keys - todo ==> !HasItem(pd.dests[m].ips, v)
      decreases todo
    {
      var m :| m in todo;
      todo := todo - {m};
      found := FindIpDataItem(pd.dests[m].ips, v);
    }
  }

  /** The search of `validate_ip_data_items` for an owner: the local node, then every peer. */
  method FindOwner(w: World, v: ItemValue) returns (found: bool)
    ensures found <==> OwnedSomewhere(w, v)
  {
    found := FindOnPeer(w.local, v);
    var todo := w.peers.Keys;
    while todo != {} && !found
      invariant todo <= w.peers.Keys
      invariant found ==> OwnedSomewhere(w, v)
      invariant !found ==> !FindIp(w.local, v) && forall p :: p in w.peers.Keys - todo ==> !FindIp(w.peers[p], v)
      decreases todo
    {
      var p :| p in todo;
      todo := todo - {p};
      found := FindOnPeer(w.peers[p], v);
    }
  }

  /** `validate_ip_data_items`: stop at the first inconsistency. */
  method ValidateIpDataItems(c: Config, w: World, items: seq<DataItem>, existing: seq<DataItem>) returns (ok: bool)
    requires forall i :: 0 <= i < |items| ==> items[i].id in c.items
    ensures ok <==> forall i :: 0 <= i < |items| ==> ItemAllowed(c, w, existing, items[i])
  {
    for n := 0 to |items|
      invariant forall i :: 0 <= i < n ==> ItemAllowed(c, w, existing, items[i])
    {
      if c.IsIpAddr(items[n].id) {
        if Adding(items[n].value) {
          var owned := FindOwner(w, items[n].value);
          if owned {
            assert !ItemAllowed(c, w, existing, items[n]);
            return false;
          }
        } else {
          var there := FindIpDataItem(existing, items[n].value);
          if !there {
            assert !ItemAllowed(c, w, existing, items[n]);
            return false;
          }
        }
      }
    }
    ok := true;
  }

  lemma FoundMeansOwner(w: World, v: ItemValue, o: Owner, k: Key)
    requires KeyOf(v) == Some(k) && HasKey(IpsOf(w, o), k)
    ensures OwnedSomewhere(w, v)
  {
    var items := IpsOf(w, o);
    var i :| 0 <= i < |items| && KeyOf(items[i].value) == Some(k);
    IpEqualIsKeyEquality(v, items[i].value);
    hide IpEqual, KeyOf;
    assert HasItem(items, v);
    match o
    case LocalNode => assert FindIp(w.local, v);
    case LocalDest(m) => assert m in w.local.dests && FindIp(w.local, v);
    case PeerNode(p) => assert p in w.peers && FindIp(w.peers[p], v);
    case PeerDest(p, m) => assert p in w.peers && m in w.peers[p].dests && FindIp(w.peers[p], v);
  }

  // ----- update_data_items -----

  /** A metric that the peer has not reported before. */
  predicate UnknownMetric(c: Config, pd: PeerData, di: DataItem)
    requires di.id in c.items
  {
    c.items[di.id].metric && di.id !in pd.metrics
  }

  function ApplyMetrics(c: Config, metrics: map<U32, DataItem>, items: seq<DataItem>): map<U32, DataItem>
    requires forall i :: 0 <= i < |items| ==> items[i].id in c.items
    decreases |items|
  {
    if items == [] then metrics
    else
      var di := items[|items| - 1];
      var before := ApplyMetrics(c, metrics, items[..|items| - 1]);
      if c.items[di.id].metric then before[di.id := di] else before
  }

  /** The IP items among the updates: not metrics, and of an address type. */
  function IpUpdates(c: Config, items: seq<DataItem>): seq<DataItem>
    requires forall i :: 0 <= i < |items| ==> items[i].id in c.items
    decreases |items|
  {
    if items == [] then []
    else
      var di := items[|items| - 1];
      var before := IpUpdates(c, items[..|items| - 1]);
      if !c.items[di.id].metric && c.IsIpAddr(di.id) then before + [di] else before
  }

  ghost predicate Known(c: Config, pd: PeerData, items: seq<DataItem>)
    requires forall i :: 0 <= i < |items| ==> items[i].id in c.items
  {
    forall i :: 0 <= i < |items| ==> !UnknownMetric(c, pd, items[i])
  }

  /** What an accepted update makes of the peer's data. */
  ghost function Updated(c: Config, pd: PeerData, items: seq<DataItem>): PeerData
    requires forall i :: 0 <= i < |items| ==> items[i].id in c.items
  {
    PeerData(ApplyMetrics(c, pd.metrics, items),
             UpdateAll(pd.ips, IpUpdates(c, items)),
             map m | m in pd.dests :: Destination(ApplyMetrics(c, pd.dests[m].metrics, items), pd.dests[m].ips))
  }

  lemma {:induction false} UpdateAllSnoc(items: seq<DataItem>, dis: seq<DataItem>, di: DataItem)
    ensures UpdateAll(items, dis + [di]) == UpdateIp(UpdateAll(items, dis), di)
    decreases |dis|
  {
    hide UpdateIp;
    if dis == [] {
      assert [di][1..] == [] && [] + [di] == [di];
    } else {
      assert (dis + [di])[1..] == dis[1..] + [di];
      UpdateAllSnoc(UpdateIp(items, dis[0]), dis[1..], di);
    }
  }

  /** A destination's metrics follow the peer's; its addresses are its own. */
  method UpdateDestinations(c: Config, dests: map<Mac, Destination>, items: seq<DataItem>) returns (out: map<Mac, Destination>)
    requires forall i :: 0 <= i < |items| ==> items[i].id in c.items
    ensures out == map m | m in dests :: Destination(ApplyMetrics(c, dests[m].metrics, items), dests[m].ips)
  {
    var todo := dests.Keys;
    out := map[];
    while todo != {}
      invariant todo <= dests.Keys && out.Keys == dests.Keys - todo
      invariant forall m :: m in out ==> out[m] == Destination(ApplyMetrics(c, dests[m].metrics, items), dests[m].ips)
      decreases todo
    {
      var m :| m in todo;
      out := out[m := Destination(ApplyMetrics(c, dests[m].metrics, items), dests[m].ips)];
      todo := todo - {m};
    }
  }

  class PeerRecord {
    var metrics: map<U32, DataItem>
    var ips: seq<DataItem>
    var dests: map<Mac, Destination>

    ghost function Value(): PeerData
      reads this
    {
      PeerData(metrics, ips, dests)
    }

    constructor (pd: PeerData)
      ensures Value() == pd
    {
      metrics, ips, dests := pd.metrics, pd.ips, pd.dests;
    }

    /** `PeerData::update_data_items`: an unknown metric changes nothing; otherwise every item is applied. */
    method UpdateDataItems(c: Config, items: seq<DataItem>) returns (ok: bool)
      requires forall i :: 0 <= i < |items| ==> items[i].id in c.items
      modifies this
      ensures ok <==> old(Known(c, Value(), items))
      ensures Value() == if ok then Updated(c, old(Value()), items) else old(Value())
    {
      hide UpdateIp, UpdateAll;
      for n := 0 to |items|
        invariant forall i :: 0 <= i < n ==> !UnknownMetric(c, Value(), items[i])
        invariant Value() == old(Value())
      {
        if c.items[items[n].id].metric && items[n].id !in metrics {
          assert UnknownMetric(c, Value(), items[n]);
          return false;
        }
      }
      UpdateAllNothing(ips);
      for n := 0 to |items|
        invariant metrics == ApplyMetrics(c, old(metrics), items[..n])
        invariant ips == UpdateAll(old(ips), IpUpdates(c, items[..n]))
        invariant dests == old(dests)
      {
        var di := items[n];
        assert items[..n + 1][..n] == items[..n];
        if c.items[di.id].metric {
          metrics := metrics[di.id := di];
        } else if c.IsIpAddr(di.id) {
          UpdateAllSnoc(old(ips), IpUpdates(c, items[..n]), di);
          ips := UpdateIpDataItems(ips, di);
        }
      }
      assert items[..|items|] == items;
      dests := UpdateDestinations(c, dests, items);
      ok := true;
    }
  }

  lemma UpdateAllNothing(items: seq<DataItem>)
    ensures UpdateAll(items, []) == items
  {
  }

  // ----- handle_peer_update -----

  /** What a Session Update from peer `p` makes of the information base, if it is not rejected. */
  ghost function AfterUpdate(c: Config, w: World, p: string, items: seq<DataItem>): World
    requires p in w.peers && forall i :: 0 <= i < |items| ==> items[i].id in c.items
  {
    if Known(c, w.peers[p], items) then w.(peers := w.peers[p := Updated(c, w.peers[p], items)]) else w
  }

  ghost predicate Accepted(c: Config, w: World, p: string, items: seq<DataItem>)
    requires p in w.peers && forall i :: 0 <= i < |items| ==> items[i].id in c.items
  {
    forall i :: 0 <= i < |items| ==> ItemAllowed(c, w, w.peers[p].ips, items[i])
  }

  lemma {:induction false} IpUpdatesAllowed(c: Config, w: World, existing: seq<DataItem>, items: seq<DataItem>, k: Key)
    requires forall i :: 0 <= i < |items| ==> items[i].id in c.items
    requires forall i :: 0 <= i < |items| ==> ItemAllowed(c, w, existing, items[i])
    ensures forall di :: di in IpUpdates(c, items) && KeyOf(di.value) == Some(k) && Adding(di.value) ==> !OwnedSomewhere(w, di.value)
    decreases |items|
  {
    hide OwnedSomewhere, KeyOf, IpFlags, HasItem;
    if items != [] {
      var di := items[|items| - 1];
      assert ItemAllowed(c, w, existing, di);
      IpUpdatesAllowed(c, w, existing, items[..|items| - 1], k);
    }
  }

  lemma {:induction false} LastAddIsAnItem(dis: seq<DataItem>, k: Key)
    requires LastOp(dis, k) == Some(true)
    ensures exists di :: di in dis && KeyOf(di.value) == Some(k) && Adding(di.value)
    decreases |dis|
  {
    hide KeyOf, IpFlags;
    if LastOp(dis[1..], k).Some? {
      LastAddIsAnItem(dis[1..], k);
      var di :| di in dis[1..] && KeyOf(di.value) == Some(k) && Adding(di.value);
      assert di in dis;
    } else {
      assert dis[0] in dis;
    }
  }

  /**
   An address that the update newly gives to the peer was owned by nobody: repeated items in one
   message make no difference.
   */
  lemma NewAddressWasUnowned(c: Config, w: World, p: string, items: seq<DataItem>, k: Key, o: Owner)
    requires p in w.peers && forall i :: 0 <= i < |items| ==> items[i].id in c.items
    requires OwnedOnce(w) && Accepted(c, w, p, items)
    requires HasKey(UpdateAll(w.peers[p].ips, IpUpdates(c, items)), k) && !HasKey(w.peers[p].ips, k)
    ensures !HasKey(IpsOf(w, o), k)
  {
    hide KeyOf, IpFlags, IpEqual, UpdateAll, HasKey, IsSet, OwnedSomewhere;
    var ups := IpUpdates(c, items);
    assert IsSet(IpsOf(w, PeerNode(p)));
    ListIsASet(w.peers[p].ips, ups, k);
    LastAddIsAnItem(ups, k);
    var di :| di in ups && KeyOf(di.value) == Some(k) && Adding(di.value);
    IpUpdatesAllowed(c, w, w.peers[p].ips, items, k);
    if HasKey(IpsOf(w, o), k) {
      FoundMeansOwner(w, di.value, o, k);
    }
  }

  /** The lists after an accepted update: only the peer's own one has changed. */
  lemma IpsAfterUpdate(c: Config, w: World, p: string, items: seq<DataItem>, o: Owner)
    requires p in w.peers && forall i :: 0 <= i < |items| ==> items[i].id in c.items
    ensures var w' := AfterUpdate(c, w, p, items);
            IpsOf(w', o) == if o == PeerNode(p) && Known(c, w.peers[p], items)
                            then UpdateAll(w.peers[p].ips, IpUpdates(c, items)) else IpsOf(w, o)
  {
    hide UpdateAll, IpUpdates, ApplyMetrics;
  }

  /**
   If every address has at most one owner among the local node, all peers and all their
   destinations, that is still so after any Session Update that is not rejected.
   */
  lemma SessionUpdateKeepsOwnership(c: Config, w: World, p: string, items: seq<DataItem>)
    requires p in w.peers && forall i :: 0 <= i < |items| ==> items[i].id in c.items
    requires OwnedOnce(w) && Accepted(c, w, p, items)
    ensures OwnedOnce(AfterUpdate(c, w, p, items))
  {
    hide KeyOf, IpFlags, IpEqual, UpdateAll, HasKey, IsSet, IpUpdates, AfterUpdate, Accepted, Known, IpsOf;
    var w' := AfterUpdate(c, w, p, items);
    var me := PeerNode(p);
    forall o ensures IsSet(IpsOf(w', o)) {
      IpsAfterUpdate(c, w, p, items, o);
      assert IsSet(IpsOf(w, o));
      if o == me {
        MyIps(w, p);
        ListIsASet(w.peers[p].ips, IpUpdates(c, items), Key(TBlank, [], 0));
      }
    }
    forall o, o', k | HasKey(IpsOf(w', o), k) && HasKey(IpsOf(w', o'), k) ensures o == o' {
      if o != o' {
        StillUnique(c, w, p, items, o, o', k);
      }
    }
  }

  lemma MyIps(w: World, p: string)
    requires p in w.peers
    ensures IpsOf(w, PeerNode(p)) == w.peers[p].ips
  {
  }

  lemma StillUnique(c: Config, w: World, p: string, items: seq<DataItem>, o: Owner, o': Owner, k: Key)
    requires p in w.peers && forall i :: 0 <= i < |items| ==> items[i].id in c.items
    requires OwnedOnce(w) && Accepted(c, w, p, items) && o != o'
    requires HasKey(IpsOf(AfterUpdate(c, w, p, items), o), k)
    ensures !HasKey(IpsOf(AfterUpdate(c, w, p, items), o'), k)
  {
    hide UpdateAll, HasKey, IsSet, IpUpdates, AfterUpdate, Accepted, Known, IpsOf;
    IpsAfterUpdate(c, w, p, items, o);
    IpsAfterUpdate(c, w, p, items, o');
    MyIps(w, p);
    var after := UpdateAll(w.peers[p].ips, IpUpdates(c, items));
    if HasKey(after, k) && !HasKey(w.peers[p].ips, k) {
      NewAddressWasUnowned(c, w, p, items, k, o);
      NewAddressWasUnowned(c, w, p, items, k, o');
    }
  }

  // ----- handle_destination_up -----

  /** A new destination of peer `p`; inconsistent addresses are logged, and stored all the same. */
  ghost function AfterDestinationUp(c: Config, w: World, p: string, m: Mac, items: seq<DataItem>): World
    requires p in w.peers && forall i :: 0 <= i < |items| ==> items[i].id in c.items
  {
    var pd := w.peers[p];
    var d := Destination(ApplyMetrics(c, map[], items), UpdateAll([], IpUpdates(c, items)));
    w.(peers := w.peers[p := pd.(dests := pd.dests[m := d])])
  }

  /** No address whose last operation in `ups` is an add has an owner yet. */
  ghost predicate AddsUnowned(w: World, ups: seq<DataItem>) {
    forall k, o :: LastOp(ups, k) == Some(true) ==> !HasKey(IpsOf(w, o), k)
  }

  /**
   Destination Up is not rejected for its addresses, so it keeps single ownership exactly when no
   address that it leaves added already has an owner.
   */
  lemma DestinationUpKeepsOwnershipIff(c: Config, w: World, p: string, m: Mac, items: seq<DataItem>)
    requires p in w.peers && m !in w.peers[p].dests && forall i :: 0 <= i < |items| ==> items[i].id in c.items
    requires OwnedOnce(w)
    ensures OwnedOnce(AfterDestinationUp(c, w, p, m, items))
            <==> AddsUnowned(w, IpUpdates(c, items))
  {
    hide KeyOf, IpFlags, IpEqual, UpdateAll, HasKey, IsSet, IpUpdates, ApplyMetrics, LastOp;
    var w' := AfterDestinationUp(c, w, p, m, items);
    var ups := IpUpdates(c, items);
    var me := PeerDest(p, m);
    EmptyIsSet();
    forall k ensures HasKey(UpdateAll([], ups), k) <==> LastOp(ups, k) == Some(true) {
      ListIsASet([], ups, k);
      NothingIn(k);
    }
    assert IsSet(UpdateAll([], ups)) by { ListIsASet([], ups, Key(TBlank, [], 0)); }
    forall o ensures IpsOf(w', o) == if o == me then UpdateAll([], ups) else IpsOf(w, o) {
    }
    assert IpsOf(w, me) == [];
    forall k ensures !HasKey(IpsOf(w, me), k) { NothingIn(k); }
    if AddsUnowned(w, ups) {
      forall o ensures IsSet(IpsOf(w', o)) {
        assert IsSet(IpsOf(w, o));
      }
      forall o, o', k | HasKey(IpsOf(w', o), k) && HasKey(IpsOf(w', o'), k) ensures o == o' {
        if o != me && o' != me {
          assert HasKey(IpsOf(w, o), k) && HasKey(IpsOf(w, o'), k);
        }
      }
    } else {
      var k, o :| LastOp(ups, k) == Some(true) && HasKey(IpsOf(w, o), k);
      assert o != me && HasKey(IpsOf(w', me), k) && HasKey(IpsOf(w', o), k);
      assert !OwnedOnce(w');
    }
  }

  /** For instance: an address of the local node, reported once more with a destination of a peer. */
  lemma DestinationUpGivesSecondOwner(c: Config, id: U32, ip: Ipv4, p: string, m: Mac)
    requires id in c.items && c.items[id] == ItemInfo(TU8Ipv4, false, false, false)
    ensures var di := DataItem(id, VU8Ipv4(1, ip));
            var w := World(PeerData(map[], [di], map[]), map[p := PeerData(map[], [], map[])]);
            && OwnedOnce(w) && !AddsUnowned(w, IpUpdates(c, [di]))
            && !OwnedOnce(AfterDestinationUp(c, w, p, m, [di]))
  {
    hide *;
    var di := DataItem(id, VU8Ipv4(1, ip));
    var w := World(PeerData(map[], [di], map[]), map[p := PeerData(map[], [], map[])]);
    var k := Key(TU8Ipv4, ip, 0);
    AddsOne(c, di, k);
    OnlyLocal(di, p);
    OneListOnly(w, di);
    assert HasKey(IpsOf(w, LocalNode), k);
    AddsOwned(w, [di], k);
    DestinationUpKeepsOwnershipIff(c, w, p, m, [di]);
  }

  lemma AddsOne(c: Config, di: DataItem, k: Key)
    requires di.id in c.items && c.items[di.id] == ItemInfo(TU8Ipv4, false, false, false)
    requires di.value.VU8Ipv4? && di.value.flags4 == 1 && k == Key(TU8Ipv4, di.value.ip4, 0)
    ensures KeyOf(di.value) == Some(k) && HasKey([di], k)
    ensures IpUpdates(c, [di]) == [di] && LastOp([di], k) == Some(true)
  {
    assert [di][..0] == [] && IpUpdates(c, []) == [];
    assert [di][1..] == [] && LastOp([], k) == None;
    assert [di][0] == di;
  }

  lemma OnlyLocal(di: DataItem, p: string)
    ensures var w := World(PeerData(map[], [di], map[]), map[p := PeerData(map[], [], map[])]);
            forall o :: IpsOf(w, o) == if o == LocalNode then [di] else []
  {
  }

  lemma AddsOwned(w: World, ups: seq<DataItem>, k: Key)
    requires LastOp(ups, k) == Some(true) && HasKey(IpsOf(w, LocalNode), k)
    ensures !AddsUnowned(w, ups)
  {
    hide LastOp, HasKey, IpsOf;
  }

  lemma OneListOnly(w: World, di: DataItem)
    requires KeyOf(di.value).Some? && forall o :: IpsOf(w, o) == if o == LocalNode then [di] else []
    ensures OwnedOnce(w)
  {
    hide IpsOf, KeyOf;
  }

  lemma EmptyIsSet()
    ensures IsSet([])
  {
  }

  lemma NothingIn(k: Key)
    ensures !HasKey([], k)
  {
  }

  // ----- the checks and the update, by owners and by what was reported last -----

  lemma OwnedMeansOwner(w: World, v: ItemValue, k: Key)
    requires KeyOf(v) == Some(k)
    ensures OwnedSomewhere(w, v) <==> exists o :: HasKey(IpsOf(w, o), k)
  {
    forall items: seq<DataItem> ensures HasItem(items, v) <==> HasKey(items, k) {
      forall i | 0 <= i < |items| ensures IpEqual(v, items[i].value) <==> KeyOf(items[i].value) == Some(k) {
        IpEqualIsKeyEquality(v, items[i].value);
      }
    }
    hide IpEqual, KeyOf, HasItem, HasKey;
    if FindIp(w.local, v) {
      if HasItem(w.local.ips, v) {
        assert HasKey(IpsOf(w, LocalNode), k);
      } else {
        var m :| m in w.local.dests && HasItem(w.local.dests[m].ips, v);
        assert HasKey(IpsOf(w, LocalDest(m)), k);
      }
    }
    if p :| p in w.peers && FindIp(w.peers[p], v) {
      if HasItem(w.peers[p].ips, v) {
        assert HasKey(IpsOf(w, PeerNode(p)), k);
      } else {
        var m :| m in w.peers[p].dests && HasItem(w.peers[p].dests[m].ips, v);
        assert HasKey(IpsOf(w, PeerDest(p, m)), k);
      }
    }
    if o :| HasKey(IpsOf(w, o), k) {
      FoundMeansOwner(w, v, o, k);
    }
  }

  /** An address may be added if nobody has it, and dropped if the sender has it; a connection point may be neither. */
  lemma ItemAllowedIff(c: Config, w: World, existing: seq<DataItem>, di: DataItem)
    requires di.id in c.items && c.IsIpAddr(di.id)
    ensures ItemAllowed(c, w, existing, di)
            <==> match KeyOf(di.value)
                 case None => false
                 case Some(k) => if Adding(di.value) then forall o :: !HasKey(IpsOf(w, o), k) else HasKey(existing, k)
  {
    forall i | 0 <= i < |existing|
      ensures IpEqual(di.value, existing[i].value)
              <==> KeyOf(di.value).Some? && KeyOf(existing[i].value) == KeyOf(di.value)
    {
      IpEqualIsKeyEquality(di.value, existing[i].value);
    }
    match KeyOf(di.value)
    case None =>
      if Adding(di.value) {
        AddingHasKey(di.value);
      }
    case Some(k) =>
      OwnedMeansOwner(w, di.value, k);
      hide IpEqual, IpFlags, OwnedSomewhere, IpsOf, KeyOf;
  }

  /** The metric that `items` report last for an id. */
  function LastReported(c: Config, items: seq<DataItem>, id: U32): Option<DataItem>
    requires forall i :: 0 <= i < |items| ==> items[i].id in c.items
    decreases |items|
  {
    if items == [] then None
    else
      var later := LastReported(c, items[1..], id);
      if later.Some? then later
      else if items[0].id == id && c.items[id].metric then Some(items[0])
      else None
  }

  lemma {:induction false} LastReportedIs(c: Config, items: seq<DataItem>, id: U32)
    requires forall i :: 0 <= i < |items| ==> items[i].id in c.items
    ensures match LastReported(c, items, id)
            case None => forall i :: 0 <= i < |items| ==> !(items[i].id == id && c.items[id].metric)
            case Some(di) => exists i :: 0 <= i < |items| && items[i] == di && di.id == id && c.items[id].metric
                                         && forall j :: i < j < |items| ==> items[j].id != id
    decreases |items|
  {
    if items != [] {
      LastReportedIs(c, items[1..], id);
      match LastReported(c, items[1..], id)
      case None =>
        forall i | 0 < i < |items| ensures !(items[i].id == id && c.items[id].metric) {
          assert items[1..][i - 1] == items[i];
        }
        if items[0].id == id && c.items[id].metric {
          assert items[0] == LastReported(c, items, id).value;
        }
      case Some(di) =>
        var i :| 0 <= i < |items| - 1 && items[1..][i] == di && forall j :: i < j < |items| - 1 ==> items[1..][j].id != id;
        forall j | i + 1 < j < |items| ensures items[j].id != id {
          assert items[1..][j - 1] == items[j];
        }
        assert items[i + 1] == di;
    }
  }

  lemma {:induction false} LastReportedSnoc(c: Config, items: seq<DataItem>, di: DataItem, id: U32)
    requires di.id in c.items && forall i :: 0 <= i < |items| ==> items[i].id in c.items
    ensures LastReported(c, items + [di], id)
         == if di.id == id && c.items[id].metric then Some(di) else LastReported(c, items, id)
    decreases |items|
  {
    if items == [] {
      assert [] + [di] == [di] && [di][1..] == [];
    } else {
      assert (items + [di])[1..] == items[1..] + [di];
      LastReportedSnoc(c, items[1..], di, id);
    }
  }

  /** After an update each metric is the one reported last, or what it was if none was reported. */
  lemma {:induction false} MetricIsLastReported(c: Config, metrics: map<U32, DataItem>, items: seq<DataItem>, id: U32)
    requires forall i :: 0 <= i < |items| ==> items[i].id in c.items
    ensures var after := ApplyMetrics(c, metrics, items);
            match LastReported(c, items, id)
            case None => id in after <==> id in metrics
            case Some(_) => id in after
    ensures var after := ApplyMetrics(c, metrics, items);
            id in after ==> after[id] == match LastReported(c, items, id) case None => metrics[id] case Some(di) => di
    decreases |items|
  {
    if items != [] {
      var n := |items| - 1;
      MetricIsLastReported(c, metrics, items[..n], id);
      LastReportedSnoc(c, items[..n], items[n], id);
      assert items[..n] + [items[n]] == items;
    } else {
      assert LastReported(c, items, id) == None;
    }
  }

  /**
   An accepted update gives the peer, and each of its destinations, the metrics reported last; the
   destinations' own addresses stay.
   */
  lemma UpdateReachesDestinations(c: Config, pd: PeerData, items: seq<DataItem>, m: Mac, id: U32, di: DataItem)
    requires forall i :: 0 <= i < |items| ==> items[i].id in c.items
    requires m in pd.dests && LastReported(c, items, id) == Some(di)
    ensures var after := Updated(c, pd, items);
            && id in after.metrics && after.metrics[id] == di
            && after.dests.Keys == pd.dests.Keys
            && id in after.dests[m].metrics && after.dests[m].metrics[id] == di && after.dests[m].ips == pd.dests[m].ips
  {
    hide ApplyMetrics, LastReported, UpdateAll, IpUpdates;
    MetricIsLastReported(c, pd.metrics, items, id);
    MetricIsLastReported(c, pd.dests[m].metrics, items, id);
  }

  /** An update is accepted exactly when it reports no metric that the peer had not reported before. */
  lemma KnownIffNoNewMetric(c: Config, pd: PeerData, items: seq<DataItem>)
    requires forall i :: 0 <= i < |items| ==> items[i].id in c.items
    ensures Known(c, pd, items) <==> ApplyMetrics(c, pd.metrics, items).Keys == pd.metrics.Keys
    ensures Known(c, pd, items) <==> forall di :: di in items && c.items[di.id].metric ==> di.id in pd.metrics
  {
    hide ApplyMetrics;
    forall id ensures id in ApplyMetrics(c, pd.metrics, items)
                      <==> id in pd.metrics || exists i :: 0 <= i < |items| && items[i].id == id && c.items[id].metric
    {
      MetricIsLastReported(c, pd.metrics, items, id);
      LastReportedIs(c, items, id);
    }
    hide LastReported;
    if !Known(c, pd, items) {
      var i :| 0 <= i < |items| && UnknownMetric(c, pd, items[i]);
      assert items[i].id in ApplyMetrics(c, pd.metrics, items);
    } else {
      forall id | id in ApplyMetrics(c, pd.metrics, items) ensures id in pd.metrics {
      }
      forall di | di in items && c.items[di.id].metric ensures di.id in pd.metrics {
        var i :| 0 <= i < |items| && items[i] == di;
        assert !UnknownMetric(c, pd, items[i]);
      }
    }
  }

  /** A well-typed item is checked and stored as an address exactly when it carries one. */
  lemma IpAddrIff(c: Config, di: DataItem)
    requires di.id in c.items && TypeOf(di.value) == c.items[di.id].valueType
    ensures c.IsIpAddr(di.id) <==> KeyOf(di.value).Some? || di.value.VU8Ipv4U16? || di.value.VU8Ipv6U16?
  {
  }
}
