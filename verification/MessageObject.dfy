/**
 The message object of ProtocolMessage.cpp: it fills `msgbuf`, patches the length field in place
 after every data item, and parses the buffer from scratch into `items`.
 */
module MessageObject {
  import opened Octets
  import opened Outcomes
  import opened DataItems
  import opened ProtocolConfig
  import opened Messages

  lemma {:induction false} EncodeItemsAppend(c: Config, items: seq<DataItem>, more: seq<DataItem>)
    ensures EncodeItems(c, items + more) == EncodeItems(c, items) + EncodeItems(c, more)
  {
    hide EncodeItem;
    if items == [] {
      assert [] + more == more;
    } else {
      assert (items + more)[1..] == items[1..] + more;
      EncodeItemsAppend(c, items[1..], more);
    }
  }

  lemma EncodeItemsSnoc(c: Config, items: seq<DataItem>, di: DataItem)
    ensures EncodeItems(c, items + [di]) == EncodeItems(c, items) + EncodeItem(c, di)
  {
    hide EncodeItem;
    EncodeItemsAppend(c, items, [di]);
    assert EncodeItems(c, [di]) == EncodeItem(c, di);
  }

  /** `DataItem::serialize`: the value first, then a header that knows its length. */
  method SerializeItem(c: Config, di: DataItem) returns (r: Result<seq<Octet>>)
    ensures r.Ok? <==> ItemFits(c, di)
    ensures r.Ok? ==> r.value == EncodeItem(c, di)
  {
    if !Encodable(di.value, c.extIdSize) {
      return Err(TOO_WIDE);
    }
    var valbuf := EncodeValue(di.value, c.extIdSize);
    r := Append(di.id, c.itemIdSize, []);
    if r.Ok? {
      r := Append(|valbuf|, c.itemLengthSize, r.value);
      if r.Ok? {
        r := Ok(r.value + valbuf);
      }
    }
  }

  class ProtocolMessage {
    const cfg: Config
    var msgbuf: seq<Octet>
    var msgLenIndex: nat
    var headerLength: nat
    var signalId: U32
    var isSignal: bool
    var items: seq<DataItem>

    constructor (c: Config)
      ensures cfg == c && msgbuf == [] && items == []
    {
      cfg, msgbuf, msgLenIndex, headerLength, signalId, isSignal, items := c, [], 0, 0, 0, false, [];
    }

    /** The buffer holds a whole message with these data items, its length field included. */
    ghost predicate Holds(built: seq<DataItem>)
      reads this
    {
      && cfg.Valid()
      && msgbuf == Frame(cfg, isSignal, signalId, EncodeItems(cfg, built))
      && |EncodeItems(cfg, built)| < Pow256(cfg.signalLengthSize)
      && msgLenIndex == |Prefix(cfg, isSignal)| + cfg.signalIdSize
      && headerLength == msgLenIndex + cfg.signalLengthSize
    }

    /** `add_header`: prefix, id, and a length of zero. */
    method AddHeader(name: string) returns (r: Result<()>)
      requires cfg.Valid()
      modifies this
      ensures r.Ok? <==> cfg.FindName(name).Some? && cfg.FindName(name).value.0 < Pow256(cfg.signalIdSize)
      ensures r.Ok? ==> (signalId, isSignal) == cfg.FindName(name).value
      ensures r.Ok? ==> msgbuf == old(msgbuf) + Frame(cfg, isSignal, signalId, [])
      ensures r.Ok? && old(msgbuf) == [] ==> Holds([])
      ensures items == old(items)
    {
      hide BigEndian, Pow256;
      ghost var was := msgbuf;
      assert 0 < Pow256(cfg.signalLengthSize) && EncodeItems(cfg, []) == [];
      if cfg.FindName(name).None? {
        return Err(UNKNOWN_SIGNAL);
      }
      var (id, sig) := cfg.FindName(name).value;
      signalId, isSignal := id, sig;
      if isSignal {
        msgbuf := msgbuf + cfg.prefix;
      }
      var b := Append(signalId, cfg.signalIdSize, msgbuf);
      if b.Err? {
        return Err(b.error);
      }
      msgbuf := b.value;
      msgLenIndex := |msgbuf|;
      b := Append(0, cfg.signalLengthSize, msgbuf);
      msgbuf := b.value;
      headerLength := |msgbuf|;
      assert msgbuf == was + Frame(cfg, isSignal, signalId, []);
      r := Ok(());
    }

    /**
     `add_data_item`: append the item and patch the length.  An item that does not fit leaves the
     buffer alone; a body that outgrows the length field leaves the item appended but unaccounted;
     an item that is not configured is in place when the lookup of its name throws.
     */
    method AddDataItem(di: DataItem, ghost built: seq<DataItem>) returns (r: Result<()>)
      requires Holds(built)
      modifies `msgbuf
      ensures var fits := ItemFits(cfg, di) && |EncodeItems(cfg, built + [di])| < Pow256(cfg.signalLengthSize);
              && (r.Ok? <==> fits && di.id in cfg.items)
              && (fits ==> Holds(built + [di]))
              && (!fits ==> msgbuf == old(msgbuf) + if ItemFits(cfg, di) then EncodeItem(cfg, di) else [])
    {
      hide EncodeItem, ItemFits, BigEndian, Pow256, EncodeItems;
      ghost var body, body' := EncodeItems(cfg, built), EncodeItems(cfg, built + [di]);
      EncodeItemsSnoc(cfg, built, di);
      var dibuf := SerializeItem(cfg, di);
      if dibuf.Err? {
        return Err(dibuf.error);
      }
      ghost var head := Prefix(cfg, isSignal) + BigEndian(signalId, cfg.signalIdSize);
      ghost var len := BigEndian(|body|, cfg.signalLengthSize);
      msgbuf := msgbuf + dibuf.value;
      assert msgbuf == head + len + body';
      // update_message_length
      var b := Overwrite(|msgbuf| - headerLength, cfg.signalLengthSize, msgbuf, msgLenIndex);
      if b.Err? {
        return Err(b.error);
      }
      assert msgbuf[..msgLenIndex] == head && msgbuf[headerLength..] == body';
      msgbuf := b.value;
      r := if di.id in cfg.items then Ok(()) else Err(UNKNOWN_ITEM);
    }

    /** `add_data_items`: stops at the first item that throws. */
    method AddDataItems(dis: seq<DataItem>, ghost built: seq<DataItem>) returns (r: Result<()>)
      requires Holds(built)
      modifies `msgbuf
      ensures r.Ok? ==> Holds(built + dis)
      ensures r.Ok? <==> && (forall i :: 0 <= i < |dis| ==> ItemFits(cfg, dis[i]) && dis[i].id in cfg.items)
                         && |EncodeItems(cfg, built + dis)| < Pow256(cfg.signalLengthSize)
    {
      hide EncodeItem, ItemFits, EncodeItems, Frame, Pow256;
      r := Ok(());
      assert built + dis[..0] == built;
      for i := 0 to |dis|
        invariant Holds(built + dis[..i]) && r.Ok?
        invariant forall k :: 0 <= k < i ==> ItemFits(cfg, dis[k]) && dis[k].id in cfg.items
      {
        EncodeItemsAppend(cfg, built + dis[..i] + [dis[i]], dis[i + 1..]);
        assert built + dis[..i] + [dis[i]] + dis[i + 1..] == built + dis;
        r := AddDataItem(dis[i], built + dis[..i]);
        if r.Err? {
          return;
        }
        assert built + dis[..i] + [dis[i]] == built + dis[..i + 1];
      }
      assert dis[..|dis|] == dis;
    }

    /** `parse`: the whole buffer, from scratch. */
    method ParseBuffer() returns (err: Option<string>)
      requires cfg.Valid()
      modifies `items, `signalId
      ensures var h := ParseHeader(cfg, isSignal, msgbuf);
              && (h.Err? ==> err == Some(h.error) && items == [])
              && (h.Ok? ==> signalId == h.value.0 && Parsed(items, err) == ParseItems(cfg, msgbuf[h.value.1..]))
      ensures err.None? <==> Parse(cfg, isSignal, msgbuf) == Ok((signalId, items))
    {
      hide ParseItem, ParseItems, ParseHeader, Frame, EncodeItems, Pow256;
      items := [];
      var h := ParseHeader(cfg, isSignal, msgbuf);
      if h.Err? {
        return Some(h.error);
      }
      signalId := h.value.0;
      var it := h.value.1;
      ghost var whole := ParseItems(cfg, msgbuf[it..]);
      assert whole == Onto(items, whole);
      while it < |msgbuf|
        invariant it <= |msgbuf| && signalId == h.value.0
        invariant whole == Onto(items, ParseItems(cfg, msgbuf[it..]))
      {
        ParseOneMore(cfg, msgbuf, it, items);
        var di := ParseItem(cfg, msgbuf[it..]);
        if di.Err? {
          return Some(di.error);
        }
        items := items + [di.value.0];
        it := it + di.value.1;
      }
      ParseNoMore(cfg, items);
      assert msgbuf[it..] == [];
      err := None;
    }
  }

  /** What a parse has read so far, in front of what it still reads. */
  function Onto(items: seq<DataItem>, p: Parsed): Parsed {
    Parsed(items + p.items, p.err)
  }

  lemma ParseOneMore(c: Config, s: seq<Octet>, it: nat, items: seq<DataItem>)
    requires c.Valid() && it < |s|
    ensures var di := ParseItem(c, s[it..]);
            && (di.Ok? ==>
                  && it + di.value.1 <= |s|
                  && Onto(items, ParseItems(c, s[it..])) == Onto(items + [di.value.0], ParseItems(c, s[it + di.value.1..])))
            && (di.Err? ==> Onto(items, ParseItems(c, s[it..])) == Parsed(items, Some(di.error)))
  {
    hide ParseItem;
    var di := ParseItem(c, s[it..]);
    if di.Ok? {
      assert s[it..][di.value.1..] == s[it + di.value.1..];
    }
  }

  lemma ParseNoMore(c: Config, items: seq<DataItem>)
    requires c.Valid()
    ensures Onto(items, ParseItems(c, [])) == Parsed(items, None)
  {
  }
}
