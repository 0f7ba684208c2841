/**
 Reassembly of messages from the TCP stream (`is_complete_message` in ProtocolMessage.cpp and
 `handle_session_receive` in Peer.cpp): a fixed receive buffer, compacted in place after every
 complete message.
 */
module Framing {
  import opened Octets
  import opened Outcomes
  import opened DataItems
  import opened ProtocolConfig
  import Messages

  const MAX_SIGNAL_SIZE: nat := 65536

  // ----- the reference: one greedy split of the whole stream -----

  /** The total size, header included, that the header at the front of `s` announces. */
  function Announced(c: Config, s: seq<Octet>): (n: nat)
    requires |s| >= c.HeaderSize()
    ensures n >= c.HeaderSize()
  {
    c.HeaderSize() + Value(s[c.signalIdSize..c.HeaderSize()])
  }

  predicate Complete(c: Config, s: seq<Octet>) {
    |s| >= c.HeaderSize() && |s| >= Announced(c, s)
  }

  datatype Split = Split(msgs: seq<seq<Octet>>, rest: seq<Octet>)

  function Greedy(c: Config, s: seq<Octet>): Split
    requires c.Valid()
    decreases |s|
  {
    if !Complete(c, s) then Split([], s)
    else
      var n := Announced(c, s);
      var g := Greedy(c, s[n..]);
      Split([s[..n]] + g.msgs, g.rest)
  }

  function Concat(parts: seq<seq<Octet>>): seq<Octet> {
    if parts == [] then [] else parts[0] + Concat(parts[1..])
  }

  /** `parts` are whole messages, each exactly as long as its own header says. */
  ghost predicate WholeMessages(c: Config, parts: seq<seq<Octet>>) {
    forall m :: m in parts ==> Complete(c, m) && |m| == Announced(c, m)
  }

  /** Growing the buffer does not change what the message at its front announces. */
  lemma AnnouncedOfPrefix(c: Config, s: seq<Octet>, t: seq<Octet>)
    requires |s| >= c.HeaderSize()
    ensures Announced(c, s + t) == Announced(c, s)
  {
    assert (s + t)[c.signalIdSize..c.HeaderSize()] == s[c.signalIdSize..c.HeaderSize()];
  }

  lemma {:induction false} GreedySplits(c: Config, s: seq<Octet>)
    requires c.Valid()
    ensures var g := Greedy(c, s);
            s == Concat(g.msgs) + g.rest && WholeMessages(c, g.msgs) && !Complete(c, g.rest)
    decreases |s|
  {
    hide Announced;
    if Complete(c, s) {
      var n := Announced(c, s);
      GreedySplits(c, s[n..]);
      var g := Greedy(c, s[n..]);
      assert s == s[..n] + s[n..];
      AnnouncedOfPrefix(c, s[..n], s[n..]);
      assert Greedy(c, s).msgs[1..] == g.msgs;
      assert s[..n] + (Concat(g.msgs) + g.rest) == (s[..n] + Concat(g.msgs)) + g.rest;
    }
  }

  lemma GreedyTakesFirst(c: Config, m: seq<Octet>, t: seq<Octet>)
    requires c.Valid() && Complete(c, m) && |m| == Announced(c, m)
    ensures var g := Greedy(c, t); Greedy(c, m + t) == Split([m] + g.msgs, g.rest)
  {
    hide Announced;
    AnnouncedOfPrefix(c, m, t);
    assert (m + t)[..|m|] == m && (m + t)[|m|..] == t;
  }

  lemma NothingComplete(c: Config, rest: seq<Octet>)
    requires c.Valid() && !Complete(c, rest)
    ensures Greedy(c, rest) == Split([], rest)
  {
  }

  lemma ConcatFirst(msgs: seq<seq<Octet>>, rest: seq<Octet>)
    requires msgs != []
    ensures Concat(msgs) + rest == msgs[0] + (Concat(msgs[1..]) + rest) && msgs == [msgs[0]] + msgs[1..]
  {
  }

  lemma {:induction false} WholeMessagesAreGreedy(c: Config, msgs: seq<seq<Octet>>, rest: seq<Octet>)
    requires c.Valid() && WholeMessages(c, msgs) && !Complete(c, rest)
    ensures Greedy(c, Concat(msgs) + rest) == Split(msgs, rest)
  {
    hide Announced, Complete, Greedy;
    if msgs == [] {
      NothingComplete(c, rest);
      assert Concat(msgs) + rest == rest;
    } else {
      WholeMessagesAreGreedy(c, msgs[1..], rest);
      GreedyTakesFirst(c, msgs[0], Concat(msgs[1..]) + rest);
      ConcatFirst(msgs, rest);
    }
  }

  /**
   The greedy split is the only way to cut a stream into whole messages followed by an
   incomplete remainder.
   */
  lemma GreedyIsTheOnlySplit(c: Config, s: seq<Octet>, msgs: seq<seq<Octet>>, rest: seq<Octet>)
    requires c.Valid()
    ensures Greedy(c, s) == Split(msgs, rest)
            <==> s == Concat(msgs) + rest && WholeMessages(c, msgs) && !Complete(c, rest)
  {
    hide *;
    GreedySplits(c, s);
    if s == Concat(msgs) + rest && WholeMessages(c, msgs) && !Complete(c, rest) {
      WholeMessagesAreGreedy(c, msgs, rest);
    }
  }

  // ----- reading in chunks -----

  lemma {:induction false} ConcatOfAppend(a: seq<seq<Octet>>, b: seq<seq<Octet>>)
    ensures Concat(a + b) == Concat(a) + Concat(b)
  {
    if a == [] {
      assert a + b == b;
    } else {
      assert (a + b)[1..] == a[1..] + b;
      ConcatOfAppend(a[1..], b);
    }
  }

  /** What one read does to the messages dispatched so far and the octets still buffered. */
  function Feed(c: Config, st: Split, chunk: seq<Octet>): Split
    requires c.Valid()
  {
    var g := Greedy(c, st.rest + chunk);
    Split(st.msgs + g.msgs, g.rest)
  }

  function FeedAll(c: Config, st: Split, chunks: seq<seq<Octet>>): Split
    requires c.Valid()
    decreases |chunks|
  {
    if chunks == [] then st else FeedAll(c, Feed(c, st, chunks[0]), chunks[1..])
  }

  /** One more chunk after a greedily split stream is a greedy split of the longer stream. */
  lemma FeedExtendsGreedy(c: Config, s: seq<Octet>, chunk: seq<Octet>)
    requires c.Valid()
    ensures Feed(c, Greedy(c, s), chunk) == Greedy(c, s + chunk)
  {
    hide Greedy, Complete, Concat;
    var g := Greedy(c, s);
    var h := Greedy(c, g.rest + chunk);
    GreedySplits(c, s);
    GreedySplits(c, g.rest + chunk);
    ConcatOfAppend(g.msgs, h.msgs);
    assert s + chunk == Concat(g.msgs + h.msgs) + h.rest by {
      assert s + chunk == Concat(g.msgs) + (g.rest + chunk);
    }
    WholeMessagesAreGreedy(c, g.msgs + h.msgs, h.rest);
  }

  /**
   Chunking independence: however the stream is cut into reads, the messages dispatched and the
   octets left over are those of one greedy split of the whole stream.
   */
  lemma {:induction false} ChunkingIndependence(c: Config, s: seq<Octet>, chunks: seq<seq<Octet>>)
    requires c.Valid()
    ensures FeedAll(c, Greedy(c, s), chunks) == Greedy(c, s + Concat(chunks))
    decreases |chunks|
  {
    hide Greedy, Feed;
    if chunks == [] {
      assert s + Concat(chunks) == s;
    } else {
      FeedExtendsGreedy(c, s, chunks[0]);
      ChunkingIndependence(c, s + chunks[0], chunks[1..]);
      assert s + chunks[0] + Concat(chunks[1..]) == s + Concat(chunks);
    }
  }

  lemma EveryChunkingAgrees(c: Config, chunks: seq<seq<Octet>>, chunks': seq<seq<Octet>>)
    requires c.Valid() && Concat(chunks) == Concat(chunks')
    ensures FeedAll(c, Split([], []), chunks) == FeedAll(c, Split([], []), chunks') == Greedy(c, Concat(chunks))
  {
    ChunkingIndependence(c, [], chunks);
    ChunkingIndependence(c, [], chunks');
    assert [] + Concat(chunks) == Concat(chunks);
    assert Greedy(c, []) == Split([], []);
  }

  // ----- messages as they are built -----

  /** A message as `add_header` and `add_data_item` build it: a frame with a body that fits. */
  ghost predicate Built(c: Config, m: seq<Octet>) {
    exists id: U32, body ::
      id < Pow256(c.signalIdSize) && |body| < Pow256(c.signalLengthSize) && m == Messages.Frame(c, false, id, body)
  }

  /** What has been built is taken off the stream as it was built, whatever follows. */
  lemma BuiltIsWhole(c: Config, id: U32, body: seq<Octet>, t: seq<Octet>)
    requires c.Valid() && id < Pow256(c.signalIdSize) && |body| < Pow256(c.signalLengthSize)
    ensures var f := Messages.Frame(c, false, id, body);
            && |f| == c.signalIdSize + c.signalLengthSize + |body|
            && Complete(c, f + t) && Announced(c, f + t) == |f|
  {
    hide Value, Pow256, BigEndian, Messages.Frame;
    var f := Messages.Frame(c, false, id, body);
    Messages.FrameLayout(c, false, id, body);
    assert (f + t)[c.signalIdSize..c.HeaderSize()] == f[c.signalIdSize..c.HeaderSize()];
  }

  /** And not before all of it is there. */
  lemma PartIsIncomplete(c: Config, id: U32, body: seq<Octet>, n: nat)
    requires c.Valid() && id < Pow256(c.signalIdSize) && |body| < Pow256(c.signalLengthSize)
    requires n < |Messages.Frame(c, false, id, body)|
    ensures !Complete(c, Messages.Frame(c, false, id, body)[..n])
  {
    hide Value, Pow256, BigEndian, Messages.Frame;
    var f := Messages.Frame(c, false, id, body);
    Messages.FrameLayout(c, false, id, body);
    if n >= c.HeaderSize() {
      assert f[..n][c.signalIdSize..c.HeaderSize()] == f[c.signalIdSize..c.HeaderSize()];
    }
  }

  lemma BuiltAreWhole(c: Config, msgs: seq<seq<Octet>>)
    requires c.Valid() && forall m :: m in msgs ==> Built(c, m)
    ensures WholeMessages(c, msgs)
  {
    hide Announced, Messages.Frame, Pow256;
    forall m | m in msgs ensures Complete(c, m) && |m| == Announced(c, m) {
      var id: U32, body :|
        id < Pow256(c.signalIdSize) && |body| < Pow256(c.signalLengthSize) && m == Messages.Frame(c, false, id, body);
      BuiltIsWhole(c, id, body, []);
      assert m + [] == m;
    }
  }

  /**
   However the octets of built messages, and of the beginning of one more, are cut into reads:
   exactly these messages are dispatched, in order, and the beginning stays in the buffer.
   */
  lemma BuiltMessagesAreDispatched(
      c: Config, msgs: seq<seq<Octet>>, id: U32, body: seq<Octet>, n: nat, chunks: seq<seq<Octet>>)
    requires c.Valid() && forall m :: m in msgs ==> Built(c, m)
    requires id < Pow256(c.signalIdSize) && |body| < Pow256(c.signalLengthSize)
    requires n < |Messages.Frame(c, false, id, body)|
    requires Concat(chunks) == Concat(msgs) + Messages.Frame(c, false, id, body)[..n]
    ensures FeedAll(c, Split([], []), chunks) == Split(msgs, Messages.Frame(c, false, id, body)[..n])
  {
    hide Complete, Announced, Greedy, FeedAll, Messages.Frame, Concat, Pow256;
    BuiltAreWhole(c, msgs);
    PartIsIncomplete(c, id, body, n);
    EveryChunkingAgrees(c, chunks, chunks);
    WholeMessagesAreGreedy(c, msgs, Messages.Frame(c, false, id, body)[..n]);
  }

  // ----- room for the next read -----

  /** A remainder that fills the buffer announces a message that the buffer cannot hold. */
  lemma FullBufferIsOversized(c: Config, s: seq<Octet>)
    requires c.Valid() && |Greedy(c, s).rest| >= MAX_SIGNAL_SIZE
    ensures var rest := Greedy(c, s).rest;
            |rest| >= c.HeaderSize() && Announced(c, rest) > MAX_SIGNAL_SIZE
  {
    GreedySplits(c, s);
  }

  /**
   The receive loop can run out of room if and only if the length field is at least two octets
   wide: a two-octet length already announces up to 65535 octets behind the header, while the
   buffer holds 65536 in all.
   */
  lemma StallsIffLengthFieldIsWide(c: Config)
    requires c.Valid()
    ensures (exists s :: |Greedy(c, s).rest| >= MAX_SIGNAL_SIZE) <==> c.signalLengthSize >= 2
  {
    if c.signalLengthSize >= 2 {
      var n := Pow256(c.signalLengthSize) - 1;
      var head := BigEndian(0, c.signalIdSize) + BigEndian(n, c.signalLengthSize);
      var s := head + seq(MAX_SIGNAL_SIZE - |head|, i => 0 as Octet);
      ValueOfBigEndian(n, c.signalLengthSize);
      assert s[c.signalIdSize..c.HeaderSize()] == BigEndian(n, c.signalLengthSize);
      assert Pow256(2) == 65536 && Pow256(3) == 16777216;
      assert Greedy(c, s) == Split([], s);
    }
    if s :| |Greedy(c, s).rest| >= MAX_SIGNAL_SIZE {
      FullBufferIsOversized(c, s);
      var rest := Greedy(c, s).rest;
      BigEndianOfValue(rest[c.signalIdSize..c.HeaderSize()]);
      assert Pow256(1) == 256;
    }
  }

  // ----- the receive buffer -----

  /** `is_complete_message`. */
  method IsCompleteMessage(c: Config, buf: seq<Octet>) returns (complete: bool, msgSize: nat)
    requires c.Valid()
    ensures complete <==> Complete(c, buf)
    ensures complete ==> msgSize == Announced(c, buf)
  {
    if |buf| < c.HeaderSize() {
      return false, 0;
    }
    var sid := ReadAt(buf, 0, c.signalIdSize);
    var len := ReadAt(buf, c.signalIdSize, c.signalLengthSize);
    msgSize := c.HeaderSize() + len.value;
    complete := |buf| >= msgSize;
  }

  /** `memmove` of the octets behind a handled message to the front of the buffer. */
  method MoveToFront(a: array<Octet>, from: nat, count: nat)
    requires from + count <= a.Length
    modifies a
    ensures a[..count] == old(a[from..from + count])
  {
    for i := 0 to count
      invariant a[..i] == old(a[from..from + i])
      invariant forall k :: from + i <= k < a.Length ==> a[k] == old(a[k])
    {
      a[i] := a[from + i];
    }
  }

  class Receiver {
    const cfg: Config
    const buffer: array<Octet>
    var len: nat
    var dispatched: seq<seq<Octet>>

    ghost predicate Valid()
      reads this
    {
      cfg.Valid() && buffer.Length == MAX_SIGNAL_SIZE && len <= buffer.Length
    }

    /** The messages handed on so far, and the octets waiting for more. */
    ghost function State(): Split
      requires Valid()
      reads this, buffer
    {
      Split(dispatched, buffer[..len])
    }

    constructor (c: Config)
      requires c.Valid()
      ensures Valid() && cfg == c && State() == Split([], []) && fresh(buffer)
    {
      cfg, len, dispatched := c, 0, [];
      buffer := new Octet[MAX_SIGNAL_SIZE](i => 0);
    }

    /** The socket writes a chunk behind the octets already buffered. */
    method Store(chunk: seq<Octet>)
      requires Valid() && len + |chunk| <= buffer.Length
      modifies `len, buffer
      ensures Valid() && buffer[..len] == old(buffer[..len]) + chunk
    {
      ghost var rest := buffer[..len];
      for i := 0 to |chunk|
        invariant Valid() && len == old(len)
        invariant buffer[..len + i] == rest + chunk[..i]
      {
        buffer[len + i] := chunk[i];
      }
      len := len + |chunk|;
    }

    /** Hand on the complete message at the front and close the gap it leaves. */
    method DispatchFirst(size: nat)
      requires Valid() && 0 < size <= len
      modifies this, buffer
      ensures Valid() && len == old(len) - size
      ensures dispatched == old(dispatched) + [old(buffer[..len])[..size]]
      ensures buffer[..len] == old(buffer[..len])[size..]
    {
      assert buffer[..size] == buffer[..len][..size];
      dispatched := dispatched + [buffer[..size]];
      var remaining := len - size;
      if remaining > 0 {
        MoveToFront(buffer, size, remaining);
      }
      len := remaining;
    }

    /**
     `handle_session_receive` with the chunk that the socket wrote behind the buffered octets,
     which is never longer than the free space it was offered.
     */
    method HandleReceive(chunk: seq<Octet>)
      requires Valid() && len + |chunk| <= buffer.Length
      modifies this, buffer
      ensures Valid() && State() == Feed(cfg, old(State()), chunk)
      ensures len == buffer.Length ==> len >= cfg.HeaderSize() && Announced(cfg, buffer[..len]) > MAX_SIGNAL_SIZE
    {
      hide Announced;
      ghost var stream := buffer[..len] + chunk;
      Store(chunk);
      while true
        invariant Valid()
        invariant var g := Greedy(cfg, buffer[..len]);
                  Split(dispatched + g.msgs, g.rest) == Feed(cfg, old(State()), chunk)
        decreases len
      {
        ghost var before := buffer[..len];
        var complete, size := IsCompleteMessage(cfg, buffer[..len]);
        if !complete {
          break;
        }
        DispatchFirst(size);
        assert Greedy(cfg, before).msgs == [before[..size]] + Greedy(cfg, before[size..]).msgs;
      }
      if len == buffer.Length {
        FullBufferIsOversized(cfg, stream);
      }
    }
  }
}
