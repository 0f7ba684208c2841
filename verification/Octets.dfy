/**
 Integers of varying sizes in network byte order (Serialize.h).

 `BigEndian` and `Value` are the two directions; the methods are the byte loops of
 the original, proved to compute them.
 */
module Octets {
  import opened Outcomes

  type Octet = n: nat | n < 256

  /** A MAC address (`DlepMac`), of whatever length the link layer uses. */
  type Mac = seq<Octet>

  function Pow256(n: nat): (p: nat)
    ensures p > 0
  {
    if n == 0 then 1 else 256 * Pow256(n - 1)
  }

  /** The low `size` octets of `v`, most significant first. */
  function BigEndian(v: nat, size: nat): (s: seq<Octet>)
    ensures |s| == size
  {
    if size == 0 then [] else BigEndian(v / 256, size - 1) + [v % 256]
  }

  function Value(s: seq<Octet>): nat
  {
    if s == [] then 0 else Value(s[..|s| - 1]) * 256 + s[|s| - 1]
  }

  lemma {:induction false} ValueOfBigEndian(v: nat, size: nat)
    requires v < Pow256(size)
    ensures Value(BigEndian(v, size)) == v
  {
    if size > 0 {
      var s := BigEndian(v, size);
      assert s[..size - 1] == BigEndian(v / 256, size - 1) && s[size - 1] == v % 256;
      ValueOfBigEndian(v / 256, size - 1);
      hide BigEndian;
    }
  }

  lemma {:induction false} BigEndianOfValue(s: seq<Octet>)
    ensures Value(s) < Pow256(|s|)
    ensures BigEndian(Value(s), |s|) == s
  {
    if s != [] {
      BigEndianOfValue(s[..|s| - 1]);
      assert Value(s) / 256 == Value(s[..|s| - 1]) && Value(s) % 256 == s[|s| - 1];
      assert s == s[..|s| - 1] + [s[|s| - 1]];
    }
  }

  lemma MulStep(d: nat, k: nat, q: nat)
    requires k < q
    ensures d * k + d <= d * q
  {
    var e: nat := q - k - 1;
    assert d * (k + 1 + e) == d * k + d + d * e;
    assert d * e >= 0;
  }

  lemma QuotientIsUnique(a: nat, d: nat, q: nat, r: nat)
    requires d > 0 && a == d * q + r && r < d
    ensures a / d == q
  {
    var k := a / d;
    assert a == d * k + a % d;
    if k < q {
      MulStep(d, k, q);
    } else if q < k {
      MulStep(d, q, k);
    }
  }

  lemma DivOfDiv256(v: nat, p: nat)
    requires p > 0
    ensures (v / 256) / p == v / (256 * p)
  {
    var q, r := (v / 256) / p, (v / 256) % p;
    assert v / 256 == p * q + r;
    assert (256 * p) * q == 256 * (p * q);
    QuotientIsUnique(v, 256 * p, q, 256 * r + v % 256);
  }

  /** The loop of `serialize` peels octets from the most significant end. */
  lemma {:induction false} MostSignificantFirst(v: nat, size: nat)
    requires size > 0
    ensures BigEndian(v, size) == [(v / Pow256(size - 1)) % 256] + BigEndian(v, size - 1)
  {
    if size > 1 {
      MostSignificantFirst(v / 256, size - 1);
      DivOfDiv256(v, Pow256(size - 2));
      assert Pow256(size - 1) == 256 * Pow256(size - 2);
      assert BigEndian(v, size - 1) == BigEndian(v / 256, size - 2) + [v % 256];
    }
  }

  /** Network byte order: the octet at position `k` has the weight of the octets behind it. */
  lemma {:induction false} BigEndianAt(v: nat, size: nat, k: nat)
    requires k < size
    ensures BigEndian(v, size)[k] == (v / Pow256(size - 1 - k)) % 256
  {
    if k < size - 1 {
      BigEndianAt(v / 256, size - 1, k);
      DivOfDiv256(v, Pow256(size - 2 - k));
      assert Pow256(size - 1 - k) == 256 * Pow256(size - 2 - k);
    }
  }

  lemma ValueOfAppend(s: seq<Octet>, x: Octet)
    ensures Value(s + [x]) == Value(s) * 256 + x
  {
    assert (s + [x])[..|s|] == s;
  }

  const TOO_WIDE := "value cannot fit in the field"
  const END_OF_OUTPUT := "reached end of output buffer"
  const END_OF_INPUT := "reached end of input buffer"

  /** `serialize(val, field_size, buf)`: append the octets, or throw if `val` does not fit. */
  method Append(val: nat, size: nat, buf: seq<Octet>) returns (r: Result<seq<Octet>>)
    ensures r.Ok? <==> val < Pow256(size)
    ensures r.Ok? ==> r.value == buf + BigEndian(val, size)
    ensures r.Err? ==> r.error == TOO_WIDE
  {
    if val >= Pow256(size) {
      return Err(TOO_WIDE);
    }
    var out: seq<Octet> := buf;
    for i := size downto 0
      invariant out + BigEndian(val, i) == buf + BigEndian(val, size)
    {
      MostSignificantFirst(val, i + 1);
      ghost var before := out;
      out := out + [(val / Pow256(i)) % 256];
      assert out + BigEndian(val, i) == before + BigEndian(val, i + 1);
    }
    assert BigEndian(val, 0) == [];
    r := Ok(out);
  }

  lemma WriteOne(s: seq<Octet>, at: nat, it: nat, x: Octet)
    requires at <= it < |s|
    ensures var t := s[it := x];
            t[..at] == s[..at] && t[it + 1..] == s[it + 1..] && t[at..it + 1] == s[at..it] + [x]
  {
  }

  /** `serialize(val, field_size, buf, it)` with `it` inside the buffer: overwrite in place. */
  method Overwrite(val: nat, size: nat, buf: seq<Octet>, at: nat) returns (r: Result<seq<Octet>>)
    requires at < |buf|
    ensures r.Ok? <==> val < Pow256(size) && at + size <= |buf|
    ensures r.Ok? ==> r.value == buf[..at] + BigEndian(val, size) + buf[at + size..]
  {
    if val >= Pow256(size) {
      return Err(TOO_WIDE);
    }
    var out: seq<Octet>, it := buf, at;
    ghost var whole := BigEndian(val, size);
    assert BigEndian(val, 0) == [];
    hide BigEndian, Pow256;
    assert [] + whole == whole;
    for i := size downto 0
      invariant it == at + size - i && it <= |buf| == |out|
      invariant out[..at] == buf[..at] && out[it..] == buf[it..]
      invariant out[at..it] + BigEndian(val, i) == whole
    {
      if it == |out| {
        return Err(END_OF_OUTPUT);
      }
      MostSignificantFirst(val, i + 1);
      WriteOne(out, at, it, (val / Pow256(i)) % 256);
      out := out[it := (val / Pow256(i)) % 256];
      it := it + 1;
    }
    assert out == out[..at] + out[at..it] + out[it..];
    r := Ok(out);
  }

  /** `deserialize(value, field_size, it, it_end)`: accumulate `size` octets from position `at`. */
  method ReadAt(s: seq<Octet>, at: nat, size: nat) returns (r: Result<nat>)
    requires at <= |s|
    ensures r.Ok? <==> at + size <= |s|
    ensures r.Ok? ==> r.value == Value(s[at..at + size])
  {
    var val: nat, it := 0, at;
    var i := size;
    while i > 0 && it != |s|
      invariant 0 <= i <= size && it == at + size - i <= |s|
      invariant val == Value(s[at..it])
    {
      assert s[at..it + 1] == s[at..it] + [s[it]];
      ValueOfAppend(s[at..it], s[it]);
      val := val * 256 + s[it];
      i, it := i - 1, it + 1;
    }
    if i > 0 {
      return Err(END_OF_INPUT);
    }
    r := Ok(val);
  }
}
