/**
 * PKCS#7 padding (section 6.3 of RFC 5652) as the downloader's padding library applies
 * it: `pad` always appends between 1 and `bs` bytes, each holding the pad length, and
 * `unpad` refuses empty input, input that is not a whole number of blocks, a pad length
 * outside 1..min(bs, len) and a tail whose bytes do not all equal the pad length.
 */
module Pkcs7 {
  import opened Common

  /** A pad length must fit in one byte, and a block holds at least one byte. */
  predicate ValidBlockSize(bs: int) {
    0 < bs < 256
  }

  /** `k` bytes, each holding the value `k`: the pad that PKCS#7 appends. */
  function Filler(k: nat): (r: Bytes)
    requires k < 256
    ensures |r| == k && forall i :: 0 <= i < k ==> r[i] == k
  {
    seq(k, _ => k as byte)
  }

  /** Number of pad bytes added to `n` bytes of data. */
  function PadLength(n: nat, bs: int): (p: nat)
    requires ValidBlockSize(bs)
    ensures 1 <= p <= bs
    ensures (n + p) % bs == 0
  {
    var p := bs - n % bs;
    assert n + p == (n / bs + 1) * bs;
    MultipleMod(n / bs + 1, bs);
    p
  }

  lemma MultipleMod(k: int, bs: int)
    requires bs > 0
    ensures (k * bs) % bs == 0
  {
    DivModUnique(k * bs, bs, k, 0);
  }

  /** Euclidean division has one quotient and one remainder. */
  lemma DivModUnique(x: int, bs: int, q: int, r: int)
    requires bs > 0 && 0 <= r < bs && x == q * bs + r
    ensures x % bs == r
  {
    var q', r' := x / bs, x % bs;
    assert (q - q') * bs == r' - r;
    if q > q' {
      MulAtLeast(q - q', bs);
    } else if q < q' {
      MulAtLeast(q' - q, bs);
    }
  }

  lemma {:induction false} MulAtLeast(c: int, bs: int)
    requires c >= 1 && bs > 0
    ensures c * bs >= bs
  {
    if c > 1 {
      MulAtLeast(c - 1, bs);
      assert c * bs == (c - 1) * bs + bs;
    }
  }

  function Pad(data: Bytes, bs: int): (r: Bytes)
    requires ValidBlockSize(bs)
    ensures |data| < |r| <= |data| + bs
    ensures |r| % bs == 0
    ensures r[..|data|] == data
    ensures forall i :: |data| <= i < |r| ==> r[i] == |r| - |data|
  {
    data + Filler(PadLength(|data|, bs))
  }

  /**
   * Independent statement of "correctly padded": a whole number of blocks whose last
   * `p` bytes, for some `p` in 1..bs, all hold the value `p`.
   */
  ghost predicate WellPadded(x: Bytes, bs: int)
    requires ValidBlockSize(bs)
  {
    |x| > 0 && |x| % bs == 0 &&
    exists p :: 1 <= p <= bs && p <= |x| && x[|x| - p..] == Filler(p)
  }

  /** `unpad`; `None` stands for the ValueError it raises. */
  function Unpad(x: Bytes, bs: int): (r: Option<Bytes>)
    requires ValidBlockSize(bs)
    ensures r.Some? <==> WellPadded(x, bs)
    ensures r.Some? ==> |x| - bs <= |r.value| < |x| && r.value == x[..|r.value|]
  {
    if |x| == 0 || |x| % bs != 0 then None
    else
      var p := x[|x| - 1];
      if p < 1 || p > bs || p > |x| then
        None
      else if x[|x| - p..] != Filler(p) then
        None
      else
        Some(x[..|x| - p])
  }

  /** Unpadding what `Pad` produced gives back the data. */
  lemma {:induction false} UnpadPad(data: Bytes, bs: int)
    requires ValidBlockSize(bs)
    ensures Unpad(Pad(data, bs), bs) == Some(data)
  {
    var x := Pad(data, bs);
    var p := PadLength(|data|, bs);
    assert x[|x| - 1] == p;
    assert x[|x| - p..] == Filler(p);
    assert x[..|x| - p] == data;
  }

  /** Padding what `Unpad` accepted rebuilds its input: the other direction. */
  lemma {:induction false} PadUnpad(x: Bytes, bs: int)
    requires ValidBlockSize(bs)
    requires Unpad(x, bs).Some?
    ensures Pad(Unpad(x, bs).value, bs) == x
  {
    var p := x[|x| - 1] as int;
    var d := x[..|x| - p];
    assert |d| == |x| - p;
    var q := |x| / bs;
    assert |x| == q * bs;
    if p == bs {
      assert |d| == (q - 1) * bs;
      MultipleMod(q - 1, bs);
    } else {
      assert |d| == (q - 1) * bs + (bs - p);
      ModOfOffset(q - 1, bs, bs - p);
    }
    assert PadLength(|d|, bs) == p;
    assert x == d + x[|x| - p..];
  }

  lemma ModOfOffset(k: int, bs: int, r: int)
    requires bs > 0 && 0 <= r < bs
    ensures (k * bs + r) % bs == r
  {
    DivModUnique(k * bs + r, bs, k, r);
  }
}
