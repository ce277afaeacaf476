/**
 * Base-128 varints as the generated x/co codecs write and read them
 * (Protocol Buffers Encoding, section "Base 128 Varints").
 */
module Varint {
  import opened Basics

  // ---------- bit operations on naturals ----------

  function Pow2(n: nat): (p: nat)
    ensures p > 0
  {
    if n == 0 then 1 else 2 * Pow2(n - 1)
  }

  /** Bitwise `x | y`. */
  function Or(x: nat, y: nat): nat
    decreases x + y
  {
    if x == 0 then y
    else if y == 0 then x
    else 2 * Or(x / 2, y / 2) + (if x % 2 == 1 || y % 2 == 1 then 1 else 0)
  }

  /** `x << shift` in an unsigned type of the given width. */
  function Shl(x: nat, shift: nat, width: nat): nat {
    (x * Pow2(shift)) % Pow2(width)
  }

  /** `bits.Len64`. */
  function BitLen(x: nat): nat {
    if x == 0 then 0 else 1 + BitLen(x / 2)
  }

  lemma {:induction false} Pow2Add(a: nat, b: nat)
    ensures Pow2(a + b) == Pow2(a) * Pow2(b)
  {
    if a == 0 {
    } else {
      Pow2Add(a - 1, b);
      assert Pow2(a + b) == 2 * Pow2(a - 1 + b);
      assert Pow2(a) * Pow2(b) == 2 * (Pow2(a - 1) * Pow2(b));
    }
  }

  lemma Pow2Values()
    ensures Pow2(7) == 128 && Pow2(32) == U32 && Pow2(64) == U64
  {
    assert Pow2(3) == 8 && Pow2(4) == 16;
    hide Pow2;
    Pow2Add(4, 3);
    Pow2Add(4, 4);
    assert Pow2(8) == 0x100;
    Pow2Add(8, 8);
    assert Pow2(16) == 0x1_0000;
    Pow2Add(16, 16);
    assert Pow2(32) == U32;
    Pow2Add(32, 32);
  }

  /** Or-ing in bits above everything set so far is addition. */
  lemma {:induction false} OrDisjoint(x: nat, y: nat, shift: nat)
    requires x < Pow2(shift)
    ensures Or(x, y * Pow2(shift)) == x + y * Pow2(shift)
    decreases shift
  {
    if x == 0 || y == 0 {
    } else {
      var p := Pow2(shift - 1);
      assert y * Pow2(shift) == 2 * (y * p) by { assert Pow2(shift) == 2 * p; }
      assert y * p > 0;
      OrDisjoint(x / 2, y, shift - 1);
    }
  }

  // ---------- the two directions as functions ----------

  function EncodeVarint(v: nat): (r: Bytes)
    ensures |r| >= 1
    ensures v < 128 ==> |r| == 1
  {
    if v < 128 then [v] else [v % 128 + 128] + EncodeVarint(v / 128)
  }

  /** The unbounded number a group of seven-bit digits stands for. */
  function Raw(bs: Bytes): nat {
    if bs == [] then 0 else bs[0] % 128 + 128 * Raw(bs[1..])
  }

  /** Length of the varint at the head of `d`, if one ends within `budget` bytes. */
  function Span(d: Bytes, budget: nat): (r: Option<nat>)
    ensures r.Some? ==> 1 <= r.value <= |d| && r.value <= budget
  {
    if budget == 0 || d == [] then None
    else if d[0] < 128 then Some(1)
    else match Span(d[1..], budget - 1)
      case None => None
      case Some(n) => Some(n + 1)
  }

  /** What a 64-bit decode loop reads from the head of `d`: value and length. */
  function ReadVarint(d: Bytes): (r: Option<(uint64, nat)>)
    ensures r.Some? ==> 1 <= r.value.1 <= |d| && r.value.1 <= 10
  {
    match Span(d, 10)
    case None => None
    case Some(n) => Some((Raw(d[..n]) % U64, n))
  }

  // ---------- exactness ----------

  /** The byte count by the closed formula `(Len64(x|1) + 6) / 7`. */
  function Sov(x: uint64): nat {
    (BitLen(Or(x, 1)) + 6) / 7
  }

  lemma OrOne(x: nat)
    ensures Or(x, 1) == if x % 2 == 1 then x else x + 1
  {
    if x > 0 {
      assert Or(x, 1) == 2 * Or(x / 2, 0) + 1;
    }
  }

  lemma BitLenStep(x: nat)
    requires x >= 128
    ensures BitLen(x) == 7 + BitLen(x / 128)
  {
    var c := x / 2 / 2;
    assert BitLen(x) == 2 + BitLen(c);
    var f := c / 2 / 2;
    assert BitLen(c) == 2 + BitLen(f);
    var h := f / 2 / 2;
    assert BitLen(f) == 2 + BitLen(h);
    assert h / 2 == x / 128;
  }

  lemma BitLenSmall(x: nat)
    requires 0 < x < 128
    ensures 1 <= BitLen(x) <= 7
  {
    var c := x / 2 / 2;
    assert BitLen(x) <= 2 + BitLen(c);
    var f := c / 2 / 2;
    assert BitLen(c) <= 2 + BitLen(f);
    var h := f / 2 / 2;
    assert BitLen(f) <= 2 + BitLen(h);
    assert h <= 1;
  }

  /** The closed formula is the number of bytes the encode loop writes, 1 to 10. */
  lemma {:induction false} SovIsLength(v: uint64)
    ensures |EncodeVarint(v)| == Sov(v)
    ensures 1 <= Sov(v) <= 10
  {
    SovStep(v, 10);
  }

  lemma BitLenOdd(v: nat)
    ensures v < 128 ==> 1 <= BitLen(Or(v, 1)) <= 7
    ensures v >= 128 ==> BitLen(Or(v, 1)) == 7 + BitLen(Or(v / 128, 1))
  {
    hide BitLen; hide Or;
    OrOne(v);
    if v < 128 {
      BitLenSmall(Or(v, 1));
    } else {
      OrOne(v / 128);
      BitLenStep(Or(v, 1));
      assert Or(v, 1) / 128 == v / 128;
      BitLenEvenOdd(v / 128);
    }
  }

  lemma BitLenEvenOdd(w: nat)
    requires w > 0
    ensures BitLen(if w % 2 == 1 then w else w + 1) == BitLen(w)
  {
  }

  lemma {:induction false} SovStep(v: uint64, budget: nat)
    requires 1 <= budget <= 10
    requires v < Pow128(budget)
    ensures |EncodeVarint(v)| == Sov(v) <= budget
    decreases budget
  {
    hide Or; hide BitLen;
    BitLenOdd(v);
    if v >= 128 {
      SovStep(v / 128, budget - 1);
    }
  }

  function Pow128(n: nat): (p: nat)
    ensures p > 0
  {
    if n == 0 then 1 else 128 * Pow128(n - 1)
  }

  lemma {:induction false} RawOfEncode(v: nat, rest: Bytes)
    ensures Raw(EncodeVarint(v)) == v
    ensures forall budget: nat :: |EncodeVarint(v)| <= budget ==> Span(EncodeVarint(v) + rest, budget) == Some(|EncodeVarint(v)|)
  {
    var e := EncodeVarint(v);
    if v >= 128 {
      var e' := EncodeVarint(v / 128);
      RawOfEncode(v / 128, rest);
      assert e[1..] == e';
      assert (e + rest)[1..] == e' + rest;
    } else {
      assert Raw(e[1..]) == 0;
    }
  }

  /** Decoding undoes encoding, whatever bytes follow, and stops at the encoding's end. */
  lemma VarintRoundTrip(v: uint64, rest: Bytes)
    ensures ReadVarint(EncodeVarint(v) + rest) == Some((v, Sov(v)))
  {
    SovIsLength(v);
    RawOfEncode(v, rest);
    hide Sov; hide EncodeVarint; hide Raw; hide Span;
    var e := EncodeVarint(v);
    assert |e| <= 10 && Span(e + rest, 10) == Some(|e|);
    assert (e + rest)[..|e|] == e;
    assert Raw(e) % U64 == v;
  }

  lemma {:induction false} SpanPrefix(a: Bytes, b: Bytes, budget: nat)
    requires Span(a, budget).Some?
    ensures Span(a + b, budget) == Span(a, budget)
  {
    if a[0] >= 128 {
      assert (a + b)[1..] == a[1..] + b;
      SpanPrefix(a[1..], b, budget - 1);
    }
  }

  /** A varint that ends inside `a` is read the same when more bytes follow. */
  lemma ReadVarintPrefix(a: Bytes, b: Bytes)
    requires ReadVarint(a).Some?
    ensures ReadVarint(a + b) == ReadVarint(a)
  {
    SpanPrefix(a, b, 10);
    var n := Span(a, 10).value;
    assert (a + b)[..n] == a[..n];
  }

  /** A varint ends at the first byte without its top bit, which is one of the first ten. */
  lemma {:induction false} SpanIsExact(d: Bytes, budget: nat, n: nat)
    ensures Span(d, budget) == Some(n) <==>
            1 <= n <= |d| && n <= budget && d[n - 1] < 128 && forall i :: 0 <= i < n - 1 ==> d[i] >= 128
    decreases budget
  {
    if budget > 0 && d != [] && d[0] >= 128 && n > 0 {
      SpanIsExact(d[1..], budget - 1, n - 1);
      assert forall i :: 0 <= i < |d| - 1 ==> d[1..][i] == d[i + 1];
      assert forall i :: 1 <= i < |d| ==> d[i] == d[1..][i - 1];
    }
  }

  lemma ReadIsExact(d: Bytes, n: nat)
    ensures (ReadVarint(d).Some? && ReadVarint(d).value.1 == n) <==>
            1 <= n <= |d| && n <= 10 && d[n - 1] < 128 && forall i :: 0 <= i < n - 1 ==> d[i] >= 128
  {
    hide Span;
    SpanIsExact(d, 10, n);
  }

  /** The example of the encoding's description: 150 is the bytes 96 01. */
  lemma Example150()
    ensures EncodeVarint(150) == [0x96, 0x01] && ReadVarint([0x96, 0x01]) == Some((150, 2))
  {
    VarintRoundTrip(150, []);
    SovIsLength(150);
    assert EncodeVarint(150) + [] == EncodeVarint(150);
  }

  // ---------- the encode loop ----------

  lemma EncodeUnfold(x: nat)
    requires x >= 128
    ensures EncodeVarint(x) == [x % 128 + 128] + EncodeVarint(x / 128)
  {
  }

  lemma EncodeStep(x: nat, done: Bytes)
    requires x >= 128
    ensures done + EncodeVarint(x) == (done + [x % 128 + 128]) + EncodeVarint(x / 128)
    ensures |EncodeVarint(x)| == 1 + |EncodeVarint(x / 128)|
  {
    hide EncodeVarint;
    EncodeUnfold(x);
    Regroup(done, x % 128 + 128, EncodeVarint(x / 128));
  }

  lemma EncodeLast(x: nat)
    requires x < 128
    ensures EncodeVarint(x) == [x]
  {
  }

  /** Storing the byte after a written stretch extends it by that byte and keeps the rest. */
  method Put(dAtA: array<Byte>, base: nat, off: nat, offset: nat, b: Byte)
    requires base <= off < offset <= dAtA.Length
    modifies dAtA
    ensures dAtA[base..off + 1] == old(dAtA[base..off]) + [b]
    ensures dAtA[..base] == old(dAtA[..base]) && dAtA[offset..] == old(dAtA[offset..])
  {
    dAtA[off] := b;
    assert dAtA[base..off] == old(dAtA[base..off]);
  }

  method EncodeVarintAt(dAtA: array<Byte>, offset: nat, v: uint64) returns (base: nat)
    requires Sov(v) <= offset <= dAtA.Length
    modifies dAtA
    ensures base == offset - Sov(v)
    ensures dAtA[base..offset] == EncodeVarint(v)
    ensures dAtA[..base] == old(dAtA[..base]) && dAtA[offset..] == old(dAtA[offset..])
  {
    SovIsLength(v);
    hide Sov; hide EncodeVarint;
    var off := offset - Sov(v);
    base := off;
    var x: nat := v;
    assert dAtA[base..off] + EncodeVarint(x) == EncodeVarint(v);
    while x >= 128
      invariant base <= off && off + |EncodeVarint(x)| == offset
      invariant dAtA[base..off] + EncodeVarint(x) == EncodeVarint(v)
      invariant dAtA[..base] == old(dAtA[..base]) && dAtA[offset..] == old(dAtA[offset..])
    {
      EncodeStep(x, dAtA[base..off]);
      Put(dAtA, base, off, offset, x % 128 + 128);
      x := x / 128;
      off := off + 1;
    }
    EncodeLast(x);
    Put(dAtA, base, off, offset, x);
  }

  // ---------- the decode loop ----------

  lemma Pow2Seven(n: nat)
    ensures Pow2(7 * (n + 1)) == 128 * Pow2(7 * n)
  {
    Pow2Add(7, 7 * n);
    Pow2Values();
  }

  lemma {:induction false} RawSnoc(bs: Bytes, b: Byte)
    ensures Raw(bs + [b]) == Raw(bs) + (b % 128) * Pow2(7 * |bs|)
    ensures Raw(bs) < Pow2(7 * |bs|)
  {
    if bs == [] {
      assert Raw([b][1..]) == 0;
      assert bs + [b] == [b];
    } else {
      RawSnoc(bs[1..], b);
      assert (bs + [b])[1..] == bs[1..] + [b];
      hide Pow2;
      Pow2Seven(|bs| - 1);
      RawSnocStep(bs[0] % 128, Raw(bs[1..]), b % 128, Pow2(7 * (|bs| - 1)));
    }
  }

  lemma RawSnocStep(a: nat, r: nat, c: nat, p: nat)
    requires a < 128 && r < p
    ensures a + 128 * (r + c * p) == (a + 128 * r) + c * (128 * p)
    ensures a + 128 * r < 128 * p
  {
  }

  /** One turn of the loop: or-ing the next seven bits into the accumulator. */
  lemma Accumulate(bs: Bytes, b: Byte, width: nat)
    ensures Or(Raw(bs) % Pow2(width), Shl(b % 128, 7 * |bs|, width)) == Raw(bs + [b]) % Pow2(width)
  {
    RawSnoc(bs, b);
    AccumulateNumbers(Raw(bs), b % 128, 7 * |bs|, width);
  }

  lemma AccumulateNumbers(r: nat, c: nat, s: nat, width: nat)
    requires r < Pow2(s)
    ensures Or(r % Pow2(width), Shl(c, s, width)) == (r + c * Pow2(s)) % Pow2(width)
  {
    if s <= width {
      var p, q := Pow2(s), Pow2(width - s);
      Pow2Add(s, width - s);
      ModFactor(r, c, p, q);
      OrDisjoint(r, c % q, s);
    } else {
      var m, k := Pow2(width), Pow2(s - width);
      Pow2Add(width, s - width);
      ModMultiple(r, c, m, k);
      assert Shl(c, s, width) == 0;
    }
  }

  lemma ModFactor(r: nat, c: nat, p: nat, q: nat)
    requires r < p && q > 0
    ensures p * q > 0
    ensures r % (p * q) == r
    ensures (c * p) % (p * q) == (c % q) * p
    ensures (r + c * p) % (p * q) == r + (c % q) * p
  {
    var k, t := c / q, c % q;
    assert c == k * q + t;
    assert c * p == k * (p * q) + t * p by { assert c * p == (k * q) * p + t * p; assert (k * q) * p == k * (p * q); }
    assert t * p <= (q - 1) * p;
    assert (q - 1) * p == p * q - p;
    ModUnique(c * p, p * q, k, t * p);
    ModUnique(r + c * p, p * q, k, r + t * p);
    assert p <= p * q;
    ModUnique(r, p * q, 0, r);
  }

  lemma ModMultiple(r: nat, c: nat, m: nat, k: nat)
    requires m > 0
    ensures (c * (m * k)) % m == 0
    ensures (r + c * (m * k)) % m == r % m
  {
    assert c * (m * k) == (c * k) * m;
    ModUnique(c * (m * k), m, c * k, 0);
    ModUnique(r + c * (m * k), m, c * k + r / m, r % m);
  }

  lemma ModUnique(x: int, m: int, k: int, t: int)
    requires m > 0 && x == k * m + t && 0 <= t < m
    ensures x % m == t
  {
    var q, u := x / m, x % m;
    assert x == q * m + u;
    if k > q {
      assert (k - q) * m == k * m - q * m;
      MulAtLeast(k - q, m);
    } else if k < q {
      assert (q - k) * m == q * m - k * m;
      MulAtLeast(q - k, m);
    }
  }

  lemma MulAtLeast(a: int, m: int)
    requires a >= 1 && m > 0
    ensures a * m >= m
  {
    assert a * m == (a - 1) * m + m;
  }

  lemma ModMod(x: nat, width: nat)
    requires width == 32 || width == 64
    ensures x % U64 % Pow2(width) == x % Pow2(width)
  {
    Pow2Values();
    if width == 32 {
      assert x % U64 == x - (x / U64) * U64;
    }
  }

  /** The state of the decode loop after `k` bytes that all had their top bit set. */
  ghost predicate Reading(d: Bytes, k: nat, acc: nat, width: nat) {
    && k <= |d| && k <= 10
    && acc == Raw(d[..k]) % Pow2(width)
    && Span(d, 10) == match Span(d[k..], 10 - k) case None => None case Some(n) => Some(n + k)
  }

  lemma ReadStart(d: Bytes, width: nat)
    ensures Reading(d, 0, 0, width)
  {
    assert d[..0] == [] && d[0..] == d;
    ModUnique(0, Pow2(width), 0, 0);
  }

  lemma ReadTurn(d: Bytes, k: nat, acc: nat, width: nat)
    requires width == 32 || width == 64
    requires k < |d| && k < 10 && Reading(d, k, acc, width)
    ensures var acc' := Or(acc, Shl(d[k] % 128, 7 * k, width));
            if d[k] < 128 then
              ReadVarint(d).Some? && ReadVarint(d).value.1 == k + 1 && acc' == ReadVarint(d).value.0 % Pow2(width)
            else
              Reading(d, k + 1, acc', width)
  {
    hide Or; hide Shl; hide Pow2; hide Raw;
    Accumulate(d[..k], d[k], width);
    assert d[..k] + [d[k]] == d[..k + 1];
    assert d[k..][1..] == d[k + 1..];
    ModMod(Raw(d[..k + 1]), width);
  }

  lemma ReadEnds(d: Bytes, k: nat, acc: nat, width: nat)
    requires Reading(d, k, acc, width)
    ensures k == 10 || k == |d| ==> ReadVarint(d).None?
  {
  }

  /**
   * The decode loop over `dAtA[i..l]`, accumulating in an unsigned type of
   * 64 bits, or of 32 bits for a uint32 field.
   */
  method ReadVarintAt(dAtA: array<Byte>, i: nat, l: nat, width: nat) returns (r: Option<(nat, nat)>)
    requires i <= l <= dAtA.Length
    requires width == 32 || width == 64
    ensures r == match ReadVarint(dAtA[i..l])
                 case None => None
                 case Some(vn) => Some((vn.0 % Pow2(width), i + vn.1))
  {
    hide Or; hide Shl; hide Pow2; hide ReadVarint; hide Reading;
    ghost var d := dAtA[i..l];
    var j, shift, acc := i, 0, 0;
    ReadStart(d, width);
    while true
      invariant i <= j <= l && j - i <= 10 && shift == 7 * (j - i)
      invariant Reading(d, j - i, acc, width)
      decreases l - j
    {
      ReadEnds(d, j - i, acc, width);
      if shift >= 64 { return None; }
      if j >= l { return None; }
      var b := dAtA[j];
      ReadTurn(d, j - i, acc, width);
      acc := Or(acc, Shl(b % 128, shift, width));
      j := j + 1;
      if b < 128 { break; }
      shift := shift + 7;
    }
    return Some((acc, j));
  }

  /** The loop into a uint64 (or an `int`, read as its 64 bits). */
  method ReadUint64At(dAtA: array<Byte>, i: nat, l: nat) returns (r: Option<(uint64, nat)>)
    requires i <= l <= dAtA.Length
    ensures r == match ReadVarint(dAtA[i..l]) case None => None case Some((v, n)) => Some((v, i + n))
  {
    Pow2Values();
    hide Pow2; hide ReadVarint;
    r := ReadVarintAt(dAtA, i, l, 64);
  }

  /** The loop into a uint32: the low 32 bits of what the 64-bit loop reads. */
  method ReadUint32At(dAtA: array<Byte>, i: nat, l: nat) returns (r: Option<(uint32, nat)>)
    requires i <= l <= dAtA.Length
    ensures r == match ReadVarint(dAtA[i..l]) case None => None case Some((v, n)) => Some((v % U32, i + n))
  {
    Pow2Values();
    hide Pow2; hide ReadVarint;
    r := ReadVarintAt(dAtA, i, l, 32);
  }
}
