/**
 * The generated code itself: Size, the right-to-left marshaller over a byte
 * array and the index-driven unmarshaller that updates a struct in place.
 */
module Buffers {
  import opened Basics
  import opened Varint
  import opened Skip
  import opened Codec

  // ---------- Size ----------

  lemma DelimitedLength(num: nat, body: Bytes)
    requires 1 <= num <= 15 && |body| < U64
    ensures |Delimited(num, body)| == 1 + |body| + Sov(|body|)
  {
    SovIsLength(|body|);
  }

  /** Size adds up to exactly what Marshal will write. */
  method Size(x: External, s: Schema, m: Message) returns (n: nat)
    requires WellTyped(s, m) && |Encode(x, s, m)| < I64
    ensures n == |Encode(x, s, m)|
    decreases s, 2
  {
    n := 0;
    for k := 0 to |s.kinds|
      invariant n + |EncodeFrom(x, s, m, k)| == |Encode(x, s, m)|
    {
      var l := SizeOfValue(x, k + 1, s.kinds[k], m.vals[k]);
      n := n + l;
    }
  }

  method SizeOfValue(x: External, num: nat, k: Kind, v: Value) returns (n: nat)
    requires 1 <= num <= 15 && Fits(k, v) && |EncodeValue(x, num, k, v)| < I64
    ensures n == |EncodeValue(x, num, k, v)|
    decreases k, 1
  {
    hide Sov; hide EncodeVarint; hide Delimited;
    n := 0;
    match v {
      case Num(u) =>
        if u != 0 {
          SovIsLength(u);
          n := if k.BoolKind? then 2 else 1 + Sov(u);
        }
      case Str(s) =>
        if |s| > 0 { DelimitedLength(num, s); n := 1 + |s| + Sov(|s|); }
      case Times(ts) =>
        if |ts| > 0 { var b := TimeBytes(x, ts[0]); DelimitedLength(num, b); n := 1 + |b| + Sov(|b|); }
      case Anys(anys) =>
        if |anys| > 0 { var b := x.encAny(anys[0]); DelimitedLength(num, b); n := 1 + |b| + Sov(|b|); }
      case Subs(ms) =>
        n := SizeOfSubs(x, num, k.sub, ms);
    }
  }

  method SizeOfSubs(x: External, num: nat, sub: Schema, ms: seq<Message>) returns (n: nat)
    requires 1 <= num <= 15 && forall i :: 0 <= i < |ms| ==> WellTyped(sub, ms[i])
    requires |EncodeSubs(x, num, sub, ms)| < I64
    ensures n == |EncodeSubs(x, num, sub, ms)|
    decreases sub, 3
  {
    hide Sov; hide EncodeVarint; hide Delimited; hide Encode; hide WellTyped;
    n := 0;
    assert ms[0..] == ms;
    for i := 0 to |ms|
      invariant n + |EncodeSubs(x, num, sub, ms[i..])| == |EncodeSubs(x, num, sub, ms)|
    {
      assert ms[i..][1..] == ms[i + 1..];
      var l := Size(x, sub, ms[i]);
      DelimitedLength(num, Encode(x, sub, ms[i]));
      n := n + 1 + l + Sov(l);
    }
  }

  // ---------- Marshal, from the end of the buffer to its front ----------

  /** A body already lies at `dAtA[i..i+size]`; put its length and the field's key in front of it. */
  method PutPrefix(num: nat, size: nat, ghost body: Bytes, dAtA: array<Byte>, i: nat) returns (i': nat)
    requires 1 <= num <= 15 && size == |body| < I64
    requires i + size <= dAtA.Length && dAtA[i..i + size] == body
    requires |Delimited(num, body)| <= i + size
    modifies dAtA
    ensures i' == i + size - |Delimited(num, body)|
    ensures dAtA[i'..i + size] == Delimited(num, body)
    ensures dAtA[..i'] == old(dAtA[..i']) && dAtA[i + size..] == old(dAtA[i + size..])
  {
    hide Sov; hide EncodeVarint;
    DelimitedLength(num, body);
    i' := EncodeVarintAt(dAtA, i, size);
    assert dAtA[i..i + size] == body by { assert dAtA[i..][..size] == old(dAtA[i..])[..size]; }
    assert dAtA[i'..i + size] == EncodeVarint(size) + body by { Adjoin(dAtA, i', i, i + size); }
    i' := i' - 1;
    dAtA[i'] := num * 8 + 2;
    assert dAtA[i'..i + size] == Delimited(num, body) by { Adjoin(dAtA, i', i' + 1, i + size); }
  }

  lemma Adjoin(a: array<Byte>, i: nat, j: nat, k: nat)
    requires i <= j <= k <= a.Length
    ensures a[i..k] == a[i..j] + a[j..k]
    ensures i < k ==> a[i..k] == [a[i]] + a[i + 1..k]
  {
  }

  method PutDelimited(num: nat, body: Bytes, dAtA: array<Byte>, i: nat) returns (i': nat)
    requires 1 <= num <= 15 && |body| < I64 && |Delimited(num, body)| <= i <= dAtA.Length
    modifies dAtA
    ensures i' == i - |Delimited(num, body)|
    ensures dAtA[i'..i] == Delimited(num, body)
    ensures dAtA[..i'] == old(dAtA[..i']) && dAtA[i..] == old(dAtA[i..])
  {
    hide Delimited;
    i' := i - |body|;
    forall j | 0 <= j < |body| { dAtA[i' + j] := body[j]; }
    assert dAtA[i'..i] == body;
    assert dAtA[..i'] == old(dAtA[..i']) && dAtA[i..] == old(dAtA[i..]);
    label copied:
    i' := PutPrefix(num, |body|, body, dAtA, i');
    assert dAtA[..i'] == old@copied(dAtA[..i - |body|])[..i'];
  }

  lemma {:induction false} EncodeFromLength(x: External, s: Schema, m: Message, k: nat)
    requires WellTyped(s, m) && k <= |s.kinds|
    ensures |EncodeFrom(x, s, m, k)| <= |Encode(x, s, m)|
  {
    hide EncodeValue; hide Fits;
    if k > 0 {
      EncodeFromLength(x, s, m, k - 1);
    }
  }

  lemma {:induction false} EncodeSubsLength(x: External, num: nat, sub: Schema, ms: seq<Message>, i: nat)
    requires 1 <= num <= 15 && i <= |ms| && forall j :: 0 <= j < |ms| ==> WellTyped(sub, ms[j])
    ensures |EncodeSubs(x, num, sub, ms[i..])| <= |EncodeSubs(x, num, sub, ms)|
    ensures i < |ms| ==>
      EncodeSubs(x, num, sub, ms[i..]) == Delimited(num, Encode(x, sub, ms[i])) + EncodeSubs(x, num, sub, ms[i + 1..])
  {
    hide Delimited; hide Encode; hide WellTyped;
    if i < |ms| { assert ms[i..][1..] == ms[i + 1..]; }
    if i == 0 {
      assert ms[0..] == ms;
    } else {
      EncodeSubsLength(x, num, sub, ms, i - 1);
    }
  }

  /** Write one field so that it ends at `i`; the result is where it starts. */
  method MarshalValue(x: External, num: nat, k: Kind, v: Value, dAtA: array<Byte>, i: nat) returns (r: Option<nat>)
    requires 1 <= num <= 15 && Fits(k, v)
    requires |EncodeValue(x, num, k, v)| <= i <= dAtA.Length < I64
    modifies dAtA
    ensures r.Some? <==> EncodableValue(x, k, v)
    ensures r.Some? ==> r.value == i - |EncodeValue(x, num, k, v)|
    ensures r.Some? ==> dAtA[r.value..i] == EncodeValue(x, num, k, v) && dAtA[..r.value] == old(dAtA[..r.value])
    ensures dAtA[i..] == old(dAtA[i..])
    decreases k, 1
  {
    hide Delimited; hide WellTyped; hide Encodable; hide EncodeSubs;
    match v {
      case Num(n) =>
        if n == 0 { return Some(i); }
        var i' := MarshalNum(num, n, k.BoolKind?, dAtA, i);
        return Some(i');
      case Str(s) =>
        if |s| == 0 { return Some(i); }
        var i' := PutDelimited(num, s, dAtA, i);
        return Some(i');
      case Times(ts) =>
        if |ts| == 0 { return Some(i); }
        match x.encTime(ts[0]) {
          case None => return None;
          case Some(b) =>
            var i' := PutDelimited(num, b, dAtA, i);
            return Some(i');
        }
      case Anys(anys) =>
        if |anys| == 0 { return Some(i); }
        var i' := PutDelimited(num, x.encAny(anys[0]), dAtA, i);
        return Some(i');
      case Subs(ms) =>
        r := MarshalSubs(x, num, k.sub, ms, dAtA, i);
    }
  }

  method MarshalNum(num: nat, n: uint64, isBool: bool, dAtA: array<Byte>, i: nat) returns (i': nat)
    requires 1 <= num <= 15 && 0 < n && (isBool ==> n == 1)
    requires |Scalar(num, n)| <= i <= dAtA.Length
    modifies dAtA
    ensures i' == i - |Scalar(num, n)|
    ensures dAtA[i'..i] == Scalar(num, n)
    ensures dAtA[..i'] == old(dAtA[..i']) && dAtA[i..] == old(dAtA[i..])
  {
    hide Sov; hide BitLen; hide Or;
    SovIsLength(n);
    if isBool {
      i' := i - 1;
      dAtA[i'] := 1;
      assert dAtA[i'..i] == EncodeVarint(n);
    } else {
      i' := EncodeVarintAt(dAtA, i, n);
    }
    i' := i' - 1;
    dAtA[i'] := num * 8;
    Adjoin(dAtA, i', i' + 1, i);
  }

  /** Buffer contents `cur` differ from `was` exactly in `[i, end)`, which holds `done`. */
  ghost predicate Written(was: Bytes, cur: Bytes, i: int, end: nat, done: Bytes) {
    && 0 <= i <= end <= |was| == |cur|
    && cur[..i] == was[..i] && cur[i..end] == done && cur[end..] == was[end..]
  }

  lemma WrittenMore(was: Bytes, cur: Bytes, next: Bytes, i': nat, i: nat, end: nat, piece: Bytes, done: Bytes)
    requires Written(was, cur, i, end, done)
    requires i' <= i && |next| == |cur| && next[..i'] == cur[..i'] && next[i'..i] == piece && next[i..] == cur[i..]
    ensures Written(was, next, i', end, piece + done)
  {
    assert next[..i'] == cur[..i][..i'];
    assert next[i'..end] == next[i'..i] + next[i..][..end - i];
    assert next[end..] == next[i..][end - i..];
  }

  /** The loop over a repeated field, last element first. */
  method MarshalSubs(x: External, num: nat, sub: Schema, ms: seq<Message>, dAtA: array<Byte>, end: nat) returns (r: Option<nat>)
    requires 1 <= num <= 15 && forall j :: 0 <= j < |ms| ==> WellTyped(sub, ms[j])
    requires |EncodeSubs(x, num, sub, ms)| <= end <= dAtA.Length < I64
    modifies dAtA
    ensures r.Some? <==> forall j :: 0 <= j < |ms| ==> Encodable(x, sub, ms[j])
    ensures r.Some? ==> r.value == end - |EncodeSubs(x, num, sub, ms)|
    ensures r.Some? ==> dAtA[r.value..end] == EncodeSubs(x, num, sub, ms) && dAtA[..r.value] == old(dAtA[..r.value])
    ensures dAtA[end..] == old(dAtA[end..])
    decreases sub, 4
  {
    hide Delimited; hide Encode; hide WellTyped; hide Encodable; hide EncodeSubs;
    ghost var was := dAtA[..];
    var i := end;
    var iNdEx := |ms|;
    EmptySubs(x, num, sub, ms[|ms|..]);
    while iNdEx > 0
      invariant 0 <= iNdEx <= |ms|
      invariant i == end - |EncodeSubs(x, num, sub, ms[iNdEx..])|
      invariant Written(was, dAtA[..], i, end, EncodeSubs(x, num, sub, ms[iNdEx..]))
      invariant forall j :: iNdEx <= j < |ms| ==> Encodable(x, sub, ms[j])
    {
      hide Written;
      iNdEx := iNdEx - 1;
      EncodeSubsLength(x, num, sub, ms, iNdEx);
      ghost var cur := dAtA[..];
      var i' := MarshalOneSub(x, num, sub, ms[iNdEx], dAtA, i);
      if i'.None? {
        Untouched(was, cur, dAtA[..], i, end, EncodeSubs(x, num, sub, ms[iNdEx + 1..]));
        return None;
      }
      WrittenMore(was, cur, dAtA[..], i'.value, i, end, Delimited(num, Encode(x, sub, ms[iNdEx])), EncodeSubs(x, num, sub, ms[iNdEx + 1..]));
      i := i'.value;
    }
    assert ms[0..] == ms;
    return Some(i);
  }

  lemma Untouched(was: Bytes, cur: Bytes, next: Bytes, i: nat, end: nat, done: Bytes)
    requires Written(was, cur, i, end, done) && |next| == |cur| && next[i..] == cur[i..]
    ensures next[end..] == was[end..]
  {
    assert next[end..] == next[i..][end - i..];
  }

  lemma EmptySubs(x: External, num: nat, sub: Schema, ms: seq<Message>)
    requires 1 <= num <= 15 && ms == []
    ensures EncodeSubs(x, num, sub, ms) == []
  {
  }

  /** One element: its own bytes first, then its length and the field's key in front. */
  method MarshalOneSub(x: External, num: nat, sub: Schema, m: Message, dAtA: array<Byte>, i: nat) returns (r: Option<nat>)
    requires 1 <= num <= 15 && WellTyped(sub, m)
    requires |Delimited(num, Encode(x, sub, m))| <= i <= dAtA.Length < I64
    modifies dAtA
    ensures r.Some? <==> Encodable(x, sub, m)
    ensures r.Some? ==> r.value == i - |Delimited(num, Encode(x, sub, m))|
    ensures r.Some? ==> dAtA[r.value..i] == Delimited(num, Encode(x, sub, m)) && dAtA[..r.value] == old(dAtA[..r.value])
    ensures dAtA[i..] == old(dAtA[i..])
    decreases sub, 3
  {
    hide Delimited; hide Encode; hide WellTyped; hide Encodable;
    ghost var body := Encode(x, sub, m);
    var size := MarshalToSizedBuffer(x, sub, m, dAtA, i);
    if size.None? { return None; }
    label before:
    var i' := PutPrefix(num, size.value, body, dAtA, i - size.value);
    assert dAtA[..i'] == old@before(dAtA[..i - |body|])[..i'] == old(dAtA[..i']);
    return Some(i');
  }

  /**
   * Fill the buffer `dAtA[..end]` from its end: the message occupies exactly
   * its last `Size` bytes, and nothing outside them changes.
   */
  method MarshalToSizedBuffer(x: External, s: Schema, m: Message, dAtA: array<Byte>, end: nat) returns (r: Option<nat>)
    requires WellTyped(s, m) && |Encode(x, s, m)| <= end <= dAtA.Length < I64
    modifies dAtA
    ensures r.Some? <==> Encodable(x, s, m)
    ensures r.Some? ==> r.value == |Encode(x, s, m)|
    ensures r.Some? ==> dAtA[end - r.value..end] == Encode(x, s, m) && dAtA[..end - r.value] == old(dAtA[..end - r.value])
    ensures dAtA[end..] == old(dAtA[end..])
    decreases s, 2
  {
    hide EncodeValue; hide EncodableValue; hide Fits;
    ghost var was := dAtA[..];
    var i := end;
    var k := |s.kinds|;
    while k > 0
      invariant 0 <= k <= |s.kinds|
      invariant i == end - |EncodeFrom(x, s, m, k)|
      invariant Written(was, dAtA[..], i, end, EncodeFrom(x, s, m, k))
      invariant forall j :: k <= j < |s.kinds| ==> EncodableValue(x, s.kinds[j], m.vals[j])
    {
      hide Written;
      k := k - 1;
      EncodeFromLength(x, s, m, k);
      ghost var cur := dAtA[..];
      var i' := MarshalValue(x, k + 1, s.kinds[k], m.vals[k], dAtA, i);
      if i'.None? {
        Untouched(was, cur, dAtA[..], i, end, EncodeFrom(x, s, m, k + 1));
        return None;
      }
      WrittenMore(was, cur, dAtA[..], i'.value, i, end, EncodeValue(x, k + 1, s.kinds[k], m.vals[k]), EncodeFrom(x, s, m, k + 1));
      i := i'.value;
    }
    return Some(end - i);
  }

  /** Marshal: a fresh array holding the message's bytes and nothing else, unless a time cannot be encoded. */
  method Marshal(x: External, s: Schema, m: Message) returns (r: Option<array<Byte>>)
    requires WellTyped(s, m) && |Encode(x, s, m)| < I64
    ensures r.Some? <==> Encodable(x, s, m)
    ensures r.Some? ==> fresh(r.value) && r.value[..] == Encode(x, s, m)
  {
    hide Encode; hide Encodable;
    var size := Size(x, s, m);
    var dAtA := new Byte[size](_ => 0);
    var n := MarshalToSizedBuffer(x, s, m, dAtA, size);
    if n.None? { return None; }
    assert dAtA[size - n.value..size] == dAtA[..];
    return Some(dAtA);
  }

  // ---------- Unmarshal, updating the struct in place ----------

  /**
   * Read a length prefix at index `at` of the slice `dAtA[lo..hi]` and bound its
   * body, in wrapping 64-bit index arithmetic.
   */
  method ExtentAt(dAtA: array<Byte>, lo: nat, at: nat, hi: nat) returns (r: Option<(nat, nat)>)
    requires lo + at <= hi <= dAtA.Length < I64
    ensures r == match Extent(dAtA[lo + at..hi]) case None => None case Some((b, e)) => Some((at + b, at + e))
  {
    hide ReadVarint; hide Wrap64;
    var l := hi - lo;
    var v := ReadUint64At(dAtA, lo + at, hi);
    if v.None? { return None; }
    var iNdEx := v.value.1 - lo;
    var length := Wrap64(v.value.0);
    if length < 0 { return None; }
    var postIndex := Wrap64(iNdEx + length);
    if postIndex < 0 { return None; }
    if postIndex > l { return None; }
    return Some((iNdEx, postIndex));
  }

  lemma SubSlice(a: array<Byte>, lo: nat, at: nat, hi: nat, b: nat, e: nat)
    requires at <= b <= e && lo + e <= hi <= a.Length
    ensures a[lo + at..hi][b - at..e - at] == a[lo + b..lo + e]
  {
    var part := a[lo + at..hi][b - at..e - at];
    assert forall i :: 0 <= i < |part| ==> part[i] == a[lo + b..lo + e][i];
  }

  /** A message as Go holds it: fields that Unmarshal assigns one at a time. */
  class Struct {
    const schema: Schema
    var vals: seq<Value>

    ghost predicate Valid()
      reads this
    {
      GoodSchema(schema) && WellTyped(schema, Message(vals))
    }

    constructor (s: Schema, m: Message)
      requires GoodSchema(s) && WellTyped(s, m)
      ensures Valid() && schema == s && Message(vals) == m
    {
      schema, vals := s, m.vals;
    }

    /**
     * Decode `dAtA[lo..hi]` on top of what the struct holds. Every index stays
     * in the slice on any input, and success means all of it was consumed.
     */
    method Unmarshal(x: External, dAtA: array<Byte>, lo: nat, hi: nat) returns (ok: bool)
      requires Valid() && lo <= hi <= dAtA.Length < I64
      modifies this
      ensures Valid()
      ensures ok <==> Decode(x, schema, old(Message(vals)), dAtA[lo..hi]).Some?
      ensures ok ==> Message(vals) == Decode(x, schema, old(Message(vals)), dAtA[lo..hi]).value
      decreases hi - lo, 2
    {
      hide Step; hide WellTyped; hide GoodSchema;
      ghost var d := dAtA[lo..hi];
      ghost var m := Message(vals);
      var l := hi - lo;
      var iNdEx := 0;
      assert d[0..] == d;
      while iNdEx < l
        invariant 0 <= iNdEx <= l && Valid()
        invariant Decode(x, schema, m, d) == Decode(x, schema, Message(vals), d[iNdEx..])
      {
        assert dAtA[lo + iNdEx..hi] == d[iNdEx..];
        var next := Turn(x, dAtA, lo, iNdEx, hi);
        if next.None? { return false; }
        assert d[iNdEx..][next.value - iNdEx..] == d[next.value..];
        iNdEx := next.value;
      }
      if iNdEx > l { return false; }
      return true;
    }

    /** One turn of the loop from index `preIndex`: the index after it. */
    method Turn(x: External, dAtA: array<Byte>, lo: nat, preIndex: nat, hi: nat) returns (r: Option<nat>)
      requires Valid() && lo + preIndex < hi <= dAtA.Length < I64
      modifies this
      ensures Valid()
      ensures r.Some? <==> Step(x, schema, old(Message(vals)), dAtA[lo + preIndex..hi]).Some?
      ensures r.Some? ==> Step(x, schema, old(Message(vals)), dAtA[lo + preIndex..hi]) == Some((Message(vals), r.value - preIndex))
      decreases hi - lo, 1
    {
      hide ReadVarint; hide ToInt32; hide SkipOne; hide FieldStep; hide Wrap64; hide Fits;
      ghost var d := dAtA[lo + preIndex..hi];
      var l := hi - lo;
      var tag := ReadUint64At(dAtA, lo + preIndex, hi);
      if tag.None? { return None; }
      var iNdEx := tag.value.1 - lo;
      var fieldNum := ToInt32(tag.value.0 / 8);
      var wireType := tag.value.0 % 8;
      if wireType == 4 { return None; }
      if fieldNum <= 0 { return None; }
      if fieldNum <= |schema.kinds| {
        assert d[iNdEx - preIndex..] == dAtA[lo + iNdEx..hi];
        r := SetField(x, fieldNum, wireType, dAtA, lo, iNdEx, hi);
      } else {
        iNdEx := preIndex;
        var skippy := SkipAt(dAtA, lo + iNdEx, hi);
        if skippy.None? { return None; }
        if skippy.value < 0 || Wrap64(iNdEx + skippy.value) < 0 { return None; }
        if Wrap64(iNdEx + skippy.value) > l { return None; }
        assert Message(old(vals)[..]) == old(Message(vals));
        return Some(iNdEx + skippy.value);
      }
    }

    /** The switch arm of a known field, whose payload starts at index `at`. */
    method SetField(x: External, num: nat, wireType: nat, dAtA: array<Byte>, lo: nat, at: nat, hi: nat) returns (r: Option<nat>)
      requires Valid() && 1 <= num <= |schema.kinds| && 0 < at && lo + at <= hi <= dAtA.Length < I64
      requires Fits(schema.kinds[num - 1], vals[num - 1])
      modifies this
      ensures Valid()
      ensures r.Some? <==> FieldStep(x, schema.kinds[num - 1], wireType, old(vals[num - 1]), dAtA[lo + at..hi]).Some?
      ensures r.Some? ==>
        && at <= r.value
        && FieldStep(x, schema.kinds[num - 1], wireType, old(vals[num - 1]), dAtA[lo + at..hi]) == Some((vals[num - 1], r.value - at))
        && vals == old(vals)[num - 1 := vals[num - 1]]
      decreases hi - lo, 0
    {
      hide Fits; hide ReadVarint; hide Apply; hide Narrow; hide Extent;
      var k := schema.kinds[num - 1];
      assert k.SubKind? ==> GoodSchema(k.sub);
      if k.U64Kind? || k.U32Kind? || k.BoolKind? {
        if wireType != 0 { return None; }
        r := SetNumber(k, num, dAtA, lo, at, hi);
      } else {
        if wireType != 2 { return None; }
        var extent := ExtentAt(dAtA, lo, at, hi);
        if extent.None? { return None; }
        var (iNdEx, postIndex) := extent.value;
        SubSlice(dAtA, lo, at, hi, iNdEx, postIndex);
        var ok := SetBody(x, k, num, dAtA, lo + iNdEx, lo + postIndex);
        if !ok { return None; }
        return Some(postIndex);
      }
    }

    /** Store the length-delimited body `dAtA[b..e]`. */
    method SetBody(x: External, k: Kind, num: nat, dAtA: array<Byte>, b: nat, e: nat) returns (ok: bool)
      requires Valid() && 1 <= num <= |schema.kinds| && k == schema.kinds[num - 1] && b <= e <= dAtA.Length < I64
      requires Fits(k, vals[num - 1]) && (k.SubKind? ==> GoodSchema(k.sub))
      requires !k.U64Kind? && !k.U32Kind? && !k.BoolKind?
      modifies this
      ensures Valid()
      ensures ok <==> Apply(x, k, old(vals[num - 1]), dAtA[b..e]).Some?
      ensures ok ==> Apply(x, k, old(vals[num - 1]), dAtA[b..e]) == Some(vals[num - 1])
      ensures ok ==> vals == old(vals)[num - 1 := vals[num - 1]]
      decreases e - b, 3
    {
      hide Decode; hide Zero;
      match k {
        case StrKind =>
          Assign(num, Str(dAtA[b..e]));
        case TimeKind(_) =>
          var t := x.decTime(dAtA[b..e]);
          if t.None? { return false; }
          Assign(num, Times([t.value]));
        case AnyKind =>
          var had := vals[num - 1].anys;
          var a := x.decAny(if |had| == 0 then EMPTY_ANY else had[0], dAtA[b..e]);
          if a.None? { return false; }
          Assign(num, Anys([a.value]));
        case SubKind(sub, repeated) =>
          var had := vals[num - 1].ms;
          var child := new Struct(sub, if repeated then Zero(sub) else had[0]);
          ok := child.Unmarshal(x, dAtA, b, e);
          Assign(num, Subs(if repeated then had + [Message(child.vals)] else [Message(child.vals)]));
          return ok;
      }
      return true;
    }

    method Assign(num: nat, v: Value)
      requires Valid() && 1 <= num <= |schema.kinds| && Fits(schema.kinds[num - 1], v)
      modifies this
      ensures Valid() && vals == old(vals)[num - 1 := v]
    {
      hide Fits; hide GoodSchema;
      vals := vals[num - 1 := v];
    }

    method SetNumber(k: Kind, num: nat, dAtA: array<Byte>, lo: nat, at: nat, hi: nat) returns (r: Option<nat>)
      requires Valid() && 1 <= num <= |schema.kinds| && k == schema.kinds[num - 1] && lo + at <= hi <= dAtA.Length < I64
      requires k.U64Kind? || k.U32Kind? || k.BoolKind?
      modifies this
      ensures Valid()
      ensures r == match ReadVarint(dAtA[lo + at..hi]) case None => None case Some((_, n)) => Some(at + n)
      ensures r.Some? ==> vals == old(vals)[num - 1 := Num(Narrow(k, ReadVarint(dAtA[lo + at..hi]).value.0))]
    {
      hide ReadVarint;
      Assign(num, Num(0));
      if k.U32Kind? {
        var v := ReadUint32At(dAtA, lo + at, hi);
        if v.None? { return None; }
        Assign(num, Num(v.value.0));
        return Some(v.value.1 - lo);
      } else {
        var v := ReadUint64At(dAtA, lo + at, hi);
        if v.None? { return None; }
        Assign(num, Num(if k.BoolKind? then (if v.value.0 != 0 then 1 else 0) else v.value.0));
        return Some(v.value.1 - lo);
      }
    }
  }
}
