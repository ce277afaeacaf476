/**
 * The routine that steps over one field of any kind, and the grammar it
 * recognises (Protocol Buffers Encoding, sections "Message Structure" and "Groups").
 */
module Skip {
  import opened Basics
  import opened Varint

  // ---------- the grammar of one field ----------

  /** A field as it lies on the wire; varints need not be in shortest form. */
  datatype Field =
    | VarintField(tag: Bytes, body: Bytes)
    | Fixed64Field(tag: Bytes, body: Bytes)
    | LenField(tag: Bytes, len: Bytes, body: Bytes)
    | GroupField(tag: Bytes, fields: seq<Field>, end: Bytes)
    | Fixed32Field(tag: Bytes, body: Bytes)

  ghost predicate IsVarint(bs: Bytes) {
    Span(bs, 10) == Some(|bs|)
  }

  function VarintValue(bs: Bytes): uint64 {
    Raw(bs) % U64
  }

  ghost predicate IsTag(bs: Bytes, wireType: nat) {
    IsVarint(bs) && VarintValue(bs) % 8 == wireType
  }

  /** Well-formed up to one point: an end tag need not repeat the number of its start tag. */
  ghost predicate WellFormed(f: Field) {
    match f
    case VarintField(tag, body) => IsTag(tag, 0) && IsVarint(body)
    case Fixed64Field(tag, body) => IsTag(tag, 1) && |body| == 8
    case LenField(tag, len, body) => IsTag(tag, 2) && IsVarint(len) && |body| == VarintValue(len)
    case GroupField(tag, fields, end) => IsTag(tag, 3) && AllWellFormed(fields) && IsTag(end, 4)
    case Fixed32Field(tag, body) => IsTag(tag, 5) && |body| == 4
  }

  ghost predicate AllWellFormed(fs: seq<Field>) {
    fs == [] || (WellFormed(fs[0]) && AllWellFormed(fs[1..]))
  }

  function FieldBytes(f: Field): Bytes {
    match f
    case VarintField(tag, body) => tag + body
    case Fixed64Field(tag, body) => tag + body
    case LenField(tag, len, body) => tag + (len + body)
    case GroupField(tag, fields, end) => tag + (FieldsBytes(fields) + end)
    case Fixed32Field(tag, body) => tag + body
  }

  function FieldsBytes(fs: seq<Field>): Bytes {
    if fs == [] then [] else FieldBytes(fs[0]) + FieldsBytes(fs[1..])
  }

  // ---------- the depth-counter loop as a function ----------

  /** How far the index moves past a tag of this wire type; it may move past the end of `d`. */
  function Payload(wireType: nat, d: Bytes): Option<nat> {
    match wireType
    case 0 =>
      (match ReadVarint(d)
       case None => None
       case Some((_, n)) => Some(n))
    case 1 => Some(8)
    case 2 =>
      (match ReadVarint(d)
       case None => None
       case Some((len, n)) => if len >= I64 then None else Some(n + len))
    case 3 => Some(0)
    case 4 => Some(0)
    case 5 => Some(4)
    case _ => None
  }

  /** One turn of the loop: the wire type it sees and how far it moves the index. */
  function Token(d: Bytes): (r: Option<(nat, nat)>)
    ensures r.Some? ==> d != [] && r.value.0 <= 5 && r.value.1 > 0
  {
    match ReadVarint(d)
    case None => None
    case Some((wire, n)) =>
      match Payload(wire % 8, d[n..])
      case None => None
      case Some(k) => Some((wire % 8, n + k))
  }

  /** The loop with index `pos`, unread bytes `d` and group depth `depth`: the final index, or an error. */
  function SkipFrom(d: Bytes, pos: nat, depth: nat): (r: Option<nat>)
    ensures r.Some? ==> pos < r.value < I64
    decreases |d|
  {
    match Token(d)
    case None => None
    case Some((wireType, k)) =>
      if wireType == 4 && depth == 0 then None else
      var depth' := if wireType == 3 then depth + 1 else if wireType == 4 then depth - 1 else depth;
      if pos + k >= I64 then None
      else if depth' == 0 then Some(pos + k)
      else if k >= |d| then None
      else SkipFrom(d[k..], pos + k, depth')
  }

  /** Success always reports progress, and an index a Go `int` can hold. */
  function SkipOne(d: Bytes): (r: Option<nat>)
    ensures r.Some? ==> 0 < r.value < I64
  {
    SkipFrom(d, 0, 0)
  }

  // ---------- every well-formed field is stepped over exactly ----------

  lemma ReadWhole(t: Bytes, rest: Bytes)
    requires IsVarint(t)
    ensures t != []
    ensures ReadVarint(t + rest) == Some((VarintValue(t), |t|))
    ensures (t + rest)[|t|..] == rest
  {
    SpanPrefix(t, rest, 10);
    assert (t + rest)[..|t|] == t;
  }

  lemma TokenOfTag(t: Bytes, rest: Bytes, wireType: nat)
    requires IsTag(t, wireType) && wireType in {3, 4}
    ensures Token(t + rest) == Some((wireType, |t|))
    ensures t != [] && (t + rest)[|t|..] == rest
  {
    hide VarintValue; hide ReadVarint; hide IsVarint;
    ReadWhole(t, rest);
  }

  lemma TokenOfLeaf(f: Field, rest: Bytes)
    requires WellFormed(f) && !f.GroupField? && |FieldBytes(f)| < I64
    ensures Token(FieldBytes(f) + rest).Some?
    ensures Token(FieldBytes(f) + rest).value.0 !in {3, 4}
    ensures Token(FieldBytes(f) + rest).value.1 == |FieldBytes(f)|
  {
    hide VarintValue; hide ReadVarint; hide Span;
    var after := FieldBytes(f)[|f.tag|..];
    assert FieldBytes(f) == f.tag + after;
    assert FieldBytes(f) + rest == f.tag + (after + rest);
    ReadWhole(f.tag, after + rest);
    match f
    case VarintField(_, body) => ReadWhole(body, rest);
    case LenField(_, len, body) =>
      ReadWhole(len, body + rest);
      assert after + rest == len + (body + rest);
    case _ =>
  }

  /** Arriving at a field, the loop leaves it at its last byte with the depth it had. */
  lemma {:induction false} SkipField(f: Field, rest: Bytes, pos: nat, depth: nat)
    requires WellFormed(f) && pos + |FieldBytes(f)| + |rest| < I64
    ensures SkipFrom(FieldBytes(f) + rest, pos, depth) ==
            if depth == 0 then Some(pos + |FieldBytes(f)|) else SkipFrom(rest, pos + |FieldBytes(f)|, depth)
    decreases f, 0
  {
    hide Token; hide IsTag;
    var d := FieldBytes(f) + rest;
    if f.GroupField? {
      var inner := FieldsBytes(f.fields);
      assert d == f.tag + (inner + (f.end + rest));
      TokenOfTag(f.tag, inner + (f.end + rest), 3);
      TokenOfTag(f.end, rest, 4);
      SkipFields(f.fields, f.end + rest, pos + |f.tag|, depth + 1);
      assert SkipFrom(d, pos, depth) == SkipFrom(f.end + rest, pos + |f.tag| + |inner|, depth + 1);
    } else {
      TokenOfLeaf(f, rest);
      assert d[|FieldBytes(f)|..] == rest;
    }
  }

  lemma {:induction false} SkipFields(fs: seq<Field>, rest: Bytes, pos: nat, depth: nat)
    requires AllWellFormed(fs) && depth > 0 && pos + |FieldsBytes(fs)| + |rest| < I64
    ensures SkipFrom(FieldsBytes(fs) + rest, pos, depth) == SkipFrom(rest, pos + |FieldsBytes(fs)|, depth)
    decreases fs, 1
  {
    hide SkipFrom; hide FieldBytes; hide WellFormed;
    if fs == [] {
      assert FieldsBytes(fs) + rest == rest;
    } else {
      var tail := FieldsBytes(fs[1..]);
      assert FieldsBytes(fs) + rest == FieldBytes(fs[0]) + (tail + rest);
      SkipField(fs[0], tail + rest, pos, depth);
      SkipFields(fs[1..], rest, pos + |FieldBytes(fs[0])|, depth);
    }
  }

  // ---------- and nothing else is ----------

  lemma ReadIsVarint(d: Bytes)
    requires ReadVarint(d).Some?
    ensures var (v, n) := ReadVarint(d).value; IsVarint(d[..n]) && VarintValue(d[..n]) == v
  {
    var n := ReadVarint(d).value.1;
    SpanTake(d, 10);
  }

  lemma {:induction false} SpanTake(d: Bytes, budget: nat)
    requires Span(d, budget).Some?
    ensures Span(d[..Span(d, budget).value], budget) == Span(d, budget)
  {
    var n := Span(d, budget).value;
    if d[0] >= 128 {
      SpanTake(d[1..], budget - 1);
      assert d[..n][1..] == d[1..][..n - 1];
    }
  }

  lemma ParseTag(d: Bytes)
    requires Token(d).Some? && Token(d).value.0 in {3, 4}
    ensures var (wireType, n) := Token(d).value; n <= |d| && IsTag(d[..n], wireType)
  {
    hide VarintValue; hide ReadVarint; hide IsVarint;
    ReadIsVarint(d);
  }

  /** A token that opens or closes no group and ends inside `d` is a well-formed field. */
  lemma ParseLeaf(d: Bytes) returns (f: Field)
    requires Token(d).Some? && Token(d).value.0 !in {3, 4} && Token(d).value.1 <= |d|
    ensures WellFormed(f) && FieldBytes(f) == d[..Token(d).value.1]
  {
    hide VarintValue; hide ReadVarint;
    ReadIsVarint(d);
    var (v, n) := ReadVarint(d).value;
    var k := Payload(v % 8, d[n..]).value;
    var tag, body := d[..n], d[n..][..k];
    assert tag + body == d[..n + k];
    match v % 8
    case 0 =>
      ReadIsVarint(d[n..]);
      f := VarintField(tag, body);
    case 1 => f := Fixed64Field(tag, body);
    case 5 => f := Fixed32Field(tag, body);
    case _ =>
      ReadIsVarint(d[n..]);
      var m := ReadVarint(d[n..]).value.1;
      f := LenField(tag, d[n..][..m], body[m..]);
      assert d[n..][..m] + body[m..] == body;
  }

  /** One turn of a loop that has a group open and will succeed. */
  lemma SkipTurn(d: Bytes, pos: nat, depth: nat, last: nat)
    requires depth > 0 && SkipFrom(d, pos, depth) == Some(last) && last <= pos + |d|
    ensures Token(d).Some?
    ensures var (wireType, k) := Token(d).value;
            var depth' := if wireType == 3 then depth + 1 else if wireType == 4 then depth - 1 else depth;
            if depth' == 0 then last == pos + k && k <= |d|
            else k < |d| && SkipFrom(d[k..], pos + k, depth') == Some(last)
  {
    hide Token;
  }

  /** From depth at least one, what the loop reads next is a list of fields and an end tag. */
  lemma {:induction false} ParseBody(d: Bytes, pos: nat, depth: nat, last: nat)
    returns (fs: seq<Field>, end: Bytes, n: nat)
    requires depth > 0 && SkipFrom(d, pos, depth) == Some(last) && last <= pos + |d|
    ensures AllWellFormed(fs) && IsTag(end, 4)
    ensures 0 < n <= |d| && d[..n] == FieldsBytes(fs) + end
    ensures if depth == 1 then last == pos + n else SkipFrom(d[n..], pos + n, depth - 1) == Some(last)
    decreases |d|
  {
    hide Token; hide IsTag; hide FieldBytes; hide WellFormed; hide SkipFrom;
    SkipTurn(d, pos, depth, last);
    var (wireType, k) := Token(d).value;
    if wireType == 4 {
      ParseTag(d);
      fs, end, n := [], d[..k], k;
      assert FieldsBytes(fs) + end == end;
    } else {
      hide AllWellFormed; hide FieldsBytes;
      var f, m := ParseOne(d, pos, depth, last);
      var fs', end', n' := ParseBody(d[m..], pos + m, depth, last);
      fs, end, n := Join(d, f, m, fs', end', n');
    }
  }

  /** The field at the head of the rest of a group's body. */
  lemma {:induction false} ParseOne(d: Bytes, pos: nat, depth: nat, last: nat) returns (f: Field, m: nat)
    requires depth > 0 && SkipFrom(d, pos, depth) == Some(last) && last <= pos + |d|
    requires Token(d).Some? && Token(d).value.0 != 4
    ensures 0 < m <= |d| && WellFormed(f) && FieldBytes(f) == d[..m]
    ensures SkipFrom(d[m..], pos + m, depth) == Some(last)
    decreases |d|, 0
  {
    hide Token; hide IsTag; hide FieldBytes; hide WellFormed; hide SkipFrom; hide AllWellFormed; hide FieldsBytes;
    SkipTurn(d, pos, depth, last);
    var (wireType, k) := Token(d).value;
    if wireType == 3 {
      ParseTag(d);
      var gs, e, n := ParseBody(d[k..], pos + k, depth + 1, last);
      f := MakeGroup(d, k, gs, e, n);
      m := k + n;
    } else {
      f := ParseLeaf(d);
      m := k;
    }
  }

  lemma MakeGroup(d: Bytes, k: nat, gs: seq<Field>, e: Bytes, m: nat) returns (g: Field)
    requires k <= |d| && IsTag(d[..k], 3)
    requires m <= |d| - k && AllWellFormed(gs) && IsTag(e, 4) && d[k..][..m] == FieldsBytes(gs) + e
    ensures WellFormed(g) && FieldBytes(g) == d[..k + m] && d[k..][m..] == d[k + m..]
  {
    hide IsTag;
    g := GroupField(d[..k], gs, e);
    Glue(d, k, m, d[..k], FieldsBytes(gs), e);
  }

  /** A field followed by a body is a body. */
  lemma Join(d: Bytes, f: Field, k: nat, fs': seq<Field>, end': Bytes, n': nat)
    returns (fs: seq<Field>, end: Bytes, n: nat)
    requires k <= |d| && WellFormed(f) && FieldBytes(f) == d[..k]
    requires AllWellFormed(fs') && n' <= |d| - k && d[k..][..n'] == FieldsBytes(fs') + end'
    ensures AllWellFormed(fs) && end == end' && n == k + n'
    ensures d[..n] == FieldsBytes(fs) + end
    ensures d[k..][n'..] == d[n..]
  {
    hide WellFormed; hide FieldBytes;
    fs, end, n := [f] + fs', end', k + n';
    assert fs[1..] == fs';
    Glue(d, k, n', FieldBytes(f), FieldsBytes(fs'), end');
  }

  lemma Glue(d: Bytes, a: nat, b: nat, x: Bytes, y: Bytes, z: Bytes)
    requires a + b <= |d| && x == d[..a] && y + z == d[a..][..b]
    ensures d[..a + b] == x + y + z == x + (y + z)
    ensures d[a..][b..] == d[a + b..]
  {
    assert d[..a + b] == d[..a] + d[a..][..b];
  }

  lemma ParseField(d: Bytes, n: nat) returns (f: Field)
    requires SkipOne(d) == Some(n) && n <= |d|
    ensures WellFormed(f) && FieldBytes(f) == d[..n]
  {
    hide Token; hide IsTag;
    var (wireType, k) := Token(d).value;
    if wireType == 3 {
      ParseTag(d);
      var gs, e, m := ParseBody(d[k..], k, 1, n);
      f := MakeGroup(d, k, gs, e, m);
    } else {
      f := ParseLeaf(d);
    }
  }

  /**
   * The depth counter is a complete and exact parser of one field: it stops
   * inside the input exactly when the input starts with a well-formed field,
   * and then at that field's end.
   */
  lemma SkipIsExact(d: Bytes)
    requires |d| < I64
    ensures (SkipOne(d).Some? && SkipOne(d).value <= |d|) <==> exists f :: WellFormed(f) && FieldBytes(f) <= d
    ensures forall f :: WellFormed(f) && FieldBytes(f) <= d ==> SkipOne(d) == Some(|FieldBytes(f)|)
  {
    forall f | WellFormed(f) && FieldBytes(f) <= d
      ensures SkipOne(d) == Some(|FieldBytes(f)|)
    {
      var rest := d[|FieldBytes(f)|..];
      assert d == FieldBytes(f) + rest;
      SkipField(f, rest, 0, 0);
    }
    if SkipOne(d).Some? && SkipOne(d).value <= |d| {
      var f := ParseField(d, SkipOne(d).value);
    }
  }

  lemma TokenPrefix(a: Bytes, b: Bytes)
    requires Token(a).Some?
    ensures Token(a + b) == Token(a)
  {
    hide ReadVarint;
    ReadVarintPrefix(a, b);
    var n := ReadVarint(a).value.1;
    assert (a + b)[n..] == a[n..] + b;
    if ReadVarint(a[n..]).Some? { ReadVarintPrefix(a[n..], b); }
  }

  /** A field that ends inside `a` is stepped over the same when more bytes follow. */
  lemma {:induction false} SkipPrefix(a: Bytes, b: Bytes, pos: nat, depth: nat)
    requires SkipFrom(a, pos, depth).Some? && SkipFrom(a, pos, depth).value <= pos + |a|
    ensures SkipFrom(a + b, pos, depth) == SkipFrom(a, pos, depth)
    decreases |a|
  {
    hide Token;
    TokenPrefix(a, b);
    var (wireType, k) := Token(a).value;
    var depth' := if wireType == 3 then depth + 1 else if wireType == 4 then depth - 1 else depth;
    if depth' != 0 {
      assert (a + b)[k..] == a[k..] + b;
      SkipPrefix(a[k..], b, pos + k, depth');
    }
  }

  lemma OneByteVarint(b: Byte)
    requires b < 128
    ensures IsVarint([b]) && VarintValue([b]) == b
  {
    assert Raw([b][1..]) == 0;
  }

  /** How far a field of each wire type reaches, for field number 1. */
  lemma FieldLengths(body: Bytes, rest: Bytes)
    requires |body| + |rest| < 0x1000_0000
    ensures |body| == 8 ==> SkipOne([0x09] + (body + rest)) == Some(9)
    ensures |body| == 4 ==> SkipOne([0x0D] + (body + rest)) == Some(5)
    ensures |body| < 128 ==> SkipOne([0x0A] + ([|body|] + (body + rest))) == Some(2 + |body|)
  {
    hide ReadVarint; hide IsVarint; hide VarintValue;
    forall b: Byte | b < 128 ensures IsVarint([b]) && VarintValue([b]) == b { OneByteVarint(b); }
    ReadWhole([0x09], body + rest);
    ReadWhole([0x0D], body + rest);
    if |body| < 128 {
      ReadWhole([0x0A], [|body|] + (body + rest));
      ReadWhole([|body|], body + rest);
    }
  }

  lemma EmptyGroup(rest: Bytes)
    requires |rest| < 0x1000_0000
    ensures SkipOne([0x0B] + ([0x0C] + rest)) == Some(2)
  {
    hide Token; hide IsVarint; hide VarintValue;
    OneByteVarint(0x0B);
    OneByteVarint(0x0C);
    TokenOfTag([0x0B], [0x0C] + rest, 3);
    TokenOfTag([0x0C], rest, 4);
    assert SkipFrom([0x0C] + rest, 1, 1) == Some(2);
    assert ([0x0B] + ([0x0C] + rest))[1..] == [0x0C] + rest;
  }

  /** An end tag outside any group and the wire types 6 and 7 are refused. */
  lemma RefusedTags(tag: Byte, rest: Bytes)
    requires tag == 0x0C || tag == 0x0E || tag == 0x0F
    ensures SkipOne([tag] + rest) == None
  {
    hide ReadVarint; hide IsVarint; hide VarintValue;
    OneByteVarint(tag);
    ReadWhole([tag], rest);
  }

  // ---------- the loop itself ----------

  /** `skip` on the slice `dAtA[lo..hi]`; the index is a wrapping 64-bit integer. */
  method SkipAt(dAtA: array<Byte>, lo: nat, hi: nat) returns (r: Option<nat>)
    requires lo <= hi <= dAtA.Length < I64
    ensures r == SkipOne(dAtA[lo..hi])
    ensures r.Some? ==> 0 < r.value < I64
  {
    hide Token;
    ghost var d := dAtA[lo..hi];
    var l := hi - lo;
    var iNdEx: int := 0;
    var depth := 0;
    while iNdEx < l
      invariant 0 <= iNdEx < I64
      invariant SkipOne(d) == if iNdEx <= l then SkipFrom(d[iNdEx..], iNdEx, depth) else None
      decreases l - iNdEx
    {
      ghost var rest := d[iNdEx..];
      assert rest == dAtA[lo + iNdEx..hi];
      var wireType, next := TokenAt(dAtA, lo, iNdEx, hi);
      if next.None? { return None; }
      if wireType == 3 {
        depth := depth + 1;
      } else if wireType == 4 {
        if depth == 0 { return None; }
        depth := depth - 1;
      }
      assert 0 <= next.value <= l ==> rest[next.value - iNdEx..] == d[next.value..];
      iNdEx := next.value;
      if iNdEx < 0 { return None; }
      if depth == 0 { return Some(iNdEx); }
    }
    return None;
  }

  /** The part of the loop body that reads a tag and moves the index past its payload. */
  method TokenAt(dAtA: array<Byte>, lo: nat, start: nat, hi: nat) returns (wireType: nat, next: Option<int>)
    requires lo + start < hi <= dAtA.Length < I64
    ensures next.None? <==> Token(dAtA[lo + start..hi]).None?
    ensures next.Some? ==> wireType == Token(dAtA[lo + start..hi]).value.0
    ensures next.Some? ==> next.value == Wrap64(start + Token(dAtA[lo + start..hi]).value.1)
    ensures next.Some? ==> (next.value < 0 <==> start + Token(dAtA[lo + start..hi]).value.1 >= I64)
  {
    hide ReadVarint; hide Wrap64;
    ghost var d := dAtA[lo + start..hi];
    wireType := 0;
    var tag := ReadUint64At(dAtA, lo + start, hi);
    if tag.None? { return wireType, None; }
    var iNdEx: int := tag.value.1 - lo;
    wireType := tag.value.0 % 8;
    assert d[iNdEx - start..] == dAtA[lo + iNdEx..hi];
    match wireType {
      case 0 =>
        var v := ReadUint64At(dAtA, lo + iNdEx, hi);
        if v.None? { return wireType, None; }
        iNdEx := v.value.1 - lo;
      case 1 => iNdEx := Wrap64(iNdEx + 8);
      case 2 =>
        var v := ReadUint64At(dAtA, lo + iNdEx, hi);
        if v.None? { return wireType, None; }
        iNdEx := v.value.1 - lo;
        var length := Wrap64(v.value.0);
        if length < 0 { return wireType, None; }
        iNdEx := Wrap64(iNdEx + length);
      case 3 =>
      case 4 =>
      case 5 => iNdEx := Wrap64(iNdEx + 4);
      case _ => return wireType, None;
    }
    return wireType, Some(iNdEx);
  }
}
