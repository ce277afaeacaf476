/**
 * The wire format's rules on field numbers, which `skip` does not check: every
 * number lies between 1 and 2^29 - 1, and an end tag repeats the number of its
 * start tag (Protocol Buffers Encoding, sections "Message Structure" and "Groups").
 */
module Groups {
  import opened Basics
  import opened Varint
  import opened Skip

  function TagNumber(tag: Bytes): nat {
    VarintValue(tag) / 8
  }

  const NUMBER_LIMIT: nat := 0x2000_0000

  predicate NumberOk(n: nat) {
    1 <= n < NUMBER_LIMIT
  }

  /** The field, and every field inside it, keeps the rules on field numbers. */
  ghost predicate Conforming(f: Field) {
    && 1 <= TagNumber(f.tag) < 0x2000_0000
    && (f.GroupField? ==> TagNumber(f.end) == TagNumber(f.tag) && AllConforming(f.fields))
  }

  ghost predicate AllConforming(fs: seq<Field>) {
    fs == [] || (Conforming(fs[0]) && AllConforming(fs[1..]))
  }

  // ---------- bytes have one reading ----------

  lemma SameHead(a: Bytes, x: Bytes, b: Bytes, y: Bytes)
    requires IsVarint(a) && IsVarint(b) && a + x == b + y
    ensures a == b && x == y
  {
    hide IsVarint; hide VarintValue; hide ReadVarint;
    ReadWhole(a, x);
    ReadWhole(b, y);
    assert (a + x)[..|a|] == a && (b + y)[..|b|] == b;
  }

  lemma SplitAt(a: Bytes, x: Bytes, b: Bytes, y: Bytes)
    requires |a| == |b| && a + x == b + y
    ensures a == b && x == y
  {
    assert (a + x)[..|a|] == a && (b + y)[..|b|] == b;
    assert (a + x)[|a|..] == x && (b + y)[|b|..] == y;
  }

  /** What follows the tag. */
  function AfterTag(f: Field): Bytes {
    match f
    case VarintField(_, body) => body
    case Fixed64Field(_, body) => body
    case LenField(_, len, body) => len + body
    case GroupField(_, fields, end) => FieldsBytes(fields) + end
    case Fixed32Field(_, body) => body
  }

  function WireType(f: Field): nat {
    match f
    case VarintField(_, _) => 0
    case Fixed64Field(_, _) => 1
    case LenField(_, _, _) => 2
    case GroupField(_, _, _) => 3
    case Fixed32Field(_, _) => 5
  }

  lemma TagFirst(f: Field, rest: Bytes)
    requires WellFormed(f)
    ensures IsTag(f.tag, WireType(f))
    ensures FieldBytes(f) + rest == f.tag + (AfterTag(f) + rest)
  {
    hide IsTag; hide FieldsBytes;
    assert FieldBytes(f) == f.tag + AfterTag(f);
  }

  lemma SameTag(f: Field, r: Bytes, g: Field, s: Bytes)
    requires WellFormed(f) && WellFormed(g) && FieldBytes(f) + r == FieldBytes(g) + s
    ensures f.tag == g.tag && WireType(f) == WireType(g) && AfterTag(f) + r == AfterTag(g) + s
  {
    hide IsVarint; hide VarintValue; hide FieldBytes; hide WellFormed; hide AfterTag;
    TagFirst(f, r);
    TagFirst(g, s);
    SameHead(f.tag, AfterTag(f) + r, g.tag, AfterTag(g) + s);
  }

  lemma LenUnique(f: Field, r: Bytes, g: Field, s: Bytes)
    requires f.LenField? && g.LenField? && f.tag == g.tag && WellFormed(f) && WellFormed(g)
    requires AfterTag(f) + r == AfterTag(g) + s
    ensures f == g && r == s
  {
    hide IsVarint; hide VarintValue; hide IsTag;
    assert AfterTag(f) + r == f.len + (f.body + r) && AfterTag(g) + s == g.len + (g.body + s);
    SameHead(f.len, f.body + r, g.len, g.body + s);
    SplitAt(f.body, r, g.body, s);
  }

  lemma {:induction false} FieldUnique(f: Field, r: Bytes, g: Field, s: Bytes)
    requires WellFormed(f) && WellFormed(g) && FieldBytes(f) + r == FieldBytes(g) + s
    ensures f == g && r == s
    decreases f, 0
  {
    hide IsVarint; hide IsTag; hide VarintValue; hide FieldBytes; hide FieldsBytes;
    SameTag(f, r, g, s);
    match f
    case VarintField(_, body) => SameHead(body, r, g.body, s);
    case LenField(_, _, _) => LenUnique(f, r, g, s);
    case GroupField(_, fields, end) =>
      assert FieldsBytes(fields) + (end + r) == AfterTag(f) + r && FieldsBytes(g.fields) + (g.end + s) == AfterTag(g) + s;
      BodyUnique(fields, end, r, g.fields, g.end, s);
    case _ => SplitAt(f.body, r, g.body, s);
  }

  lemma SplitBody(fs: seq<Field>, x: Bytes)
    ensures fs == [] ==> FieldsBytes(fs) + x == x
    ensures fs != [] ==> FieldsBytes(fs) + x == FieldBytes(fs[0]) + (FieldsBytes(fs[1..]) + x)
  {
    hide FieldBytes;
  }

  lemma {:induction false} BodyUnique(fs: seq<Field>, end: Bytes, r: Bytes, gs: seq<Field>, end': Bytes, s: Bytes)
    requires AllWellFormed(fs) && AllWellFormed(gs) && IsTag(end, 4) && IsTag(end', 4)
    requires FieldsBytes(fs) + (end + r) == FieldsBytes(gs) + (end' + s)
    ensures fs == gs && end == end' && r == s
    decreases fs, 1
  {
    hide IsVarint; hide VarintValue; hide FieldBytes; hide WellFormed;
    SplitBody(fs, end + r);
    SplitBody(gs, end' + s);
    if fs == [] && gs == [] {
      SameHead(end, r, end', s);
    } else if fs == [] {
      EndIsNoField(end, r, gs[0], FieldsBytes(gs[1..]) + (end' + s));
    } else if gs == [] {
      EndIsNoField(end', s, fs[0], FieldsBytes(fs[1..]) + (end + r));
    } else {
      var x, y := FieldsBytes(fs[1..]) + (end + r), FieldsBytes(gs[1..]) + (end' + s);
      FieldUnique(fs[0], x, gs[0], y);
      BodyUnique(fs[1..], end, r, gs[1..], end', s);
      assert fs == [fs[0]] + fs[1..] && gs == [gs[0]] + gs[1..];
    }
  }

  lemma EndIsNoField(end: Bytes, r: Bytes, f: Field, s: Bytes)
    requires IsTag(end, 4) && WellFormed(f)
    ensures end + r != FieldBytes(f) + s
  {
    hide IsVarint; hide VarintValue; hide FieldBytes; hide WellFormed; hide AfterTag;
    TagFirst(f, s);
    if end + r == FieldBytes(f) + s {
      SameHead(end, r, f.tag, AfterTag(f) + s);
    }
  }

  /** A message is the bytes of at most one list of fields. */
  lemma {:induction false} FieldsUnique(fs: seq<Field>, gs: seq<Field>)
    requires AllWellFormed(fs) && AllWellFormed(gs) && FieldsBytes(fs) == FieldsBytes(gs)
    ensures fs == gs
    decreases |fs|
  {
    hide FieldBytes; hide WellFormed;
    if fs != [] && gs != [] {
      FieldUnique(fs[0], FieldsBytes(fs[1..]), gs[0], FieldsBytes(gs[1..]));
      FieldsUnique(fs[1..], gs[1..]);
      assert fs == [fs[0]] + fs[1..] && gs == [gs[0]] + gs[1..];
    } else if fs != [] {
      NotEmpty(fs[0]);
    } else if gs != [] {
      NotEmpty(gs[0]);
    }
  }

  lemma NotEmpty(f: Field)
    requires WellFormed(f)
    ensures FieldBytes(f) != []
  {
    hide FieldsBytes;
    ReadWhole(f.tag, []);
  }

  // ---------- the same loop with a stack of group numbers ----------

  /** The field number of the tag the loop reads next. */
  function TokenNumber(d: Bytes): nat {
    match ReadVarint(d) case None => 0 case Some((wire, _)) => wire / 8
  }

  /** `skip` with a check on each number, and the depth counter replaced by the numbers of the open groups. */
  function StrictFrom(d: Bytes, pos: nat, open: seq<nat>): (r: Option<nat>)
    ensures r.Some? ==> pos < r.value < I64
    decreases |d|
  {
    match Token(d)
    case None => None
    case Some((wireType, k)) =>
      var num := TokenNumber(d);
      if !NumberOk(num) || (wireType == 4 && (open == [] || open[|open| - 1] != num)) then None else
      var open' := if wireType == 3 then open + [num] else if wireType == 4 then open[..|open| - 1] else open;
      if pos + k >= I64 then None
      else if open' == [] then Some(pos + k)
      else if k >= |d| then None
      else StrictFrom(d[k..], pos + k, open')
  }

  function StrictOne(d: Bytes): Option<nat> {
    StrictFrom(d, 0, [])
  }

  lemma NumberOfTag(t: Bytes, rest: Bytes, wireType: nat)
    requires IsTag(t, wireType) && wireType in {3, 4}
    ensures Token(t + rest) == Some((wireType, |t|)) && TokenNumber(t + rest) == TagNumber(t)
    ensures t != [] && (t + rest)[|t|..] == rest
  {
    hide Token; hide VarintValue; hide ReadVarint; hide IsVarint;
    ReadWhole(t, rest);
    TokenOfTag(t, rest, wireType);
  }

  lemma NothingToRead()
    ensures Token([]).None?
  {
  }

  lemma EndOfGroup(end: Bytes, rest: Bytes, pos: nat, open: seq<nat>, num: nat)
    requires IsTag(end, 4) && NumberOk(num) && pos + |end| + |rest| < I64
    ensures StrictFrom(end + rest, pos, open + [num]) ==
            if TagNumber(end) != num then None
            else if open == [] then Some(pos + |end|) else StrictFrom(rest, pos + |end|, open)
  {
    hide Token; hide TokenNumber; hide TagNumber; hide IsTag;
    NumberOfTag(end, rest, 4);
    assert (open + [num])[..|open|] == open;
    NothingToRead();
  }

  lemma LeafNumber(f: Field, rest: Bytes)
    requires WellFormed(f)
    ensures TokenNumber(FieldBytes(f) + rest) == TagNumber(f.tag)
  {
    hide VarintValue; hide ReadVarint; hide IsVarint; hide FieldBytes; hide WellFormed; hide AfterTag;
    TagFirst(f, rest);
    ReadWhole(f.tag, AfterTag(f) + rest);
  }

  lemma StrictLeaf(f: Field, rest: Bytes, pos: nat, open: seq<nat>)
    requires WellFormed(f) && !f.GroupField? && pos + |FieldBytes(f)| + |rest| < I64
    ensures StrictFrom(FieldBytes(f) + rest, pos, open) ==
            if !NumberOk(TagNumber(f.tag)) then None
            else if open == [] then Some(pos + |FieldBytes(f)|) else StrictFrom(rest, pos + |FieldBytes(f)|, open)
  {
    hide Token; hide TokenNumber; hide TagNumber; hide WellFormed; hide FieldBytes; hide NumberOk;
    NothingToRead();
    TokenOfLeaf(f, rest);
    LeafNumber(f, rest);
    assert (FieldBytes(f) + rest)[|FieldBytes(f)|..] == rest;
  }

  lemma StartOfGroup(tag: Bytes, rest: Bytes, pos: nat, open: seq<nat>)
    requires IsTag(tag, 3) && rest != [] && pos + |tag| + |rest| < I64
    ensures StrictFrom(tag + rest, pos, open) ==
            if !NumberOk(TagNumber(tag)) then None else StrictFrom(rest, pos + |tag|, open + [TagNumber(tag)])
  {
    hide Token; hide TokenNumber; hide TagNumber; hide IsTag; hide NumberOk;
    NumberOfTag(tag, rest, 3);
  }

  /** The stricter loop passes a well-formed field exactly when it keeps the rules on numbers. */
  lemma {:induction false} StrictField(f: Field, rest: Bytes, pos: nat, open: seq<nat>)
    requires WellFormed(f) && pos + |FieldBytes(f)| + |rest| < I64
    ensures StrictFrom(FieldBytes(f) + rest, pos, open) ==
            if !Conforming(f) then None
            else if open == [] then Some(pos + |FieldBytes(f)|) else StrictFrom(rest, pos + |FieldBytes(f)|, open)
    decreases f, 0
  {
    hide StrictFrom; hide TagNumber; hide IsTag; hide FieldsBytes;
    if f.GroupField? {
      var inner, num := FieldsBytes(f.fields), TagNumber(f.tag);
      assert FieldBytes(f) + rest == f.tag + (inner + (f.end + rest));
      EndIsNotEmpty(f.end);
      StartOfGroup(f.tag, inner + (f.end + rest), pos, open);
      if NumberOk(num) {
        StrictFields(f.fields, f.end + rest, pos + |f.tag|, open + [num]);
        EndOfGroup(f.end, rest, pos + |f.tag| + |inner|, open, num);
      }
    } else {
      StrictLeaf(f, rest, pos, open);
    }
  }

  lemma EndIsNotEmpty(end: Bytes)
    requires IsTag(end, 4)
    ensures end != []
  {
  }

  lemma {:induction false} StrictFields(fs: seq<Field>, rest: Bytes, pos: nat, open: seq<nat>)
    requires AllWellFormed(fs) && open != [] && pos + |FieldsBytes(fs)| + |rest| < I64
    ensures StrictFrom(FieldsBytes(fs) + rest, pos, open) ==
            if !AllConforming(fs) then None else StrictFrom(rest, pos + |FieldsBytes(fs)|, open)
    decreases fs, 1
  {
    hide StrictFrom; hide FieldBytes; hide WellFormed; hide Conforming;
    if fs == [] {
      assert FieldsBytes(fs) + rest == rest;
    } else {
      SplitBody(fs, rest);
      StrictField(fs[0], FieldsBytes(fs[1..]) + rest, pos, open);
      if Conforming(fs[0]) {
        StrictFields(fs[1..], rest, pos + |FieldBytes(fs[0])|, open);
      }
    }
  }

  /** What the stricter loop accepts, `skip` accepts with the same answer. */
  lemma {:induction false} StrictRefines(d: Bytes, pos: nat, open: seq<nat>)
    requires StrictFrom(d, pos, open).Some?
    ensures SkipFrom(d, pos, |open|) == StrictFrom(d, pos, open)
    decreases |d|
  {
    hide Token; hide TokenNumber;
    var (wireType, k) := Token(d).value;
    var num := TokenNumber(d);
    var open' := if wireType == 3 then open + [num] else if wireType == 4 then open[..|open| - 1] else open;
    if open' != [] {
      StrictRefines(d[k..], pos + k, open');
    }
  }

  lemma StrictAtField(d: Bytes, f: Field)
    requires |d| < I64 && WellFormed(f) && FieldBytes(f) <= d
    ensures SkipOne(d) == Some(|FieldBytes(f)|)
    ensures StrictOne(d) == if Conforming(f) then Some(|FieldBytes(f)|) else None
  {
    hide WellFormed; hide FieldBytes; hide Conforming; hide SkipFrom; hide StrictFrom;
    var rest := d[|FieldBytes(f)|..];
    assert d == FieldBytes(f) + rest;
    SkipField(f, rest, 0, 0);
    StrictField(f, rest, 0, []);
  }

  /** `d` starts with a field that keeps the rules on numbers. */
  ghost predicate StartsWithConforming(d: Bytes) {
    exists g :: WellFormed(g) && Conforming(g) && FieldBytes(g) <= d
  }

  /**
   * When `skip` meets the rules on field numbers: at a field it accepts,
   * exactly when the scan with a stack of numbers gives the same answer; and
   * that scan accepts just the fields that keep them.
   */
  lemma SkipMeetsNumberRules(d: Bytes)
    requires |d| < I64
    ensures StartsWithConforming(d) <==> StrictOne(d).Some? && StrictOne(d).value <= |d|
    ensures StartsWithConforming(d) ==> SkipOne(d) == StrictOne(d)
    ensures SkipOne(d).Some? && SkipOne(d).value <= |d| ==> (StartsWithConforming(d) <==> StrictOne(d) == SkipOne(d))
    ensures forall f :: WellFormed(f) && FieldBytes(f) <= d ==> (Conforming(f) <==> StartsWithConforming(d))
  {
    hide WellFormed; hide FieldBytes; hide Conforming; hide SkipFrom; hide StrictFrom;
    forall f | WellFormed(f) && FieldBytes(f) <= d
      ensures SkipOne(d) == Some(|FieldBytes(f)|)
      ensures StrictOne(d) == if Conforming(f) then Some(|FieldBytes(f)|) else None
    {
      StrictAtField(d, f);
    }
    if StrictOne(d).Some? && StrictOne(d).value <= |d| {
      StrictRefines(d, 0, []);
    }
    SkipIsExact(d);
  }

  /** A whole message that keeps the rules, by repeating the stricter scan. */
  predicate StrictMessage(d: Bytes)
    decreases |d|
  {
    d == [] || (StrictOne(d).Some? && 0 < StrictOne(d).value <= |d| && StrictMessage(d[StrictOne(d).value..]))
  }

  /** On the bytes of a list of fields, that scan decides whether all of them keep the rules. */
  lemma {:induction false} MessageMeetsNumberRules(fs: seq<Field>)
    requires AllWellFormed(fs) && |FieldsBytes(fs)| < I64
    ensures StrictMessage(FieldsBytes(fs)) <==> AllConforming(fs)
    decreases |fs|
  {
    hide WellFormed; hide FieldBytes; hide Conforming; hide StrictOne;
    if fs != [] {
      var d := FieldsBytes(fs);
      NotEmpty(fs[0]);
      StrictAtField(d, fs[0]);
      assert d[|FieldBytes(fs[0])|..] == FieldsBytes(fs[1..]);
      MessageMeetsNumberRules(fs[1..]);
    }
  }

  // ---------- three ways to break the rules ----------

  /** Group 15 closed by the end tag of group 14. */
  const MISMATCHED := GroupField([0x7B], [], [0x74])

  /** Group 15 holding a field of number 0. */
  const NUMBER_ZERO := GroupField([0x7B], [VarintField([0x00], [0x00])], [0x7C])

  /** A field of number 2^29. */
  const NUMBER_TOO_LARGE := VarintField([0x80, 0x80, 0x80, 0x80, 0x10], [0x00])

  lemma TooLargeTag()
    ensures IsTag(NUMBER_TOO_LARGE.tag, 0) && TagNumber(NUMBER_TOO_LARGE.tag) == NUMBER_LIMIT
  {
    var t := NUMBER_TOO_LARGE.tag;
    assert t[1..] == [0x80, 0x80, 0x80, 0x10] && t[1..][1..] == [0x80, 0x80, 0x10] && t[1..][1..][1..] == [0x80, 0x10];
    assert [0x80, 0x10][1..] == [0x10];
    OneByteVarint(0x10);
    assert Raw([0x80, 0x10]) == 0x800 && Raw([0x80, 0x80, 0x10]) == 0x4_0000;
    assert Raw([0x80, 0x80, 0x80, 0x10]) == 0x200_0000;
    assert Span([0x80, 0x10], 7) == Some(2) && Span([0x80, 0x80, 0x10], 8) == Some(3);
    assert Span([0x80, 0x80, 0x80, 0x10], 9) == Some(4);
  }

  lemma RuleBreakers()
    ensures WellFormed(MISMATCHED) && FieldBytes(MISMATCHED) == [0x7B, 0x74] && TagNumber(MISMATCHED.tag) == 15 && !Conforming(MISMATCHED)
    ensures WellFormed(NUMBER_ZERO) && FieldBytes(NUMBER_ZERO) == [0x7B, 0x00, 0x00, 0x7C] && TagNumber(NUMBER_ZERO.tag) == 15 && !Conforming(NUMBER_ZERO)
    ensures WellFormed(NUMBER_TOO_LARGE) && |FieldBytes(NUMBER_TOO_LARGE)| == 6 && TagNumber(NUMBER_TOO_LARGE.tag) == NUMBER_LIMIT && !Conforming(NUMBER_TOO_LARGE)
  {
    OneByteVarint(0x7B);
    OneByteVarint(0x74);
    OneByteVarint(0x7C);
    OneByteVarint(0x00);
    TooLargeTag();
    hide IsVarint; hide VarintValue;
    var zero := VarintField([0x00], [0x00]);
    assert FieldsBytes([]) == [] && AllWellFormed([]);
    assert WellFormed(zero) && !Conforming(zero);
    assert [zero][1..] == [] && FieldsBytes([zero]) == [0x00, 0x00];
  }

  /** `skip` takes each of them for one field, though no field that keeps the rules stands there. */
  lemma NumbersAreNotChecked(f: Field)
    requires f == MISMATCHED || f == NUMBER_ZERO || f == NUMBER_TOO_LARGE
    ensures SkipOne(FieldBytes(f)) == Some(|FieldBytes(f)|)
    ensures StrictOne(FieldBytes(f)) == None && !StartsWithConforming(FieldBytes(f))
  {
    RuleBreakers();
    hide WellFormed; hide Conforming; hide SkipOne; hide StrictOne; hide FieldBytes;
    StrictAtField(FieldBytes(f), f);
    SkipMeetsNumberRules(FieldBytes(f));
  }
}
