/** What the message codecs promise together, for every schema. */
module CodecLaws {
  import opened Basics
  import opened Varint
  import opened Skip
  import opened Groups
  import opened Codec

  // ---------- decoding a concatenation ----------

  lemma ExtentPrefix(a: Bytes, b: Bytes)
    requires Extent(a).Some?
    ensures Extent(a + b) == Extent(a)
    ensures (a + b)[Extent(a).value.0..Extent(a).value.1] == a[Extent(a).value.0..Extent(a).value.1]
  {
    hide ReadVarint;
    ReadVarintPrefix(a, b);
  }

  lemma FieldStepPrefix(x: External, k: Kind, wireType: nat, v: Value, a: Bytes, b: Bytes)
    requires Fits(k, v) && (k.SubKind? ==> GoodSchema(k.sub))
    requires FieldStep(x, k, wireType, v, a).Some?
    ensures FieldStep(x, k, wireType, v, a + b) == FieldStep(x, k, wireType, v, a)
  {
    hide ReadVarint; hide Extent; hide Apply; hide Fits; hide GoodSchema;
    if wireType == 0 {
      ReadVarintPrefix(a, b);
    } else {
      ExtentPrefix(a, b);
    }
  }

  lemma StepPrefix(x: External, s: Schema, m: Message, a: Bytes, b: Bytes)
    requires GoodSchema(s) && WellTyped(s, m) && Step(x, s, m, a).Some?
    ensures Step(x, s, m, a + b) == Step(x, s, m, a)
  {
    hide ReadVarint; hide FieldStep; hide SkipFrom; hide ToInt32;
    ReadVarintPrefix(a, b);
    var (wire, n) := ReadVarint(a).value;
    var num := ToInt32(wire / 8);
    assert (a + b)[n..] == a[n..] + b;
    if num <= |s.kinds| {
      FieldStepPrefix(x, s.kinds[num - 1], wire % 8, m.vals[num - 1], a[n..], b);
    } else {
      SkipPrefix(a, b, 0, 0);
    }
  }

  /**
   * Decoding a concatenation is decoding the second part into the result of
   * the first: scalars are overwritten, repeated fields grow, embedded
   * messages merge, and unknown fields anywhere do not matter.
   */
  lemma {:induction false} DecodeConcat(x: External, s: Schema, m: Message, a: Bytes, b: Bytes)
    requires GoodSchema(s) && WellTyped(s, m) && Decode(x, s, m, a).Some?
    ensures Decode(x, s, m, a + b) == Decode(x, s, Decode(x, s, m, a).value, b)
    decreases |a|
  {
    hide Step; hide WellTyped; hide GoodSchema;
    if a == [] {
      assert a + b == b;
    } else {
      var (m', n) := Step(x, s, m, a).value;
      StepPrefix(x, s, m, a, b);
      assert (a + b)[n..] == a[n..] + b;
      DecodeConcat(x, s, m', a[n..], b);
    }
  }

  // ---------- the byte loop as a fold over fields ----------

  function FieldNumber(f: Field): int {
    ToInt32(VarintValue(f.tag) / 8)
  }

  /**
   * Which tags select a known field: the number is compared after truncation to
   * 32 bits, so the low 32 bits of the tag's number decide which arm is taken.
   */
  lemma TagSelects(x: External, s: Schema, m: Message, d: Bytes)
    requires GoodSchema(s) && WellTyped(s, m) && ReadVarint(d).Some?
    ensures var (tag, n) := ReadVarint(d).value;
            var num := (tag / 8) % U32;
            if 1 <= num <= |s.kinds| && tag % 8 != 4 then
              Step(x, s, m, d) == match FieldStep(x, s.kinds[num - 1], tag % 8, m.vals[num - 1], d[n..])
                                  case None => None
                                  case Some((v, k)) => Some((Message(m.vals[num - 1 := v]), n + k))
            else Step(x, s, m, d).Some? ==> Step(x, s, m, d).value.0 == m
  {
    hide ReadVarint; hide FieldStep; hide SkipFrom; hide Fits;
  }

  /** What one field does to a message, told without indices or buffers. */
  function ApplyField(x: External, s: Schema, m: Message, f: Field): (r: Option<Message>)
    requires GoodSchema(s) && WellTyped(s, m)
    ensures r.Some? ==> WellTyped(s, r.value)
  {
    var num := FieldNumber(f);
    if num <= 0 then None
    else if num > |s.kinds| then Some(m)
    else
      var k, v := s.kinds[num - 1], m.vals[num - 1];
      if k.U64Kind? || k.U32Kind? || k.BoolKind? then
        if !f.VarintField? then None else Some(Message(m.vals[num - 1 := Num(Narrow(k, VarintValue(f.body)))]))
      else
        if !f.LenField? then None else
        match Apply(x, k, v, f.body)
        case None => None
        case Some(v') => Some(Message(m.vals[num - 1 := v']))
  }

  function Fold(x: External, s: Schema, m: Message, fs: seq<Field>): Option<Message>
    requires GoodSchema(s) && WellTyped(s, m)
    decreases |fs|
  {
    if fs == [] then Some(m)
    else match ApplyField(x, s, m, fs[0])
      case None => None
      case Some(m') => Fold(x, s, m', fs[1..])
  }

  lemma HeadOfField(f: Field, rest: Bytes)
    requires WellFormed(f)
    ensures ReadVarint(FieldBytes(f) + rest) == Some((VarintValue(f.tag), |f.tag|))
    ensures f.tag != [] && |FieldBytes(f)| == |f.tag| + |AfterTag(f)|
    ensures VarintValue(f.tag) % 8 == WireType(f)
    ensures (FieldBytes(f) + rest)[|f.tag|..] == AfterTag(f) + rest
  {
    hide ReadVarint; hide IsVarint; hide VarintValue; hide FieldsBytes; hide AfterTag; hide FieldBytes; hide WellFormed;
    TagFirst(f, rest);
    TagFirst(f, []);
    ReadWhole(f.tag, AfterTag(f) + rest);
    assert FieldBytes(f) + [] == FieldBytes(f);
  }

  lemma VarintBody(f: Field, rest: Bytes)
    requires WellFormed(f) && f.VarintField?
    ensures ReadVarint(AfterTag(f) + rest) == Some((VarintValue(f.body), |AfterTag(f)|))
  {
    hide ReadVarint; hide IsVarint; hide VarintValue;
    ReadWhole(f.body, rest);
  }

  lemma LenBody(f: Field, rest: Bytes)
    requires WellFormed(f) && f.LenField? && |FieldBytes(f)| < I64
    ensures Extent(AfterTag(f) + rest) == Some((|f.len|, |AfterTag(f)|))
    ensures (AfterTag(f) + rest)[|f.len|..|AfterTag(f)|] == f.body
  {
    hide ReadVarint; hide IsVarint; hide VarintValue;
    assert AfterTag(f) + rest == f.len + (f.body + rest);
    ReadWhole(f.len, f.body + rest);
  }

  lemma FieldStepOfField(x: External, k: Kind, v: Value, f: Field, rest: Bytes)
    requires Fits(k, v) && (k.SubKind? ==> GoodSchema(k.sub))
    requires WellFormed(f) && |FieldBytes(f)| < I64
    ensures FieldStep(x, k, WireType(f), v, AfterTag(f) + rest) ==
            if k.U64Kind? || k.U32Kind? || k.BoolKind? then
              if f.VarintField? then Some((Num(Narrow(k, VarintValue(f.body))), |AfterTag(f)|)) else None
            else if f.LenField? then
              match Apply(x, k, v, f.body) case None => None case Some(v') => Some((v', |AfterTag(f)|))
            else None
  {
    hide ReadVarint; hide VarintValue; hide FieldBytes; hide AfterTag; hide Extent; hide WellFormed;
    hide Apply; hide Narrow; hide Fits; hide GoodSchema;
    if f.VarintField? {
      VarintBody(f, rest);
    } else if f.LenField? {
      LenBody(f, rest);
    }
  }

  /** A turn of the loop that starts at a well-formed field is that field's effect. */
  lemma StepOfField(x: External, s: Schema, m: Message, f: Field, rest: Bytes)
    requires GoodSchema(s) && WellTyped(s, m)
    requires WellFormed(f) && |FieldBytes(f)| + |rest| < I64
    ensures FieldBytes(f) != [] && (FieldBytes(f) + rest)[|FieldBytes(f)|..] == rest
    ensures Step(x, s, m, FieldBytes(f) + rest) ==
            match ApplyField(x, s, m, f) case None => None case Some(m') => Some((m', |FieldBytes(f)|))
  {
    hide ReadVarint; hide SkipFrom; hide FieldBytes; hide VarintValue; hide WellFormed; hide ToInt32; hide FieldStep; hide Apply;
    HeadOfField(f, rest);
    var num := FieldNumber(f);
    if 1 <= num <= |s.kinds| {
      FieldStepOfField(x, s.kinds[num - 1], m.vals[num - 1], f, rest);
    } else {
      SkipField(f, rest, 0, 0);
    }
  }

  /** On the bytes of any list of well-formed fields, Unmarshal is the fold of their effects. */
  lemma {:induction false} DecodeIsFold(x: External, s: Schema, m: Message, fs: seq<Field>)
    requires GoodSchema(s) && WellTyped(s, m) && AllWellFormed(fs) && |FieldsBytes(fs)| < I64
    ensures Decode(x, s, m, FieldsBytes(fs)) == Fold(x, s, m, fs)
    decreases |fs|
  {
    hide Step; hide ApplyField; hide WellFormed; hide FieldBytes; hide GoodSchema; hide WellTyped;
    if fs != [] {
      StepOfField(x, s, m, fs[0], FieldsBytes(fs[1..]));
      if ApplyField(x, s, m, fs[0]).Some? {
        DecodeIsFold(x, s, ApplyField(x, s, m, fs[0]).value, fs[1..]);
      }
    }
  }

  lemma VarintFieldAt(d: Bytes) returns (f: Field)
    requires ReadVarint(d).Some? && ReadVarint(d).value.0 % 8 == 0
    requires ReadVarint(d[ReadVarint(d).value.1..]).Some?
    ensures var n := ReadVarint(d).value.1;
            WellFormed(f) && FieldBytes(f) == d[..n + ReadVarint(d[n..]).value.1]
  {
    hide ReadVarint; hide VarintValue; hide IsVarint;
    ReadIsVarint(d);
    var n := ReadVarint(d).value.1;
    ReadIsVarint(d[n..]);
    var e := ReadVarint(d[n..]).value.1;
    f := VarintField(d[..n], d[n..][..e]);
    assert d[..n] + d[n..][..e] == d[..n + e];
  }

  lemma LenFieldAt(d: Bytes) returns (f: Field)
    requires ReadVarint(d).Some? && ReadVarint(d).value.0 % 8 == 2
    requires Extent(d[ReadVarint(d).value.1..]).Some?
    ensures var n := ReadVarint(d).value.1;
            WellFormed(f) && FieldBytes(f) == d[..n + Extent(d[n..]).value.1]
  {
    hide ReadVarint; hide VarintValue; hide IsVarint;
    ReadIsVarint(d);
    var n := ReadVarint(d).value.1;
    ReadIsVarint(d[n..]);
    var (b, e) := Extent(d[n..]).value;
    f := LenField(d[..n], d[n..][..b], d[n + b..n + e]);
    assert d[..n] + (d[n..][..b] + d[n + b..n + e]) == d[..n + e];
  }

  lemma StepParses(x: External, s: Schema, m: Message, d: Bytes) returns (f: Field)
    requires GoodSchema(s) && WellTyped(s, m) && Step(x, s, m, d).Some?
    ensures WellFormed(f) && FieldBytes(f) == d[..Step(x, s, m, d).value.1]
  {
    hide ReadVarint; hide SkipFrom; hide ToInt32; hide Apply; hide Narrow; hide Fits; hide GoodSchema;
    hide WellFormed; hide FieldBytes; hide Extent;
    var (wire, n) := ReadVarint(d).value;
    var num := ToInt32(wire / 8);
    if num > |s.kinds| {
      f := ParseField(d, SkipOne(d).value);
    } else if wire % 8 == 0 {
      f := VarintFieldAt(d);
    } else {
      f := LenFieldAt(d);
    }
  }

  /** Unmarshal succeeds only on the bytes of some list of well-formed fields, all of them used. */
  lemma {:induction false} DecodeParses(x: External, s: Schema, m: Message, d: Bytes) returns (fs: seq<Field>)
    requires GoodSchema(s) && WellTyped(s, m) && Decode(x, s, m, d).Some?
    ensures AllWellFormed(fs) && FieldsBytes(fs) == d
    decreases |d|
  {
    hide Step; hide WellFormed; hide FieldBytes; hide GoodSchema; hide WellTyped;
    if d == [] {
      fs := [];
    } else {
      var (m', n) := Step(x, s, m, d).value;
      var f := StepParses(x, s, m, d);
      var fs' := DecodeParses(x, s, m', d[n..]);
      fs := [f] + fs';
      assert fs[1..] == fs' && d == d[..n] + d[n..];
    }
  }

  /** Exactly which inputs Unmarshal accepts, and what it makes of them: each has one reading as fields. */
  lemma DecodeIsExact(x: External, s: Schema, m: Message, d: Bytes, r: Message)
    requires GoodSchema(s) && WellTyped(s, m) && |d| < I64
    ensures Decode(x, s, m, d) == Some(r) <==>
            exists fs :: AllWellFormed(fs) && FieldsBytes(fs) == d && Fold(x, s, m, fs) == Some(r)
    ensures forall fs, gs :: AllWellFormed(fs) && AllWellFormed(gs) && FieldsBytes(fs) == d && FieldsBytes(gs) == d ==> fs == gs
  {
    hide Decode; hide Fold; hide AllWellFormed; hide FieldsBytes;
    if Decode(x, s, m, d) == Some(r) {
      var fs := DecodeParses(x, s, m, d);
      DecodeIsFold(x, s, m, fs);
    }
    forall fs | AllWellFormed(fs) && FieldsBytes(fs) == d
      ensures Decode(x, s, m, d) == Fold(x, s, m, fs)
    {
      DecodeIsFold(x, s, m, fs);
    }
    forall fs, gs | AllWellFormed(fs) && AllWellFormed(gs) && FieldsBytes(fs) == d && FieldsBytes(gs) == d
      ensures fs == gs
    {
      FieldsUnique(fs, gs);
    }
  }

  // ---------- numbers that differ by a multiple of 2^32 ----------

  lemma SameNumberSameEffect(x: External, s: Schema, m: Message, f: Field, tag: Bytes)
    requires GoodSchema(s) && WellTyped(s, m) && TagNumber(tag) % U32 == TagNumber(f.tag) % U32
    ensures ApplyField(x, s, m, f.(tag := tag)) == ApplyField(x, s, m, f)
  {
    hide VarintValue; hide Apply; hide Narrow;
    SameTruncation(TagNumber(tag), TagNumber(f.tag));
  }

  lemma SameTruncation(a: nat, b: nat)
    requires a % U32 == b % U32
    ensures ToInt32(a) == ToInt32(b)
  {
  }

  /**
   * The decoder cannot tell fields apart whose numbers agree in their low 32
   * bits: one may stand for the other anywhere in a message.
   */
  lemma NumbersCollide(x: External, s: Schema, m: Message, a: Bytes, f: Field, tag: Bytes, b: Bytes)
    requires GoodSchema(s) && WellTyped(s, m) && Decode(x, s, m, a).Some?
    requires WellFormed(f) && WellFormed(f.(tag := tag)) && TagNumber(tag) % U32 == TagNumber(f.tag) % U32
    requires |a| + |FieldBytes(f)| + |FieldBytes(f.(tag := tag))| + |b| < I64
    ensures Decode(x, s, m, a + (FieldBytes(f.(tag := tag)) + b)) == Decode(x, s, m, a + (FieldBytes(f) + b))
  {
    hide FieldBytes; hide WellFormed; hide ApplyField; hide Step; hide TagNumber;
    var m', g := Decode(x, s, m, a).value, f.(tag := tag);
    DecodeConcat(x, s, m, a, FieldBytes(f) + b);
    DecodeConcat(x, s, m, a, FieldBytes(g) + b);
    StepOfField(x, s, m', f, b);
    StepOfField(x, s, m', g, b);
    SameNumberSameEffect(x, s, m', f, tag);
  }

  // ---------- the order of fields ----------

  /** The fields of one number, in order. */
  function Only(fs: seq<Field>, n: int): seq<Field> {
    if fs == [] then [] else (if FieldNumber(fs[0]) == n then [fs[0]] else []) + Only(fs[1..], n)
  }

  /** Fields of different numbers touch different slots. */
  lemma FieldsCommute(x: External, s: Schema, m: Message, f: Field, g: Field)
    requires GoodSchema(s) && WellTyped(s, m) && FieldNumber(f) != FieldNumber(g)
    ensures ApplyField(x, s, m, f).Some? && ApplyField(x, s, m, g).Some? ==>
            var mf, mg := ApplyField(x, s, m, f).value, ApplyField(x, s, m, g).value;
            ApplyField(x, s, mf, g).Some? && ApplyField(x, s, mf, g) == ApplyField(x, s, mg, f)
    ensures ApplyField(x, s, m, f).Some? ==> (ApplyField(x, s, ApplyField(x, s, m, f).value, g).Some? <==> ApplyField(x, s, m, g).Some?)
  {
    hide FieldNumber; hide Apply; hide Narrow; hide VarintValue; hide Fits;
    var i, j := FieldNumber(f), FieldNumber(g);
    if ApplyField(x, s, m, f).Some? && ApplyField(x, s, m, g).Some? && i <= |s.kinds| && j <= |s.kinds| {
      var mf, mg := ApplyField(x, s, m, f).value, ApplyField(x, s, m, g).value;
      assert mf.vals[j - 1] == m.vals[j - 1] && mg.vals[i - 1] == m.vals[i - 1];
      assert mf.vals[j - 1 := mg.vals[j - 1]] == mg.vals[i - 1 := mf.vals[i - 1]];
    }
  }

  lemma {:induction false} MoveToFront(x: External, s: Schema, m: Message, before: seq<Field>, f: Field, after: seq<Field>)
    requires GoodSchema(s) && WellTyped(s, m) && Only(before, FieldNumber(f)) == []
    ensures Fold(x, s, m, before + ([f] + after)) == Fold(x, s, m, [f] + (before + after))
    decreases |before|
  {
    hide ApplyField; hide FieldNumber; hide WellTyped; hide GoodSchema;
    if before == [] {
      assert before + ([f] + after) == [f] + after == [f] + (before + after);
    } else {
      var g, rest := before[0], before[1..];
      assert before + ([f] + after) == [g] + (rest + ([f] + after));
      assert [f] + (before + after) == [f] + ([g] + (rest + after));
      FieldsCommute(x, s, m, f, g);
      FieldsCommute(x, s, m, g, f);
      FoldTwo(x, s, m, f, g, rest + after);
      if ApplyField(x, s, m, g).Some? {
        MoveToFront(x, s, ApplyField(x, s, m, g).value, rest, f, after);
        FoldTwo(x, s, m, g, f, rest + after);
      }
    }
  }

  lemma FoldTwo(x: External, s: Schema, m: Message, f: Field, g: Field, rest: seq<Field>)
    requires GoodSchema(s) && WellTyped(s, m)
    ensures ApplyField(x, s, m, f).None? ==> Fold(x, s, m, [f] + ([g] + rest)) == None
    ensures ApplyField(x, s, m, f).Some? ==>
            var m' := ApplyField(x, s, m, f).value;
            && Fold(x, s, m, [f] + ([g] + rest)) == Fold(x, s, m', [g] + rest)
            && Fold(x, s, m', [g] + rest) == match ApplyField(x, s, m', g) case None => None case Some(m'') => Fold(x, s, m'', rest)
  {
    hide ApplyField; hide WellTyped; hide GoodSchema;
    assert ([f] + ([g] + rest))[1..] == [g] + rest && ([g] + rest)[1..] == rest;
  }

  lemma OnlyTail(fs: seq<Field>, n: int)
    requires fs != []
    ensures Only(fs, n) == (if n == FieldNumber(fs[0]) then [fs[0]] else []) + Only(fs[1..], n)
  {
    hide FieldNumber;
  }

  lemma Associates(a: seq<Field>, b: seq<Field>, c: seq<Field>)
    ensures (a + b) + c == a + (b + c)
  {
  }

  lemma {:induction false} OnlyConcat(a: seq<Field>, b: seq<Field>, n: int)
    ensures Only(a + b, n) == Only(a, n) + Only(b, n)
    decreases |a|
  {
    hide FieldNumber;
    if a == [] {
      assert a + b == b;
    } else {
      OnlyConcat(a[1..], b, n);
      assert (a + b)[1..] == a[1..] + b;
      hide Only;
      OnlyTail(a + b, n);
      OnlyTail(a, n);
      Associates(if n == FieldNumber(a[0]) then [a[0]] else [], Only(a[1..], n), Only(b, n));
    }
  }

  /** Where the first field of a number stands. */
  lemma {:induction false} FirstOfNumber(fs: seq<Field>, n: int) returns (j: nat)
    requires Only(fs, n) != []
    ensures j < |fs| && Only(fs[..j], n) == [] && FieldNumber(fs[j]) == n && fs[j] == Only(fs, n)[0]
    decreases |fs|
  {
    hide FieldNumber;
    if FieldNumber(fs[0]) == n {
      j := 0;
    } else {
      var k := FirstOfNumber(fs[1..], n);
      j := k + 1;
      assert fs[..j][1..] == fs[1..][..k];
    }
  }

  /** Taking out the first field of a number leaves the other numbers alone. */
  lemma OnlyWithout(fs: seq<Field>, j: nat, n: int)
    requires j < |fs| && Only(fs[..j], FieldNumber(fs[j])) == []
    ensures Only(fs, n) == (if n == FieldNumber(fs[j]) then [fs[j]] else []) + Only(fs[..j] + fs[j + 1..], n)
  {
    hide FieldNumber; hide Only;
    var a, f, b := fs[..j], fs[j], fs[j + 1..];
    assert fs == a + ([f] + b);
    OnlyConcat(a, [f] + b, n);
    OnlyConcat(a, b, n);
    OnlyTail([f] + b, n);
    assert ([f] + b)[1..] == b && ([f] + b)[0] == f;
    if n == FieldNumber(f) {
      assert [] + ([f] + Only(b, n)) == [f] + ([] + Only(b, n));
    } else {
      assert [] + Only(b, n) == Only(b, n) && [] + (Only(a, n) + Only(b, n)) == Only(a, n) + Only(b, n);
    }
  }

  /** Only the order within each number matters to the fold. */
  lemma {:induction false} FoldReorders(x: External, s: Schema, m: Message, fs: seq<Field>, gs: seq<Field>)
    requires GoodSchema(s) && WellTyped(s, m) && forall n :: Only(fs, n) == Only(gs, n)
    ensures Fold(x, s, m, fs) == Fold(x, s, m, gs)
    decreases |fs|
  {
    hide FieldNumber; hide ApplyField; hide WellTyped; hide GoodSchema; hide Only;
    if fs == [] {
      if gs != [] { OnlyHead(gs); OnlyNil(FieldNumber(gs[0])); }
    } else {
      var f, n := fs[0], FieldNumber(fs[0]);
      OnlyHead(fs);
      var j := FirstOfNumber(gs, n);
      assert f == gs[j];
      var rest := gs[..j] + gs[j + 1..];
      assert gs == gs[..j] + ([f] + gs[j + 1..]);
      MoveToFront(x, s, m, gs[..j], f, gs[j + 1..]);
      forall k ensures Only(fs[1..], k) == Only(rest, k) {
        OnlyWithout(gs, j, k);
        OnlyTail(fs, k);
        Cancel(if k == n then [f] else [], Only(fs[1..], k), Only(rest, k));
      }
      assert ([f] + rest)[1..] == rest;
      if ApplyField(x, s, m, f).Some? {
        FoldReorders(x, s, ApplyField(x, s, m, f).value, fs[1..], rest);
      }
    }
  }

  lemma Cancel(p: seq<Field>, a: seq<Field>, b: seq<Field>)
    requires p + a == p + b
    ensures a == b
  {
    assert (p + a)[|p|..] == a && (p + b)[|p|..] == b;
  }

  lemma OnlyNil(n: int)
    ensures Only([], n) == []
  {
  }

  lemma OnlyHead(fs: seq<Field>)
    requires fs != []
    ensures Only(fs, FieldNumber(fs[0])) != [] && Only(fs, FieldNumber(fs[0]))[0] == fs[0]
  {
    hide FieldNumber;
  }

  /** Reordering the fields of a message, but not those of one number among themselves, does not change what it decodes to. */
  lemma OrderDoesNotMatter(x: External, s: Schema, m: Message, fs: seq<Field>, gs: seq<Field>)
    requires GoodSchema(s) && WellTyped(s, m) && AllWellFormed(fs) && AllWellFormed(gs)
    requires |FieldsBytes(fs)| < I64 && |FieldsBytes(gs)| < I64
    requires forall n :: Only(fs, n) == Only(gs, n)
    ensures Decode(x, s, m, FieldsBytes(fs)) == Decode(x, s, m, FieldsBytes(gs))
  {
    hide Decode; hide Fold; hide AllWellFormed; hide FieldsBytes; hide Only; hide WellTyped; hide GoodSchema;
    DecodeIsFold(x, s, m, fs);
    DecodeIsFold(x, s, m, gs);
    FoldReorders(x, s, m, fs, gs);
  }

  // ---------- known fields ----------

  lemma FieldThenRest(x: External, s: Schema, m: Message, a: Bytes, f: Field, b: Bytes)
    requires GoodSchema(s) && WellTyped(s, m) && Decode(x, s, m, a).Some? && WellFormed(f)
    requires |a| + |FieldBytes(f)| + |b| < I64
    ensures Decode(x, s, m, a + (FieldBytes(f) + b)) ==
            match ApplyField(x, s, Decode(x, s, m, a).value, f) case None => None case Some(m') => Decode(x, s, m', b)
  {
    hide FieldBytes; hide WellFormed; hide ApplyField; hide Step;
    DecodeConcat(x, s, m, a, FieldBytes(f) + b);
    StepOfField(x, s, Decode(x, s, m, a).value, f, b);
  }

  /** A number field takes a varint, narrowed to its width; any other wire type fails. */
  lemma NumberFieldMeans(x: External, s: Schema, m: Message, a: Bytes, f: Field, b: Bytes)
    requires GoodSchema(s) && WellTyped(s, m) && Decode(x, s, m, a).Some? && WellFormed(f)
    requires |a| + |FieldBytes(f)| + |b| < I64
    requires 1 <= FieldNumber(f) <= |s.kinds|
    requires var k := s.kinds[FieldNumber(f) - 1]; k.U64Kind? || k.U32Kind? || k.BoolKind?
    ensures var m', i := Decode(x, s, m, a).value, FieldNumber(f) - 1;
            Decode(x, s, m, a + (FieldBytes(f) + b)) ==
            if !f.VarintField? then None
            else
              var n := VarintValue(f.body);
              var kept := if s.kinds[i].U64Kind? then n
                          else if s.kinds[i].U32Kind? then n % 0x1_0000_0000
                          else if n == 0 then 0 else 1;
              Decode(x, s, Message(m'.vals[i := Num(kept)]), b)
  {
    FieldThenRest(x, s, m, a, f, b);
    hide FieldBytes; hide WellFormed; hide Decode; hide VarintValue; hide FieldNumber;
  }

  /**
   * A string, time or `Any` field takes a length-delimited body: the string
   * replaces the old one, the `Any` is decoded on top of it; any other wire
   * type fails.
   */
  lemma BodyFieldMeans(x: External, s: Schema, m: Message, a: Bytes, f: Field, b: Bytes)
    requires GoodSchema(s) && WellTyped(s, m) && Decode(x, s, m, a).Some? && WellFormed(f)
    requires |a| + |FieldBytes(f)| + |b| < I64
    requires 1 <= FieldNumber(f) <= |s.kinds|
    ensures var m', i, r := Decode(x, s, m, a).value, FieldNumber(f) - 1, Decode(x, s, m, a + (FieldBytes(f) + b));
            && (s.kinds[i].StrKind? ==>
                  r == if !f.LenField? then None else Decode(x, s, Message(m'.vals[i := Str(f.body)]), b))
            && (s.kinds[i].TimeKind? ==>
                  r == if !f.LenField? || x.decTime(f.body).None? then None
                       else Decode(x, s, Message(m'.vals[i := Times([x.decTime(f.body).value])]), b))
            && (s.kinds[i].AnyKind? ==>
                  m'.vals[i].Anys? &&
                  var had := if m'.vals[i].anys == [] then Any([], []) else m'.vals[i].anys[0];
                  r == if !f.LenField? || x.decAny(had, f.body).None? then None
                       else Decode(x, s, Message(m'.vals[i := Anys([x.decAny(had, f.body).value])]), b))
  {
    FieldThenRest(x, s, m, a, f, b);
    assert Fits(s.kinds[FieldNumber(f) - 1], Decode(x, s, m, a).value.vals[FieldNumber(f) - 1]);
    hide FieldBytes; hide WellFormed; hide Decode; hide VarintValue; hide FieldNumber; hide Narrow;
  }

  /** A repeated message grows by the body decoded from scratch; an embedded one has the body decoded on top of it. */
  lemma MessageFieldMeans(x: External, s: Schema, m: Message, a: Bytes, f: Field, b: Bytes)
    requires GoodSchema(s) && WellTyped(s, m) && Decode(x, s, m, a).Some? && WellFormed(f)
    requires |a| + |FieldBytes(f)| + |b| < I64
    requires 1 <= FieldNumber(f) <= |s.kinds| && s.kinds[FieldNumber(f) - 1].SubKind?
    ensures var m', i, r := Decode(x, s, m, a).value, FieldNumber(f) - 1, Decode(x, s, m, a + (FieldBytes(f) + b));
            var k := s.kinds[i];
            assert Fits(k, m'.vals[i]);
            GoodSchema(k.sub) && m'.vals[i].Subs? && (k.repeated || (|m'.vals[i].ms| == 1 && WellTyped(k.sub, m'.vals[i].ms[0]))) &&
            if !f.LenField? then r == None
            else
              var body := Decode(x, k.sub, if k.repeated then Zero(k.sub) else m'.vals[i].ms[0], f.body);
              r == if body.None? then None
                   else Decode(x, s, Message(m'.vals[i := Subs(if k.repeated then m'.vals[i].ms + [body.value] else [body.value])]), b)
  {
    FieldThenRest(x, s, m, a, f, b);
    SubSchema(s, FieldNumber(f) - 1);
    assert Fits(s.kinds[FieldNumber(f) - 1], Decode(x, s, m, a).value.vals[FieldNumber(f) - 1]);
    hide FieldBytes; hide WellFormed; hide Decode; hide VarintValue; hide FieldNumber; hide Narrow; hide Zero; hide GoodSchema;
  }

  // ---------- unknown fields ----------

  /**
   * A well-formed field whose 32-bit number is past the schema changes nothing
   * wherever it stands between two fields; one whose number is not positive
   * makes the whole message fail.
   */
  lemma UnknownFieldTransparent(x: External, s: Schema, m: Message, a: Bytes, f: Field, b: Bytes)
    requires GoodSchema(s) && WellTyped(s, m) && Decode(x, s, m, a).Some?
    requires WellFormed(f) && !(1 <= FieldNumber(f) <= |s.kinds|)
    requires |a| + |FieldBytes(f)| + |b| < I64
    ensures Decode(x, s, m, a + (FieldBytes(f) + b)) ==
            if FieldNumber(f) > 0 then Decode(x, s, m, a + b) else None
  {
    hide FieldBytes; hide WellFormed; hide FieldNumber; hide Step;
    DecodeConcat(x, s, m, a, FieldBytes(f) + b);
    DecodeConcat(x, s, m, a, b);
    StepOfField(x, s, Decode(x, s, m, a).value, f, b);
  }

  // ---------- fields that break the rules on numbers ----------

  /**
   * Unmarshal lets each of the rule breakers pass at any field boundary of any
   * message with fewer than 15 fields, and they leave no trace.
   */
  lemma RuleBreakersPass(x: External, s: Schema, m: Message, a: Bytes, f: Field, b: Bytes)
    requires GoodSchema(s) && WellTyped(s, m) && |s.kinds| < 15 && Decode(x, s, m, a).Some?
    requires f == MISMATCHED || f == NUMBER_ZERO || f == NUMBER_TOO_LARGE
    requires |a| + |b| + 6 < I64
    ensures Decode(x, s, m, a + (FieldBytes(f) + b)) == Decode(x, s, m, a + b)
    ensures !StrictMessage(FieldBytes(f))
  {
    RuleBreakers();
    NumbersAreNotChecked(f);
    hide WellFormed; hide FieldBytes; hide VarintValue; hide Decode; hide SkipOne; hide StrictOne;
    UnknownFieldTransparent(x, s, m, a, f, b);
  }

  // ---------- merging ----------

  /** What a message holds after another one was decoded into it. */
  function Merge(s: Schema, m: Message, y: Message): (r: Message)
    requires WellTyped(s, m) && WellTyped(s, y)
    ensures WellTyped(s, r)
  {
    Message(seq(|s.kinds|, i requires 0 <= i < |s.kinds| => MergeValue(s.kinds[i], m.vals[i], y.vals[i])))
  }

  function MergeValue(k: Kind, v: Value, w: Value): (r: Value)
    requires Fits(k, v) && Fits(k, w)
    ensures Fits(k, r)
  {
    match w
    case Num(n) => if n == 0 then v else w
    case Str(s) => if s == [] then v else w
    case Times(ts) => if ts == [] then v else w
    case Anys(anys) =>
      if anys == [] then v else Anys([MergeAny(if v.anys == [] then EMPTY_ANY else v.anys[0], anys[0])])
    case Subs(ms) =>
      if k.repeated then Subs(v.ms + ms) else Subs([Merge(k.sub, v.ms[0], ms[0])])
  }

  /** Nothing is lost or added when the target was the zero message. */
  lemma {:induction false} MergeIntoZero(s: Schema, y: Message)
    requires GoodSchema(s) && WellTyped(s, y)
    ensures Merge(s, Zero(s), y) == y
    decreases s
  {
    forall i | 0 <= i < |s.kinds|
      ensures MergeValue(s.kinds[i], Zero(s).vals[i], y.vals[i]) == y.vals[i]
    {
      var k := s.kinds[i];
      if k.SubKind? && !k.repeated {
        MergeIntoZero(k.sub, y.vals[i].ms[0]);
      }
    }
    assert Merge(s, Zero(s), y).vals == y.vals;
  }

  // ---------- one encoded field decoded ----------

  lemma ReadKey(num: nat, wireType: nat, rest: Bytes)
    requires 1 <= num <= 15 && wireType < 8
    ensures ReadVarint([num * 8 + wireType] + rest) == Some((num * 8 + wireType, 1))
    ensures ToInt32((num * 8 + wireType) / 8) == num && (num * 8 + wireType) % 8 == wireType
    ensures ([num * 8 + wireType] + rest)[1..] == rest
  {
    OneByteVarint(num * 8 + wireType);
    ReadWhole([num * 8 + wireType], rest);
  }

  lemma ReadExtent(body: Bytes)
    requires |body| < I64
    ensures var d := EncodeVarint(|body|) + body;
            Extent(d).Some? && Extent(d).value.1 == |d| && d[Extent(d).value.0..] == body
  {
    hide ReadVarint;
    VarintRoundTrip(|body|, body);
    SovIsLength(|body|);
  }

  lemma DecodeOneStep(x: External, s: Schema, m: Message, d: Bytes)
    requires GoodSchema(s) && WellTyped(s, m) && d != []
    requires Step(x, s, m, d).Some? && Step(x, s, m, d).value.1 == |d|
    ensures Decode(x, s, m, d) == Some(Step(x, s, m, d).value.0)
  {
    hide Step; hide WellTyped; hide GoodSchema;
    assert d[|d|..] == [];
  }

  /** A length-delimited field, encoded and decoded, is `Apply` on its body. */
  lemma DecodeDelimited(x: External, s: Schema, m: Message, num: nat, k: Kind, v: Value, body: Bytes)
    requires GoodSchema(s) && WellTyped(s, m) && 1 <= num <= |s.kinds| && |body| < I64
    requires k == s.kinds[num - 1] && v == m.vals[num - 1] && Fits(k, v)
    requires !k.U64Kind? && !k.U32Kind? && !k.BoolKind?
    ensures Decode(x, s, m, Delimited(num, body)) ==
            match Apply(x, k, v, body)
            case None => None
            case Some(v') => Some(Message(m.vals[num - 1 := v']))
  {
    hide ReadVarint; hide ToInt32; hide Apply; hide Extent; hide EncodeVarint; hide Decode; hide Fits;
    var d := EncodeVarint(|body|) + body;
    ReadKey(num, 2, d);
    ReadExtent(body);
    var (b, e) := Extent(d).value;
    assert d[b..e] == body;
    var full := Delimited(num, body);
    assert full == [num * 8 + 2] + d;
    KeyNumber(num);
    StepOfKey(x, s, m, num, num * 8 + 2, k, v, full, d, body);
    if Apply(x, k, v, body).Some? {
      DecodeOneStep(x, s, m, full);
    } else {
      DecodeNoStep(x, s, m, full);
    }
  }

  lemma DecodeNoStep(x: External, s: Schema, m: Message, d: Bytes)
    requires GoodSchema(s) && WellTyped(s, m) && d != [] && Step(x, s, m, d).None?
    ensures Decode(x, s, m, d).None?
  {
    hide Step; hide WellTyped; hide GoodSchema;
  }

  lemma KeyNumber(num: nat)
    requires 1 <= num <= 15
    ensures ((num * 8 + 2) / 8) % U32 == num && (num * 8 + 2) % 8 == 2
  {
  }

  lemma StepOfKey(x: External, s: Schema, m: Message, num: nat, tag: uint64, k: Kind, v: Value, full: Bytes, d: Bytes, body: Bytes)
    requires GoodSchema(s) && WellTyped(s, m) && 1 <= num <= |s.kinds|
    requires k == s.kinds[num - 1] && v == m.vals[num - 1] && !k.U64Kind? && !k.U32Kind? && !k.BoolKind?
    requires (tag / 8) % U32 == num && tag % 8 == 2
    requires ReadVarint(full) == Some((tag, 1)) && |full| == |d| + 1 && full[1..] == d
    requires Extent(d).Some? && Extent(d).value.1 == |d| && d[Extent(d).value.0..] == body
    ensures Fits(k, v)
    ensures Step(x, s, m, full) == match Apply(x, k, v, body)
                                   case None => None
                                   case Some(v') => Some((Message(m.vals[num - 1 := v']), |full|))
  {
    hide ReadVarint; hide Apply; hide Extent; hide Fits; hide GoodSchema; hide FieldStep; hide Step;
    SubSchema(s, num - 1);
    TagSelects(x, s, m, full);
    FieldStepOfBody(x, k, v, d, body);
  }

  lemma FieldStepOfBody(x: External, k: Kind, v: Value, d: Bytes, body: Bytes)
    requires Fits(k, v) && (k.SubKind? ==> GoodSchema(k.sub)) && !k.U64Kind? && !k.U32Kind? && !k.BoolKind?
    requires Extent(d).Some? && Extent(d).value.1 == |d| && d[Extent(d).value.0..] == body
    ensures FieldStep(x, k, 2, v, d) == match Apply(x, k, v, body) case None => None case Some(v') => Some((v', |d|))
  {
    hide Apply; hide Extent; hide Fits; hide GoodSchema;
    var (b, e) := Extent(d).value;
    assert d[b..e] == body;
  }

  lemma SubSchema(s: Schema, i: nat)
    requires GoodSchema(s) && i < |s.kinds|
    ensures s.kinds[i].SubKind? ==> GoodSchema(s.kinds[i].sub)
  {
  }

  lemma DecodeScalar(x: External, s: Schema, m: Message, num: nat, k: Kind, n: uint64)
    requires GoodSchema(s) && WellTyped(s, m) && 1 <= num <= |s.kinds|
    requires k == s.kinds[num - 1] && (k.U64Kind? || k.U32Kind? || k.BoolKind?)
    ensures Decode(x, s, m, Scalar(num, n)) == Some(Message(m.vals[num - 1 := Num(Narrow(k, n))]))
  {
    hide ReadVarint; hide ToInt32; hide Narrow; hide EncodeVarint;
    var d := EncodeVarint(n);
    ReadKey(num, 0, d);
    VarintRoundTrip(n, []);
    SovIsLength(n);
    assert d + [] == d;
    var full := Scalar(num, n);
    assert full == [num * 8] + d;
    DecodeOneStep(x, s, m, full);
  }

  // ---------- encoding, then decoding ----------

  lemma DecodeEmpty(x: External, s: Schema, m: Message)
    requires GoodSchema(s) && WellTyped(s, m)
    ensures Decode(x, s, m, []) == Some(m)
  {
  }

  lemma {:induction false} DecodeOneMore(x: External, s: Schema, m: Message, num: nat, k: Kind, had: seq<Message>, y: Message)
    requires GoodSchema(s) && WellTyped(s, m) && 1 <= num <= |s.kinds| && LawfulKind(x, s.kinds[num - 1])
    requires k == s.kinds[num - 1] && k.SubKind? && k.repeated && m.vals[num - 1] == Subs(had)
    requires WellTyped(k.sub, y) && Encodable(x, k.sub, y) && |Encode(x, k.sub, y)| < I64
    ensures Decode(x, s, m, Delimited(num, Encode(x, k.sub, y))) == Some(Message(m.vals[num - 1 := Subs(had + [y])]))
    decreases s, 0, 0
  {
    hide Decode; hide Delimited; hide Encode; hide Merge; hide Lawful; hide Encodable; hide Zero;
    assert GoodSchema(k.sub);
    MergeTheorem(x, k.sub, Zero(k.sub), y);
    MergeIntoZero(k.sub, y);
    DecodeDelimited(x, s, m, num, k, Subs(had), Encode(x, k.sub, y));
  }

  lemma {:induction false} DecodeSubs(x: External, s: Schema, m: Message, num: nat, k: Kind, had: seq<Message>, ms: seq<Message>)
    requires GoodSchema(s) && WellTyped(s, m) && 1 <= num <= |s.kinds| && LawfulKind(x, s.kinds[num - 1])
    requires k == s.kinds[num - 1] && k.SubKind? && k.repeated && m.vals[num - 1] == Subs(had)
    requires forall i :: 0 <= i < |ms| ==> WellTyped(k.sub, ms[i]) && Encodable(x, k.sub, ms[i])
    requires |EncodeSubs(x, num, k.sub, ms)| < I64
    ensures Decode(x, s, m, EncodeSubs(x, num, k.sub, ms)) == Some(Message(m.vals[num - 1 := Subs(had + ms)]))
    decreases s, 0, |ms| + 1
  {
    hide Decode; hide Delimited; hide Encode; hide Lawful; hide Encodable; hide GoodSchema; hide Fits;
    if ms == [] {
      DecodeEmpty(x, s, m);
      assert had + ms == had && m.vals[num - 1 := Subs(had)] == m.vals;
    } else {
      var head, tail := Delimited(num, Encode(x, k.sub, ms[0])), EncodeSubs(x, num, k.sub, ms[1..]);
      DecodeOneMore(x, s, m, num, k, had, ms[0]);
      var m' := Message(m.vals[num - 1 := Subs(had + [ms[0]])]);
      DecodeConcat(x, s, m, head, tail);
      DecodeSubs(x, s, m', num, k, had + [ms[0]], ms[1..]);
      assert had + [ms[0]] + ms[1..] == had + ms;
      assert m'.vals[num - 1 := Subs(had + ms)] == m.vals[num - 1 := Subs(had + ms)];
    }
  }

  lemma {:induction false} DecodeOneSub(x: External, s: Schema, m: Message, num: nat, k: Kind, c: Message, y: Message)
    requires GoodSchema(s) && WellTyped(s, m) && 1 <= num <= |s.kinds| && LawfulKind(x, s.kinds[num - 1])
    requires k == s.kinds[num - 1] && k.SubKind? && !k.repeated && m.vals[num - 1] == Subs([c])
    requires WellTyped(k.sub, c) && WellTyped(k.sub, y) && Encodable(x, k.sub, y)
    requires |EncodeSubs(x, num, k.sub, [y])| < I64
    ensures Decode(x, s, m, EncodeSubs(x, num, k.sub, [y])) ==
            Some(Message(m.vals[num - 1 := Subs([Merge(k.sub, c, y)])]))
    decreases s, 0
  {
    hide Decode; hide Delimited; hide Encode; hide Merge; hide Lawful; hide Encodable;
    var body := Encode(x, k.sub, y);
    assert EncodeSubs(x, num, k.sub, [y][1..]) == [];
    assert EncodeSubs(x, num, k.sub, [y]) == Delimited(num, body);
    assert GoodSchema(k.sub);
    MergeTheorem(x, k.sub, c, y);
    DecodeDelimited(x, s, m, num, k, Subs([c]), body);
  }

  /** The body a string, time or `Any` field is written with, if it is written. */
  function LeafBody(x: External, w: Value): Option<Bytes> {
    match w
    case Str(b) => if b == [] then None else Some(b)
    case Times(ts) => if ts == [] then None else Some(TimeBytes(x, ts[0]))
    case Anys(anys) => if anys == [] then None else Some(x.encAny(anys[0]))
    case _ => None
  }

  lemma ApplyLeaf(x: External, num: nat, k: Kind, v: Value, w: Value)
    requires 1 <= num <= 15 && LawfulKind(x, k) && Fits(k, v) && Fits(k, w) && EncodableValue(x, k, w)
    requires !w.Num? && !w.Subs? && |EncodeValue(x, num, k, w)| < I64
    ensures LeafBody(x, w).None? ==> EncodeValue(x, num, k, w) == [] && MergeValue(k, v, w) == v
    ensures LeafBody(x, w).Some? ==>
            var body := LeafBody(x, w).value;
            && EncodeValue(x, num, k, w) == Delimited(num, body) && |body| < I64
            && Apply(x, k, v, body) == Some(MergeValue(k, v, w))
  {
    hide Delimited;
    if w.Times? && w.ts != [] { assert w.ts == [w.ts[0]]; }
  }

  lemma DecodeNum(x: External, s: Schema, m: Message, num: nat, k: Kind, v: Value, w: Value)
    requires GoodSchema(s) && WellTyped(s, m) && 1 <= num <= |s.kinds|
    requires k == s.kinds[num - 1] && v == m.vals[num - 1] && w.Num? && Fits(k, v) && Fits(k, w)
    ensures Decode(x, s, m, EncodeValue(x, num, k, w)) == Some(Message(m.vals[num - 1 := MergeValue(k, v, w)]))
  {
    hide GoodSchema; hide Scalar; hide Decode;
    assert m.vals[num - 1 := v] == m.vals;
    DecodeEmpty(x, s, m);
    if w.n != 0 { DecodeScalar(x, s, m, num, k, w.n); }
  }

  lemma DecodeLeaf(x: External, s: Schema, m: Message, num: nat, k: Kind, v: Value, w: Value)
    requires GoodSchema(s) && WellTyped(s, m) && 1 <= num <= |s.kinds| && LawfulKind(x, s.kinds[num - 1])
    requires k == s.kinds[num - 1] && v == m.vals[num - 1]
    requires Fits(k, v) && Fits(k, w) && !k.SubKind? && EncodableValue(x, k, w)
    requires |EncodeValue(x, num, k, w)| < I64
    ensures Decode(x, s, m, EncodeValue(x, num, k, w)) == Some(Message(m.vals[num - 1 := MergeValue(k, v, w)]))
  {
    assert m.vals[num - 1 := v] == m.vals;
    hide GoodSchema; hide Delimited; hide Decode; hide LawfulKind; hide EncodableValue; hide EncodeValue; hide MergeValue; hide Apply; hide LeafBody;
    DecodeEmpty(x, s, m);
    if w.Num? {
      DecodeNum(x, s, m, num, k, v, w);
    } else {
      ApplyLeaf(x, num, k, v, w);
      var body := LeafBody(x, w);
      if body.Some? { DecodeDelimited(x, s, m, num, k, v, body.value); }
    }
  }

  lemma {:induction false} DecodeValue(x: External, s: Schema, m: Message, num: nat, k: Kind, v: Value, w: Value)
    requires GoodSchema(s) && WellTyped(s, m) && 1 <= num <= |s.kinds| && LawfulKind(x, s.kinds[num - 1])
    requires k == s.kinds[num - 1] && v == m.vals[num - 1]
    requires Fits(k, v) && Fits(k, w) && EncodableValue(x, k, w)
    requires |EncodeValue(x, num, k, w)| < I64
    ensures Decode(x, s, m, EncodeValue(x, num, k, w)) == Some(Message(m.vals[num - 1 := MergeValue(k, v, w)]))
    decreases s, 1
  {
    hide Decode; hide WellTyped; hide GoodSchema; hide Merge; hide Lawful; hide Encodable; hide EncodeSubs;
    if !k.SubKind? {
      DecodeLeaf(x, s, m, num, k, v, w);
    } else if k.repeated {
      DecodeSubs(x, s, m, num, k, v.ms, w.ms);
    } else {
      assert v == Subs([v.ms[0]]) && w == Subs([w.ms[0]]);
      DecodeOneSub(x, s, m, num, k, v.ms[0], w.ms[0]);
    }
  }

  /** `m` with its first `k` fields merged with those of `y`. */
  function MergedUpTo(s: Schema, m: Message, y: Message, k: nat): (r: Message)
    requires WellTyped(s, m) && WellTyped(s, y) && k <= |s.kinds|
    ensures WellTyped(s, r)
  {
    Message(Merge(s, m, y).vals[..k] + m.vals[k..])
  }

  lemma MergedOneMore(s: Schema, m: Message, y: Message, k: nat)
    requires WellTyped(s, m) && WellTyped(s, y) && k < |s.kinds|
    ensures var mk := MergedUpTo(s, m, y, k).vals;
            && mk[k] == m.vals[k]
            && mk[k := MergeValue(s.kinds[k], m.vals[k], y.vals[k])] == MergedUpTo(s, m, y, k + 1).vals
  {
    hide MergeValue;
  }

  lemma {:induction false} DecodeFrom(x: External, s: Schema, m: Message, y: Message, k: nat)
    requires Lawful(x, s) && GoodSchema(s) && WellTyped(s, m) && WellTyped(s, y) && Encodable(x, s, y)
    requires k <= |s.kinds| && |EncodeFrom(x, s, y, k)| < I64
    ensures Decode(x, s, MergedUpTo(s, m, y, k), EncodeFrom(x, s, y, k)) == Some(Merge(s, m, y))
    decreases s, 2, |s.kinds| - k
  {
    hide Decode; hide EncodeValue; hide MergeValue; hide LawfulKind; hide EncodableValue; hide Fits; hide GoodSchema;
    var mk := MergedUpTo(s, m, y, k);
    if k == |s.kinds| {
      assert mk.vals == Merge(s, m, y).vals;
      DecodeEmpty(x, s, mk);
    } else {
      hide MergedUpTo; hide Merge;
      MergedOneMore(s, m, y, k);
      var head, tail := EncodeValue(x, k + 1, s.kinds[k], y.vals[k]), EncodeFrom(x, s, y, k + 1);
      DecodeValue(x, s, mk, k + 1, s.kinds[k], m.vals[k], y.vals[k]);
      DecodeConcat(x, s, mk, head, tail);
      DecodeFrom(x, s, m, y, k + 1);
    }
  }

  /** Unmarshalling the bytes of `y` into a message holding `m` leaves exactly their merge. */
  lemma {:induction false} MergeTheorem(x: External, s: Schema, m: Message, y: Message)
    requires Lawful(x, s) && GoodSchema(s) && WellTyped(s, m) && WellTyped(s, y) && Encodable(x, s, y)
    requires |Encode(x, s, y)| < I64
    ensures Decode(x, s, m, Encode(x, s, y)) == Some(Merge(s, m, y))
    decreases s, 3
  {
    hide Decode; hide EncodeFrom; hide MergeValue; hide Lawful; hide Encodable;
    assert MergedUpTo(s, m, y, 0).vals == m.vals;
    DecodeFrom(x, s, m, y, 0);
  }

  /** Unmarshal undoes Marshal, although zero-valued fields are not written. */
  lemma RoundTrip(x: External, s: Schema, y: Message)
    requires Lawful(x, s) && GoodSchema(s) && WellTyped(s, y) && Encodable(x, s, y)
    requires |Encode(x, s, y)| < I64
    ensures Decode(x, s, Zero(s), Encode(x, s, y)) == Some(y)
  {
    MergeTheorem(x, s, Zero(s), y);
    MergeIntoZero(s, y);
  }

  // ---------- the Any codec ----------

  const ANY := Schema([StrKind, StrKind])

  function OfAny(a: Any): (r: Message)
    ensures WellTyped(ANY, r)
  {
    Message([Str(a.typeUrl), Str(a.value)])
  }

  function EncAny(x: External, a: Any): Bytes {
    Encode(x, ANY, OfAny(a))
  }

  function DecAny(x: External, a: Any, d: Bytes): Option<Any> {
    assert GoodSchema(ANY);
    match Decode(x, ANY, OfAny(a), d)
    case None => None
    case Some(r) =>
      assert Fits(ANY.kinds[0], r.vals[0]) && Fits(ANY.kinds[1], r.vals[1]);
      Some(Any(r.vals[0].s, r.vals[1].s))
  }

  /** The `Any` codec is the same template on two strings. */
  function WithAny(x: External): External {
    x.(encAny := a => EncAny(x, a), decAny := (a, d) => DecAny(x, a, d))
  }

  /** So its law need not be assumed: it is the merge theorem on that template. */
  lemma AnyIsLawful(x: External)
    ensures LawfulAny(WithAny(x))
  {
    hide Decode; hide Encode;
    var y := WithAny(x);
    forall a, b | |y.encAny(b)| < I64 ensures y.decAny(a, y.encAny(b)) == Some(MergeAny(a, b)) {
      AnyMerges(x, a, b);
    }
  }

  lemma AnyMerges(x: External, a: Any, b: Any)
    requires |EncAny(x, b)| < I64
    ensures DecAny(x, a, EncAny(x, b)) == Some(MergeAny(a, b))
  {
    hide Decode; hide Encode;
    MergeTheorem(x, ANY, OfAny(a), OfAny(b));
    assert Merge(ANY, OfAny(a), OfAny(b)).vals == OfAny(MergeAny(a, b)).vals;
  }

  /** Two occurrences of an embedded message read as one whose body is their bodies joined. */
  lemma EmbeddedFieldsMerge(x: External, s: Schema, m: Message, num: nat, c: Message, p: Bytes, q: Bytes)
    requires GoodSchema(s) && WellTyped(s, m) && 1 <= num <= |s.kinds| && |p| + |q| < I64
    requires var k := s.kinds[num - 1]; k.SubKind? && !k.repeated && GoodSchema(k.sub) && WellTyped(k.sub, c)
    requires m.vals[num - 1] == Subs([c])
    requires Decode(x, s.kinds[num - 1].sub, c, p).Some?
    ensures Decode(x, s, m, Delimited(num, p) + Delimited(num, q)) == Decode(x, s, m, Delimited(num, p + q))
  {
    hide Decode; hide Delimited;
    var k := s.kinds[num - 1];
    var c' := Decode(x, k.sub, c, p).value;
    DecodeDelimited(x, s, m, num, k, Subs([c]), p);
    var m' := Message(m.vals[num - 1 := Subs([c'])]);
    DecodeConcat(x, s, m, Delimited(num, p), Delimited(num, q));
    DecodeDelimited(x, s, m', num, k, Subs([c']), q);
    DecodeDelimited(x, s, m, num, k, Subs([c]), p + q);
    DecodeConcat(x, k.sub, c, p, q);
    if Decode(x, k.sub, c', q).Some? {
      var last := Subs([Decode(x, k.sub, c', q).value]);
      assert m'.vals[num - 1 := last] == m.vals[num - 1 := last];
    }
  }

  // ---------- the assumptions can be met ----------

  /** A time codec that satisfies its law: seconds and nanoseconds apart do not matter, reading back does. */
  function SampleExternal(): External {
    WithAny(External(
      t => if 0 <= t < U64 then Some(EncodeVarint(t)) else None,
      d => match ReadVarint(d) case None => None case Some((t, _)) => Some(t),
      a => [],
      (a, d) => None))
  }

  lemma LawsHaveAModel()
    ensures LawfulTime(SampleExternal()) && LawfulAny(SampleExternal())
  {
    hide EncodeVarint; hide ReadVarint;
    var x := SampleExternal();
    forall t | x.encTime(t).Some? ensures x.decTime(x.encTime(t).value) == Some(t) {
      VarintRoundTrip(t, []);
      assert EncodeVarint(t) + [] == EncodeVarint(t);
    }
    SampleAny(x);
  }

  lemma SampleAny(x: External)
    requires x == SampleExternal()
    ensures LawfulAny(x)
  {
    hide Decode; hide Encode;
    forall a, b | |x.encAny(b)| < I64 ensures x.decAny(a, x.encAny(b)) == Some(MergeAny(a, b)) {
      AnyMerges(External(x.encTime, x.decTime, a => [], (a, d) => None), a, b);
    }
  }
}
