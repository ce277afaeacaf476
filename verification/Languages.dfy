/**
 * The DID, digest and language-tag checks as languages over bytes. A byte of a
 * multi-byte character is never white space, a letter or a digit, so reading
 * bytes and reading characters accept the same strings.
 */
module Languages {
  import opened Basics

  // ---------- character classes ----------

  const COLON: Byte := 58
  const HASH: Byte := 35
  const QUERY: Byte := 63
  const DASH: Byte := 45
  const EQUALS: Byte := 61

  predicate Lower(b: Byte) { 97 <= b <= 122 }
  predicate Upper(b: Byte) { 65 <= b <= 90 }
  predicate Digit(b: Byte) { 48 <= b <= 57 }

  /** `[a-z0-9]`, `[A-Za-z0-9._:/%\-]`, `[^\s]` and `[A-Za-z0-9+/]`. */
  datatype CharClass = MethodChar | IdChar | NonSpace | Base64Char {
    predicate Has(b: Byte) {
      match this
      case MethodChar => Lower(b) || Digit(b)
      case IdChar => Lower(b) || Upper(b) || Digit(b) || b in {46, 95, 58, 47, 37, 45}
      case NonSpace => b !in {9, 10, 12, 13, 32}
      case Base64Char => Lower(b) || Upper(b) || Digit(b) || b in {43, 47}
    }

    predicate All(s: Bytes) {
      forall i :: 0 <= i < |s| ==> Has(s[i])
    }
  }

  // ---------- regular expressions ----------

  datatype Re =
    | Lit(bs: Bytes)
    | Class(c: CharClass)
    | Cat(a: Re, b: Re)
    | Alt(a: Re, b: Re)
    | Star(a: Re)
    | Opt(a: Re)

  function Plus(a: Re): Re {
    Cat(a, Star(a))
  }

  /** `s`, as a whole, is in the language of `r`. */
  predicate Matches(r: Re, s: Bytes)
    decreases r, |s|
  {
    match r
    case Lit(bs) => s == bs
    case Class(c) => |s| == 1 && c.Has(s[0])
    case Cat(a, b) => exists i :: 0 <= i <= |s| && Matches(a, s[..i]) && Matches(b, s[i..])
    case Alt(a, b) => Matches(a, s) || Matches(b, s)
    case Star(a) => s == [] || exists i :: 0 < i <= |s| && Matches(a, s[..i]) && Matches(r, s[i..])
    case Opt(a) => s == [] || Matches(a, s)
  }

  lemma {:induction false} StarOfClass(c: CharClass, s: Bytes)
    ensures Matches(Star(Class(c)), s) <==> c.All(s)
    decreases |s|
  {
    if s != [] {
      StarOfClass(c, s[1..]);
      if Matches(Star(Class(c)), s) {
        var i :| 0 < i <= |s| && Matches(Class(c), s[..i]) && Matches(Star(Class(c)), s[i..]);
        assert i == 1;
        assert forall j :: 0 < j < |s| ==> s[j] == s[1..][j - 1];
      }
      if c.All(s) {
        assert Matches(Class(c), s[..1]);
      }
    }
  }

  lemma PlusOfClass(c: CharClass, s: Bytes)
    ensures Matches(Plus(Class(c)), s) <==> s != [] && c.All(s)
  {
    if Matches(Plus(Class(c)), s) {
      var i :| 0 <= i <= |s| && Matches(Class(c), s[..i]) && Matches(Star(Class(c)), s[i..]);
      assert i == 1;
      StarOfClass(c, s[1..]);
      assert forall j :: 0 < j < |s| ==> s[j] == s[1..][j - 1];
    }
    if s != [] && c.All(s) {
      StarOfClass(c, s[1..]);
      assert Matches(Class(c), s[..1]);
    }
  }

  lemma CatIntro(a: Re, b: Re, s: Bytes, t: Bytes)
    requires Matches(a, s) && Matches(b, t)
    ensures Matches(Cat(a, b), s + t)
  {
    assert (s + t)[..|s|] == s && (s + t)[|s|..] == t;
  }

  lemma CatElim(a: Re, b: Re, s: Bytes) returns (u: Bytes, v: Bytes)
    requires Matches(Cat(a, b), s)
    ensures s == u + v && Matches(a, u) && Matches(b, v)
  {
    var i :| 0 <= i <= |s| && Matches(a, s[..i]) && Matches(b, s[i..]);
    u, v := s[..i], s[i..];
  }

  // ---------- DIDs ----------

  const DID: Bytes := [100, 105, 100, 58]
  const FRAGMENT := Opt(Cat(Lit([HASH]), Star(Class(NonSpace))))
  const QUERY_PART := Opt(Cat(Lit([QUERY]), Star(Class(NonSpace))))
  const DID_RE := Cat(Lit(DID), Cat(Plus(Class(MethodChar)), Cat(Lit([COLON]),
                      Cat(Plus(Class(IdChar)), Cat(FRAGMENT, QUERY_PART)))))

  predicate IsValidDID(s: Bytes) {
    Matches(DID_RE, s)
  }

  /** What may follow the identifier: nothing, or `#` or `?` and any text without white space. */
  predicate Suffix(t: Bytes) {
    t == [] || ((t[0] == HASH || t[0] == QUERY) && NonSpace.All(t))
  }

  /** The three parts of a DID, byte by byte. */
  ghost predicate DidParts(s: Bytes, m: Bytes, id: Bytes, t: Bytes) {
    && s == [100, 105, 100, 58] + (m + ([58] + (id + t)))
    && m != [] && (forall i :: 0 <= i < |m| ==> 97 <= m[i] <= 122 || 48 <= m[i] <= 57)
    && id != [] && (forall i :: 0 <= i < |id| ==> IdByte(id[i]))
    && (t == [] || (t[0] in {35, 63} && forall i :: 0 <= i < |t| ==> t[i] !in {9, 10, 12, 13, 32}))
  }

  /** Letters, digits and `%` `-` `.` `/` `:` `_`: the 68 bytes of an identifier. */
  predicate IdByte(b: Byte) {
    97 <= b <= 122 || 65 <= b <= 90 || 48 <= b <= 57 || b == 37 || b == 45 || b == 46 || b == 47 || b == 58 || b == 95
  }

  lemma MarkedText(mark: Byte, t: Bytes)
    requires NonSpace.Has(mark)
    ensures Matches(Opt(Cat(Lit([mark]), Star(Class(NonSpace)))), t) <==>
            t == [] || (t[0] == mark && NonSpace.All(t))
  {
    var marked := Cat(Lit([mark]), Star(Class(NonSpace)));
    if Matches(marked, t) {
      var u, v := CatElim(Lit([mark]), Star(Class(NonSpace)), t);
      StarOfClass(NonSpace, v);
    }
    if t != [] && t[0] == mark && NonSpace.All(t) {
      StarOfClass(NonSpace, t[1..]);
      CatIntro(Lit([mark]), Star(Class(NonSpace)), [mark], t[1..]);
      assert [mark] + t[1..] == t;
    }
  }

  /** The fragment-then-query pair of options allows the two marks in any order and number. */
  lemma SuffixLanguage(t: Bytes)
    ensures Matches(Cat(FRAGMENT, QUERY_PART), t) <==> Suffix(t)
  {
    if Matches(Cat(FRAGMENT, QUERY_PART), t) {
      var u, v := CatElim(FRAGMENT, QUERY_PART, t);
      MarkedText(HASH, u);
      MarkedText(QUERY, v);
    }
    if Suffix(t) {
      MarkedText(HASH, t);
      MarkedText(QUERY, t);
      if t != [] && t[0] == HASH {
        CatIntro(FRAGMENT, QUERY_PART, t, []);
        assert t + [] == t;
      } else {
        CatIntro(FRAGMENT, QUERY_PART, [], t);
        assert [] + t == t;
      }
    }
  }

  /** The pattern accepts exactly `did:` method `:` identifier and a suffix. */
  lemma DidLanguage(s: Bytes)
    ensures IsValidDID(s) <==> exists m, id, t :: DidParts(s, m, id, t)
  {
    hide Matches;
    var method', id' := Plus(Class(MethodChar)), Plus(Class(IdChar));
    var tail := Cat(FRAGMENT, QUERY_PART);
    if IsValidDID(s) {
      var p, s1 := CatElim(Lit(DID), Cat(method', Cat(Lit([COLON]), Cat(id', tail))), s);
      var m, s2 := CatElim(method', Cat(Lit([COLON]), Cat(id', tail)), s1);
      var c, s3 := CatElim(Lit([COLON]), Cat(id', tail), s2);
      var id, t := CatElim(id', tail, s3);
      LitIs(DID, p); LitIs([COLON], c);
      PlusOfClass(MethodChar, m);
      PlusOfClass(IdChar, id);
      SuffixLanguage(t);
      assert DidParts(s, m, id, t);
    }
    if m, id, t :| DidParts(s, m, id, t) {
      LitIs(DID, DID); LitIs([COLON], [COLON]);
      PlusOfClass(MethodChar, m);
      PlusOfClass(IdChar, id);
      SuffixLanguage(t);
      CatIntro(id', tail, id, t);
      CatIntro(Lit([COLON]), Cat(id', tail), [COLON], id + t);
      CatIntro(method', Cat(Lit([COLON]), Cat(id', tail)), m, [COLON] + (id + t));
      CatIntro(Lit(DID), Cat(method', Cat(Lit([COLON]), Cat(id', tail))), DID, m + ([COLON] + (id + t)));
    }
  }

  lemma LitIs(bs: Bytes, s: Bytes)
    ensures Matches(Lit(bs), s) <==> s == bs
  {
  }

  /** `did:a:` followed by an identifier. */
  function PlainDid(id: Bytes): Bytes {
    DID + ([97] + ([COLON] + (id + [])))
  }

  lemma PlainDidShowsId(id: Bytes)
    ensures |PlainDid(id)| == 6 + |id| && PlainDid(id)[6..] == id
  {
    assert PlainDid(id) == (DID + [97] + [COLON]) + id;
  }

  lemma PlainDidIsValid(id: Bytes)
    requires id != [] && IdChar.All(id)
    ensures IsValidDID(PlainDid(id))
  {
    hide IsValidDID;
    assert DidParts(PlainDid(id), [97], id, []);
    DidLanguage(PlainDid(id));
  }

  // ---------- one pass over a DID ----------

  /** Where a left-to-right reader stands: in the prefix, the method, the identifier or the suffix. */
  datatype Reader = Prefix(n: nat) | Method(some: bool) | Identifier(some: bool) | Rest | Stuck

  function Read(r: Reader, b: Byte): Reader {
    match r
    case Prefix(n) => if n < 4 && b == DID[n] then (if n == 3 then Method(false) else Prefix(n + 1)) else Stuck
    case Method(some) => if MethodChar.Has(b) then Method(true) else if some && b == COLON then Identifier(false) else Stuck
    case Identifier(some) =>
      if IdChar.Has(b) then Identifier(true) else if some && (b == HASH || b == QUERY) then Rest else Stuck
    case Rest => if NonSpace.Has(b) then Rest else Stuck
    case Stuck => Stuck
  }

  predicate Accepts(r: Reader, s: Bytes)
    decreases |s|
  {
    if s == [] then r == Identifier(true) || r == Rest else Accepts(Read(r, s[0]), s[1..])
  }

  lemma {:induction false} StuckRejects(s: Bytes)
    ensures !Accepts(Stuck, s)
  {
    if s != [] { StuckRejects(s[1..]); }
  }

  lemma {:induction false} ReadRest(s: Bytes)
    ensures Accepts(Rest, s) <==> NonSpace.All(s)
  {
    if s != [] {
      ReadRest(s[1..]);
      StuckRejects(s[1..]);
      assert s == [s[0]] + s[1..];
    }
  }

  ghost predicate IdThenSuffix(some: bool, s: Bytes, id: Bytes, t: Bytes) {
    s == id + t && IdChar.All(id) && (some || id != []) && Suffix(t)
  }

  lemma {:induction false} ReadIdentifier(some: bool, s: Bytes)
    ensures Accepts(Identifier(some), s) <==> exists id, t :: IdThenSuffix(some, s, id, t)
    decreases |s|
  {
    if s == [] {
      assert some ==> IdThenSuffix(some, s, [], []);
    } else if IdChar.Has(s[0]) {
      ReadIdentifier(true, s[1..]);
      if id, t :| IdThenSuffix(true, s[1..], id, t) {
        assert s == ([s[0]] + id) + t;
        assert IdThenSuffix(some, s, [s[0]] + id, t);
      }
      if id, t :| IdThenSuffix(some, s, id, t) {
        assert id != [] && s[1..] == id[1..] + t;
        assert IdThenSuffix(true, s[1..], id[1..], t);
      }
    } else {
      StuckRejects(s[1..]);
      ReadRest(s[1..]);
      assert s == [s[0]] + s[1..] == [] + s;
      assert Accepts(Identifier(some), s) <==> some && Suffix(s);
      assert some && Suffix(s) ==> IdThenSuffix(some, s, [], s);
      if id, t :| IdThenSuffix(some, s, id, t) {
        assert id == [] && t == s;
      }
    }
  }

  ghost predicate MethodThenId(some: bool, s: Bytes, m: Bytes, u: Bytes) {
    s == m + ([COLON] + u) && MethodChar.All(m) && (some || m != []) && Accepts(Identifier(false), u)
  }

  lemma {:induction false} ReadMethod(some: bool, s: Bytes)
    ensures Accepts(Method(some), s) <==> exists m, u :: MethodThenId(some, s, m, u)
    decreases |s|
  {
    if s == [] {
    } else if MethodChar.Has(s[0]) {
      ReadMethod(true, s[1..]);
      if m, u :| MethodThenId(true, s[1..], m, u) {
        assert s == ([s[0]] + m) + ([COLON] + u);
        assert MethodThenId(some, s, [s[0]] + m, u);
      }
      if m, u :| MethodThenId(some, s, m, u) {
        assert m != [] && s[1..] == m[1..] + ([COLON] + u);
        assert MethodThenId(true, s[1..], m[1..], u);
      }
    } else {
      StuckRejects(s[1..]);
      if Accepts(Method(some), s) {
        assert s == [] + ([COLON] + s[1..]);
        assert MethodThenId(some, s, [], s[1..]);
      }
      if m, u :| MethodThenId(some, s, m, u) {
        assert m == [] && s[1..] == u;
      }
    }
  }

  lemma ReadPrefix(s: Bytes)
    ensures Accepts(Prefix(0), s) <==> |s| >= 4 && s[..4] == DID && Accepts(Method(false), s[4..])
  {
    hide Accepts;
    assert s[0..] == s;
    assert |s| >= 4 ==> (s[..4] == DID <==> s[0] == DID[0] && s[1] == DID[1] && s[2] == DID[2] && s[3] == DID[3]);
    StuckOrNext(s, 0);
    StuckOrNext(s, 1);
    StuckOrNext(s, 2);
    StuckOrNext(s, 3);
  }

  lemma StuckOrNext(s: Bytes, n: nat)
    requires n < 4
    ensures |s| == n ==> !Accepts(Prefix(n), s[n..])
    ensures |s| > n ==> (Accepts(Prefix(n), s[n..]) <==>
                         s[n] == DID[n] && Accepts(if n == 3 then Method(false) else Prefix(n + 1), s[n + 1..]))
  {
    if |s| > n {
      assert s[n..][1..] == s[n + 1..];
      StuckRejects(s[n + 1..]);
    }
  }

  /** The pattern, with its two optional suffixes, is decided by one pass without backtracking. */
  lemma DidOnePass(s: Bytes)
    ensures IsValidDID(s) <==> Accepts(Prefix(0), s)
  {
    hide Matches; hide Accepts;
    DidLanguage(s);
    ReadPrefix(s);
    if IsValidDID(s) {
      var m, id, t :| DidParts(s, m, id, t);
      ReadIdentifier(false, id + t);
      assert IdThenSuffix(false, id + t, id, t);
      assert s[4..] == m + ([COLON] + (id + t));
      ReadMethod(false, s[4..]);
      assert MethodThenId(false, s[4..], m, id + t);
    }
    if Accepts(Prefix(0), s) {
      ReadMethod(false, s[4..]);
      var m, u :| MethodThenId(false, s[4..], m, u);
      ReadIdentifier(false, u);
      var id, t :| IdThenSuffix(false, u, id, t);
      assert s == DID + s[4..];
      assert DidParts(s, m, id, t);
    }
  }

  // ---------- which bytes may stand where ----------

  lemma AfterDid(u: Bytes)
    ensures IsValidDID([100, 105, 100, 58] + u) <==> Accepts(Method(false), u)
  {
    hide IsValidDID; hide Accepts;
    var s := [100, 105, 100, 58] + u;
    assert s[..4] == DID && s[4..] == u;
    DidOnePass(s);
    ReadPrefix(s);
  }

  /** One byte read, then the rest. */
  lemma ReadOn(r: Reader, b: Byte, rest: Bytes)
    ensures Accepts(r, [b] + rest) == Accepts(Read(r, b), rest)
  {
    assert ([b] + rest)[1..] == rest;
  }

  lemma ReadTwo(r: Reader, b: Byte, c: Byte, rest: Bytes)
    ensures Accepts(r, [b, c] + rest) == Accepts(Read(Read(r, b), c), rest)
  {
    hide Accepts; hide Read;
    assert [b, c] + rest == [b] + ([c] + rest);
    ReadOn(r, b, [c] + rest);
    ReadOn(Read(r, b), c, rest);
  }

  /** Which byte may be a method, an identifier, and may follow an identifier. */
  lemma DidBytes(b: Byte)
    ensures IsValidDID([100, 105, 100, 58, b, 58, 97]) <==> 97 <= b <= 122 || 48 <= b <= 57
    ensures IsValidDID([100, 105, 100, 58, 97, 58, b]) <==> IdByte(b)
    ensures IsValidDID([100, 105, 100, 58, 97, 58, 97, b]) <==> IdByte(b) || b == 35 || b == 63
  {
    hide IsValidDID; hide Accepts;
    var did := [100, 105, 100, 58];
    AfterDid([b, 58] + [97]);
    AfterDid([97, 58] + [b]);
    AfterDid([97, 58] + [97, b]);
    assert did + ([b, 58] + [97]) == [100, 105, 100, 58, b, 58, 97];
    assert did + ([97, 58] + [b]) == [100, 105, 100, 58, 97, 58, b];
    assert did + ([97, 58] + [97, b]) == [100, 105, 100, 58, 97, 58, 97, b];
    ReadTwo(Method(false), b, 58, [97]);
    ReadTwo(Method(false), 97, 58, [b]);
    ReadTwo(Method(false), 97, 58, [97, b]);
    ReadEnd(Read(Read(Method(false), b), 58), 97);
    ReadEnd(Identifier(false), b);
    assert [97, b] + [] == [97, b];
    ReadTwo(Identifier(false), 97, b, []);
    ReadNothing(Read(Read(Identifier(false), 97), b));
  }

  lemma ReadNothing(r: Reader)
    ensures Accepts(r, []) <==> r == Identifier(true) || r == Rest
  {
  }

  lemma ReadEnd(r: Reader, b: Byte)
    ensures Accepts(r, [b]) <==> Read(r, b) == Identifier(true) || Read(r, b) == Rest
  {
    assert [b] + [] == [b];
    ReadOn(r, b, []);
    ReadNothing(Read(r, b));
  }

  /** After either mark any byte may follow but white space. */
  lemma MarkBytes(mark: Byte, b: Byte)
    requires mark == 35 || mark == 63
    ensures IsValidDID([100, 105, 100, 58, 97, 58, 97, mark, b]) <==> b !in {9, 10, 12, 13, 32}
  {
    hide IsValidDID; hide Accepts;
    AfterDid([97, 58] + [97, mark, b]);
    assert [100, 105, 100, 58] + ([97, 58] + [97, mark, b]) == [100, 105, 100, 58, 97, 58, 97, mark, b];
    ReadTwo(Method(false), 97, 58, [97, mark, b]);
    assert [97, mark, b] == [97, mark] + [b];
    ReadTwo(Identifier(false), 97, mark, [b]);
    ReadEnd(Rest, b);
  }

  /** `did:web:a.b` and `did:web:a#k?q` are accepted; `did:web:`, `did:Web:a` and `did:web` are not. */
  lemma DidExamples()
    ensures IsValidDID([100, 105, 100, 58, 119, 101, 98, 58, 97, 46, 98])
    ensures IsValidDID([100, 105, 100, 58, 119, 101, 98, 58, 97, 35, 107, 63, 113])
    ensures !IsValidDID([100, 105, 100, 58, 119, 101, 98, 58])
    ensures !IsValidDID([100, 105, 100, 58, 87, 101, 98, 58, 97])
    ensures !IsValidDID([100, 105, 100, 58, 119, 101, 98])
  {
    hide IsValidDID; hide Accepts;
    var web := [119, 101, 98];
    DidLanguage([100, 105, 100, 58, 119, 101, 98, 58, 97, 46, 98]);
    assert DidParts([100, 105, 100, 58, 119, 101, 98, 58, 97, 46, 98], web, [97, 46, 98], []);
    DidLanguage([100, 105, 100, 58, 119, 101, 98, 58, 97, 35, 107, 63, 113]);
    assert DidParts([100, 105, 100, 58, 119, 101, 98, 58, 97, 35, 107, 63, 113], web, [97], [35, 107, 63, 113]);
    AfterDid([119, 101] + [98, 58]);
    assert [100, 105, 100, 58] + ([119, 101] + [98, 58]) == [100, 105, 100, 58, 119, 101, 98, 58];
    ReadTwo(Method(false), 119, 101, [98, 58]);
    assert [98, 58] + [] == [98, 58];
    ReadTwo(Method(true), 98, 58, []);
    ReadNothing(Identifier(false));
    AfterDid([87] + [101, 98, 58, 97]);
    assert [100, 105, 100, 58] + ([87] + [101, 98, 58, 97]) == [100, 105, 100, 58, 87, 101, 98, 58, 97];
    ReadOn(Method(false), 87, [101, 98, 58, 97]);
    StuckRejects([101, 98, 58, 97]);
    AfterDid([119, 101] + [98]);
    assert [100, 105, 100, 58] + ([119, 101] + [98]) == [100, 105, 100, 58, 119, 101, 98];
    ReadTwo(Method(false), 119, 101, [98]);
    ReadEnd(Method(true), 98);
  }

  // ---------- digests ----------

  const SHA256: Bytes := [115, 104, 97, 50, 53, 54]
  const SHA384: Bytes := [115, 104, 97, 51, 56, 52]
  const SHA512: Bytes := [115, 104, 97, 53, 49, 50]

  const SRI_RE := Cat(Alt(Lit(SHA256), Alt(Lit(SHA384), Lit(SHA512))),
                      Cat(Lit([DASH]), Cat(Plus(Class(Base64Char)), Cat(Opt(Lit([EQUALS])), Opt(Lit([EQUALS]))))))

  predicate IsValidDigestSRI(s: Bytes) {
    Matches(SRI_RE, s)
  }

  /** The three parts of a digest, byte by byte: sha256, sha384 or sha512, the base64 body, the padding. */
  ghost predicate SriParts(s: Bytes, alg: Bytes, body: Bytes, pad: Bytes) {
    && s == alg + ([45] + (body + pad))
    && alg in {[115, 104, 97, 50, 53, 54], [115, 104, 97, 51, 56, 52], [115, 104, 97, 53, 49, 50]}
    && body != [] && (forall i :: 0 <= i < |body| ==>
         97 <= body[i] <= 122 || 65 <= body[i] <= 90 || 48 <= body[i] <= 57 || body[i] == 43 || body[i] == 47)
    && |pad| <= 2 && forall i :: 0 <= i < |pad| ==> pad[i] == 61
  }

  lemma OptLit(mark: Byte, s: Bytes)
    ensures Matches(Opt(Lit([mark])), s) <==> s == [] || s == [mark]
  {
  }

  lemma Padding(p: Bytes)
    ensures Matches(Cat(Opt(Lit([EQUALS])), Opt(Lit([EQUALS]))), p) <==>
            |p| <= 2 && forall i :: 0 <= i < |p| ==> p[i] == EQUALS
  {
    hide Matches;
    var o := Opt(Lit([EQUALS]));
    if Matches(Cat(o, o), p) {
      var u, v := CatElim(o, o, p);
      OptLit(EQUALS, u); OptLit(EQUALS, v);
    }
    if |p| <= 2 && forall i :: 0 <= i < |p| ==> p[i] == EQUALS {
      var k := if |p| == 0 then 0 else 1;
      OptLit(EQUALS, p[..k]); OptLit(EQUALS, p[k..]);
      CatIntro(o, o, p[..k], p[k..]);
      assert p[..k] + p[k..] == p;
    }
  }

  lemma Algorithm(s: Bytes)
    ensures Matches(Alt(Lit(SHA256), Alt(Lit(SHA384), Lit(SHA512))), s) <==> s in {SHA256, SHA384, SHA512}
  {
    assert Matches(Alt(Lit(SHA384), Lit(SHA512)), s) <==> s == SHA384 || s == SHA512;
  }

  /** A digest is an algorithm name, a dash, a base64 body and at most two padding signs. */
  lemma SriLanguage(s: Bytes)
    ensures IsValidDigestSRI(s) <==> exists alg, body, pad :: SriParts(s, alg, body, pad)
  {
    hide Matches;
    var alg' := Alt(Lit(SHA256), Alt(Lit(SHA384), Lit(SHA512)));
    var body' := Plus(Class(Base64Char));
    var pad' := Cat(Opt(Lit([EQUALS])), Opt(Lit([EQUALS])));
    if IsValidDigestSRI(s) {
      var alg, s1 := CatElim(alg', Cat(Lit([DASH]), Cat(body', pad')), s);
      var dash, s2 := CatElim(Lit([DASH]), Cat(body', pad'), s1);
      var body, pad := CatElim(body', pad', s2);
      Algorithm(alg); LitIs([DASH], dash); PlusOfClass(Base64Char, body); Padding(pad);
      assert SriParts(s, alg, body, pad);
    }
    if alg, body, pad :| SriParts(s, alg, body, pad) {
      Algorithm(alg); LitIs([DASH], [DASH]); PlusOfClass(Base64Char, body); Padding(pad);
      CatIntro(body', pad', body, pad);
      CatIntro(Lit([DASH]), Cat(body', pad'), [DASH], body + pad);
      CatIntro(alg', Cat(Lit([DASH]), Cat(body', pad')), alg, [DASH] + (body + pad));
    }
  }

  /** `sha256-` and one byte is a digest exactly when that byte is base64; `sha1-a` is none. */
  lemma DigestBytes(b: Byte)
    ensures IsValidDigestSRI([115, 104, 97, 50, 53, 54, 45, b]) <==>
            97 <= b <= 122 || 65 <= b <= 90 || 48 <= b <= 57 || b == 43 || b == 47
    ensures !IsValidDigestSRI([115, 104, 97, 49, 45, 97])
  {
    hide IsValidDigestSRI;
    var s, sha1: Bytes := [115, 104, 97, 50, 53, 54, 45, b], [115, 104, 97, 49, 45, 97];
    SriLanguage(s);
    SriLanguage(sha1);
    if alg, body, pad :| SriParts(s, alg, body, pad) {
      assert |alg| == 6 && s[7] == (body + pad)[0] == body[0];
    }
    if 97 <= b <= 122 || 65 <= b <= 90 || 48 <= b <= 57 || b == 43 || b == 47 {
      assert s[..6] == [115, 104, 97, 50, 53, 54] && s == s[..6] + ([45] + ([b] + []));
      assert SriParts(s, s[..6], [b], []);
    }
    if alg, body, pad :| SriParts(sha1, alg, body, pad) {
      assert false;
    }
  }

  // ---------- language tags ----------

  /** `strings.Split(s, "-")` */
  function Split(s: Bytes): (parts: seq<Bytes>)
    ensures parts != []
  {
    if s == [] then [[]]
    else
      var rest := Split(s[1..]);
      if s[0] == DASH then [[]] + rest else [[s[0]] + rest[0]] + rest[1..]
  }

  predicate PartByte(b: Byte, first: bool) {
    Lower(b) || Upper(b) || (!first && Digit(b))
  }

  predicate PartOk(part: Bytes, first: bool) {
    1 <= |part| <= 8 && forall i :: 0 <= i < |part| ==> PartByte(part[i], first)
  }

  predicate IsValidBCP47(s: Bytes) {
    && s != []
    && |s| <= 17
    && var parts := Split(s);
    && PartOk(parts[0], true)
    && forall i :: 1 <= i < |parts| ==> PartOk(parts[i], false)
  }

  /** One pass that never splits: `n` bytes of the current part have been read; digits only after the first part. */
  predicate ScanTag(s: Bytes, first: bool, n: nat) {
    if s == [] then n >= 1
    else if s[0] == 45 then n >= 1 && ScanTag(s[1..], false, 0)
    else n < 8 && (97 <= s[0] <= 122 || 65 <= s[0] <= 90 || (!first && 48 <= s[0] <= 57)) && ScanTag(s[1..], first, n + 1)
  }

  predicate LaterOk(parts: seq<Bytes>) {
    forall i :: 1 <= i < |parts| ==> PartOk(parts[i], false)
  }

  lemma LaterTail(parts: seq<Bytes>)
    requires parts != []
    ensures LaterOk(parts) <==> forall part :: part in parts[1..] ==> PartOk(part, false)
  {
    hide PartOk;
    assert forall i :: 1 <= i < |parts| ==> parts[i] == parts[1..][i - 1];
    assert forall i :: 0 <= i < |parts| - 1 ==> parts[1..][i] == parts[i + 1];
  }

  lemma SplitAtDash(s: Bytes, before: Bytes)
    requires s != [] && s[0] == DASH
    ensures before + Split(s)[0] == before
    ensures LaterOk(Split(s)) <==> PartOk([] + Split(s[1..])[0], false) && LaterOk(Split(s[1..]))
  {
    var parts, rest := Split(s), Split(s[1..]);
    hide PartOk; hide Split; hide LaterOk;
    LaterTail(parts);
    LaterTail(rest);
    assert before + parts[0] == before && [] + rest[0] == rest[0];
    assert parts[1..] == rest && rest == [rest[0]] + rest[1..];
  }

  lemma SplitAtByte(s: Bytes, before: Bytes)
    requires s != [] && s[0] != DASH
    ensures before + Split(s)[0] == (before + [s[0]]) + Split(s[1..])[0]
    ensures LaterOk(Split(s)) <==> LaterOk(Split(s[1..]))
  {
    var parts, rest := Split(s), Split(s[1..]);
    assert parts[0] == [s[0]] + rest[0] && parts[1..] == rest[1..];
    hide PartOk; hide Split; hide LaterOk;
    LaterTail(parts);
    LaterTail(rest);
    Regroup(before, s[0], rest[0]);
  }

  lemma BadByte(before: Bytes, b: Byte, after: Bytes, first: bool)
    requires |before| >= 8 || !PartByte(b, first)
    ensures !PartOk((before + [b]) + after, first)
  {
    var part := (before + [b]) + after;
    assert part[|before|] == b;
  }

  lemma {:induction false} ScanIsSplit(s: Bytes, first: bool, before: Bytes)
    requires |before| <= 8 && forall i :: 0 <= i < |before| ==> PartByte(before[i], first)
    ensures ScanTag(s, first, |before|) <==> PartOk(before + Split(s)[0], first) && LaterOk(Split(s))
    decreases |s|
  {
    if s == [] {
      assert before + [] == before;
    } else {
      hide Split; hide LaterOk; hide PartByte;
      if s[0] == DASH {
        SplitAtDash(s, before);
        ScanIsSplit(s[1..], false, []);
      } else {
        SplitAtByte(s, before);
        if |before| < 8 && PartByte(s[0], first) {
          ScanIsSplit(s[1..], first, before + [s[0]]);
        } else {
          BadByte(before, s[0], Split(s[1..])[0], first);
        }
      }
    }
  }

  /** Splitting on dashes and checking each part accepts what a single scan accepts. */
  lemma TagOnePass(s: Bytes)
    ensures IsValidBCP47(s) <==> |s| <= 17 && ScanTag(s, true, 0)
  {
    ScanIsSplit(s, true, []);
    assert [] + Split(s)[0] == Split(s)[0];
  }

  lemma ScanOn(b: Byte, rest: Bytes, first: bool, n: nat)
    ensures ScanTag([b] + rest, first, n) <==>
            if b == 45 then n >= 1 && ScanTag(rest, false, 0)
            else n < 8 && (97 <= b <= 122 || 65 <= b <= 90 || (!first && 48 <= b <= 57)) && ScanTag(rest, first, n + 1)
  {
    assert ([b] + rest)[1..] == rest;
  }

  /** A first part takes letters, a later one digits too: `en-US` and `en-1` are accepted, `1n` and `en-` are not. */
  lemma TagBytes(b: Byte)
    ensures IsValidBCP47([b]) <==> 97 <= b <= 122 || 65 <= b <= 90
    ensures IsValidBCP47([101, 45, b]) <==> 97 <= b <= 122 || 65 <= b <= 90 || 48 <= b <= 57
    ensures !IsValidBCP47([b, 45]) && !IsValidBCP47([])
  {
    hide IsValidBCP47; hide ScanTag;
    TagOnePass([b]);
    TagOnePass([101, 45, b]);
    TagOnePass([b, 45]);
    TagOnePass([]);
    ScanNothing();
    assert [b] + [] == [b] && [101] + [45, b] == [101, 45, b] && [45] + [b] == [45, b] && [b] + [45] == [b, 45] && [45] + [] == [45];
    ScanOn(b, [], true, 0);
    ScanOn(101, [45, b], true, 0);
    ScanOn(45, [b], true, 1);
    ScanOn(b, [], false, 0);
    ScanOn(b, [45], true, 0);
    ScanOn(45, [], true, 1);
  }

  /** `en-US` is accepted. */
  lemma EnglishUs()
    ensures IsValidBCP47([101, 110, 45, 85, 83])
  {
    hide IsValidBCP47; hide ScanTag;
    ScanNothing();
    TagOnePass([101, 110, 45, 85, 83]);
    assert [101] + [110, 45, 85, 83] == [101, 110, 45, 85, 83] && [110] + [45, 85, 83] == [110, 45, 85, 83];
    assert [45] + [85, 83] == [45, 85, 83] && [85] + [83] == [85, 83] && [83] + [] == [83];
    ScanOn(101, [110, 45, 85, 83], true, 0);
    ScanOn(110, [45, 85, 83], true, 1);
    ScanOn(45, [85, 83], true, 2);
    ScanOn(85, [83], false, 0);
    ScanOn(83, [], false, 1);
  }

  lemma ScanNothing()
    ensures forall first, n: nat :: ScanTag([], first, n) <==> n >= 1
  {
  }

  /** Eight letters make a part, nine do not; seventeen bytes make a tag, eighteen do not. */
  lemma TagLengths(n: nat)
    requires 1 <= n
    ensures IsValidBCP47(seq(n, i => 97)) <==> n <= 8
    ensures forall s: Bytes :: |s| > 17 ==> !IsValidBCP47(s)
  {
    hide ScanTag;
    Letters(n, 0);
    TagOnePass(seq(n, i => 97));
  }

  lemma {:induction false} Letters(n: nat, done: nat)
    requires done <= 8 && 1 <= n + done
    ensures ScanTag(seq(n, i => 97), true, done) <==> n + done <= 8
    decreases n
  {
    var s: Bytes := seq(n, i => 97);
    if n > 0 {
      var rest: Bytes := seq(n - 1, i => 97);
      assert s == [97] + rest;
      if done < 8 { Letters(n - 1, done + 1); }
      ScanOn(97, rest, true, done);
    }
  }

  const ENGLISH: Bytes := [101, 110]

  lemma EnglishIsValid()
    ensures IsValidBCP47(ENGLISH)
  {
    TagOnePass(ENGLISH);
    assert ENGLISH[1..] == [110] && ENGLISH[1..][1..] == [];
  }
}
