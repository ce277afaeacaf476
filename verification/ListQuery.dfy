/** The queries of x/co: one corporation, and the newest ones. */
module ListQuery {
  import opened Basics
  import opened Varint
  import opened Codec
  import opened Messages
  import opened Languages
  import opened Order
  import opened Registry
  import opened Genesis
  import Sorting

  datatype QueryErr = InvalidArgument | NotFound | Internal

  datatype Answer<+T> = Found(value: T) | Refused(err: QueryErr)

  /** A corporation with the governance framework versions x/gf lists for it. */
  datatype CorporationWithGF = CorporationWithGF(
    id: uint64, policyAddress: Bytes, did: Bytes, created: int, modified: int, language: Bytes,
    activeVersion: uint32, versions: Bytes)

  /** The call to x/gf; its listing may fail. */
  datatype VersionsRequest = VersionsRequest(id: uint64, activeVersion: uint32, activeOnly: bool, language: Bytes)

  function WithGF(co: Corporation, versions: Bytes): CorporationWithGF {
    CorporationWithGF(co.id, co.policyAddress, co.did, co.created, co.modified, co.language, co.activeVersion, versions)
  }

  function RequestFor(co: Corporation, activeOnly: bool, language: Bytes): VersionsRequest {
    VersionsRequest(co.id, co.activeVersion, activeOnly, language)
  }

  function GetCorporation(st: State, req: Option<QueryGetCorporationRequest>, list: VersionsRequest -> Option<Bytes>): Answer<CorporationWithGF> {
    if req.None? then Refused(InvalidArgument)
    else if req.value.corporationId == 0 then Refused(InvalidArgument)
    else if req.value.corporationId !in st.table then Refused(NotFound)
    else
      var co := st.table[req.value.corporationId];
      match list(RequestFor(co, req.value.activeGfOnly, req.value.preferredLanguage))
      case None => Refused(Internal)
      case Some(versions) => Found(WithGF(co, versions))
  }

  /** The single query: what it answers and which refusal it gives. */
  lemma GetMeans(st: State, id: uint64, activeOnly: bool, language: Bytes, list: VersionsRequest -> Option<Bytes>)
    requires Inv(st)
    ensures GetCorporation(st, None, list) == Refused(InvalidArgument)
    ensures var r := GetCorporation(st, Some(QueryGetCorporationRequest(id, activeOnly, language)), list);
            if id == 0 then r == Refused(InvalidArgument)
            else if forall i :: i in st.table ==> st.table[i].id != id then r == Refused(NotFound)
            else
              && id in st.table
              && var co := st.table[id];
              var v := list(VersionsRequest(id, co.activeVersion, activeOnly, language));
              r == if v.None? then Refused(Internal)
                   else Found(CorporationWithGF(id, co.policyAddress, co.did, co.created, co.modified, co.language, co.activeVersion, v.value))
  {
    hide DidsExact; hide PoliciesExact; hide CounterIsMax;
    if id in st.table { assert st.table[id].id == id; }
  }

  // ---------- what the list promises ----------

  predicate IsMatch(co: Corporation, after: Option<int>) {
    after.None? || co.modified > after.value
  }

  function Matching(rows: seq<Corporation>, after: Option<int>): seq<Corporation>
    decreases |rows|
  {
    if rows == [] then []
    else
      var last := rows[|rows| - 1];
      Matching(rows[..|rows| - 1], after) + (if IsMatch(last, after) then [last] else [])
  }

  /** Newest first: the sort key grows as `modified` falls. */
  function Age(co: Corporation): int { -co.modified }

  /** How many rows remain after the comparison of `uint32(len)` with the limit. */
  function Kept(n: nat, limit: nat): nat {
    if n % U32 > limit then limit else n
  }

  /** `rows` are a prefix of some newest-first arrangement of `matches`. */
  ghost predicate Newest(rows: seq<Corporation>, matches: seq<Corporation>) {
    exists rest :: Arrangement(rows, rest, matches)
  }

  ghost predicate Arrangement(rows: seq<Corporation>, rest: seq<Corporation>, matches: seq<Corporation>) {
    multiset(rows + rest) == multiset(matches) && Sorting.Ordered(rows + rest, Age)
  }

  /** What a list request asks of the rows it answers with. */
  ghost predicate TopRows(st: State, after: Option<int>, limit: nat, rows: seq<Corporation>) {
    var matches := Matching(Export(st), after);
    Newest(rows, matches) && |rows| == Kept(|matches|, limit)
  }

  predicate Answers(out: seq<CorporationWithGF>, rows: seq<Corporation>, activeOnly: bool, language: Bytes, list: VersionsRequest -> Option<Bytes>) {
    |out| == |rows| && forall i :: 0 <= i < |rows| ==>
      var co := rows[i];
      var v := list(VersionsRequest(co.id, co.activeVersion, activeOnly, language));
      v.Some? && out[i] == CorporationWithGF(co.id, co.policyAddress, co.did, co.created, co.modified, co.language, co.activeVersion, v.value)
  }

  /** ListCorporations: filter the walk, sort in place, truncate, then ask x/gf row by row. */
  method ListCorporations(st: State, req: Option<QueryListCorporationsRequest>, list: VersionsRequest -> Option<Bytes>)
    returns (r: Answer<seq<CorporationWithGF>>, ghost rows: seq<Corporation>)
    ensures req.None? || req.value.responseMaxSize > 1024 ==> r == Refused(InvalidArgument)
    ensures req.Some? && req.value.responseMaxSize <= 1024 ==>
      && TopRows(st, req.value.modifiedAfter, if req.value.responseMaxSize == 0 then 64 else req.value.responseMaxSize, rows)
      && if forall i :: 0 <= i < |rows| ==>
           list(VersionsRequest(rows[i].id, rows[i].activeVersion, req.value.activeGfOnly, req.value.preferredLanguage)).Some? then
           r.Found? && Answers(r.value, rows, req.value.activeGfOnly, req.value.preferredLanguage, list)
         else
           r == Refused(Internal)
  {
    hide Export; hide Newest; hide Answers; hide Matching;
    rows := [];
    if req.None? { return Refused(InvalidArgument), rows; }
    var q := req.value;
    if q.responseMaxSize == 0 { q := q.(responseMaxSize := 64); }
    if q.responseMaxSize > 1024 { return Refused(InvalidArgument), rows; }
    var walked := Walk(st, q.modifiedAfter);
    var corps := SortAndTruncate(walked, q.responseMaxSize);
    rows := corps;
    r := Enrich(corps, q.activeGfOnly, q.preferredLanguage, list);
  }

  method Walk(st: State, after: Option<int>) returns (corps: seq<Corporation>)
    ensures corps == Matching(Export(st), after)
  {
    var all := Export(st);
    hide Export;
    corps := [];
    for k := 0 to |all|
      invariant corps == Matching(all[..k], after)
    {
      assert all[..k + 1][..k] == all[..k];
      if IsMatch(all[k], after) { corps := corps + [all[k]]; }
    }
    assert all[..|all|] == all;
  }

  method SortAndTruncate(walked: seq<Corporation>, limit: nat) returns (rows: seq<Corporation>)
    ensures Newest(rows, walked) && |rows| == Kept(|walked|, limit)
  {
    hide Sorting.Ordered;
    var corps := new Corporation[|walked|](i requires 0 <= i < |walked| => walked[i]);
    assert corps[..] == walked;
    Sorting.Slice(corps, Age);
    var n := corps.Length;
    if n % U32 > limit { n := limit; }
    rows := corps[..n];
    assert corps[..n] + corps[n..] == corps[..];
    assert Arrangement(rows, corps[n..], walked);
  }

  method Enrich(rows: seq<Corporation>, activeOnly: bool, language: Bytes, list: VersionsRequest -> Option<Bytes>)
    returns (r: Answer<seq<CorporationWithGF>>)
    ensures if forall i :: 0 <= i < |rows| ==> list(RequestFor(rows[i], activeOnly, language)).Some? then
              r.Found? && Answers(r.value, rows, activeOnly, language, list)
            else
              r == Refused(Internal)
  {
    var out: seq<CorporationWithGF> := [];
    for k := 0 to |rows|
      invariant Answers(out, rows[..k], activeOnly, language, list)
      invariant forall i :: 0 <= i < k ==> list(RequestFor(rows[i], activeOnly, language)).Some?
    {
      var co := rows[k];
      var versions := list(RequestFor(co, activeOnly, language));
      if versions.None? { return Refused(Internal); }
      out := out + [WithGF(co, versions.value)];
    }
    assert rows[..|rows|] == rows;
    return Found(out);
  }

  lemma MatchingSnoc(rows: seq<Corporation>, after: Option<int>)
    requires rows != []
    ensures var init, last := rows[..|rows| - 1], rows[|rows| - 1];
            && rows == init + [last]
            && Matching(rows, after) == Matching(init, after) + if after.None? || last.modified > after.value then [last] else []
  {
  }

  lemma {:induction false} MatchingIsFilter(rows: seq<Corporation>, after: Option<int>)
    ensures forall c :: c in Matching(rows, after) <==> c in rows && (after.None? || c.modified > after.value)
    ensures |Matching(rows, after)| <= |rows|
    ensures NoDup(rows) ==> NoDup(Matching(rows, after))
    decreases |rows|
  {
    if rows != [] {
      hide Matching; hide NoDup;
      var init, last := rows[..|rows| - 1], rows[|rows| - 1];
      MatchingSnoc(rows, after);
      MatchingIsFilter(init, after);
      NoDupSnoc(init, last);
      NoDupSnoc(Matching(init, after), last);
      assert Matching(init, after) + [] == Matching(init, after);
    }
  }

  /** The `uint32` comparison truncates as intended exactly when the count does not wrap below the limit. */
  lemma KeptIsMin(n: nat, limit: nat)
    requires limit <= 1024
    ensures Kept(n, limit) == (if n <= limit then n else limit) <==> n <= limit || n % U32 > limit
    ensures n < U32 ==> Kept(n, limit) == (if n <= limit then n else limit)
  {
    if n < U32 { assert n % U32 == n; }
  }

  /**
   * The answer is longer than the limit exactly when the match count passes the
   * limit but its low 32 bits do not; then every match is in it.
   */
  lemma LimitEscapes(st: State, after: Option<int>, limit: nat, rows: seq<Corporation>)
    requires limit <= 1024 && TopRows(st, after, limit, rows)
    ensures var matches := Matching(Export(st), after);
            && (|rows| > limit <==> |matches| > limit && |matches| % U32 <= limit)
            && (|rows| > limit ==> multiset(rows) == multiset(matches))
  {
    hide Matching; hide Export; hide Sorting.Ordered;
    var matches := Matching(Export(st), after);
    var rest :| Arrangement(rows, rest, matches);
    assert |rows| + |rest| == |rows + rest| == |multiset(rows + rest)| == |multiset(matches)| == |matches|;
    if |rows| > limit {
      assert rest == [] && rows + rest == rows;
    }
  }

  lemma OrderOfRows(rows: seq<Corporation>, rest: seq<Corporation>)
    requires NoDup(rows + rest) && Sorting.Ordered(rows + rest, Age)
    ensures forall i, j :: 0 <= i < j < |rows| ==> rows[i] != rows[j] && rows[i].modified >= rows[j].modified
    ensures forall c, o :: c in rows && o in rest ==> o.modified <= c.modified
  {
    var all := rows + rest;
    forall i, j | 0 <= i < j < |rows| ensures rows[i] != rows[j] && rows[i].modified >= rows[j].modified {
      assert all[i] != all[j] && Age(all[i]) <= Age(all[j]);
    }
    forall c, o | c in rows && o in rest ensures o.modified <= c.modified {
      var a :| 0 <= a < |rows| && rows[a] == c;
      var b :| 0 <= b < |rest| && rest[b] == o;
      assert Age(all[a]) <= Age(all[|rows| + b]);
    }
  }

  /** A row of the table, stored under its own id, that the bound lets through. */
  ghost predicate Listed(st: State, c: Corporation, after: Option<int>) {
    c.id in st.table && st.table[c.id] == c && (after.None? || c.modified > after.value)
  }

  /**
   * What the answer means on a sound state: different corporations, all
   * modified after the bound, newest first, and every match left out is no
   * newer than every row returned. Ties may fall either way.
   */
  lemma NewestMeans(st: State, after: Option<int>, rows: seq<Corporation>)
    requires Inv(st) && Newest(rows, Matching(Export(st), after))
    ensures forall c :: c in rows ==> c.id in st.table && st.table[c.id] == c && (after.None? || c.modified > after.value)
    ensures forall i, j :: 0 <= i < j < |rows| ==> rows[i].id != rows[j].id && rows[i].modified >= rows[j].modified
    ensures forall c, i :: c in rows && i in st.table && (after.None? || st.table[i].modified > after.value) && st.table[i] !in rows ==>
            st.table[i].modified <= c.modified
    ensures |Matching(Export(st), after)| == |set i | i in st.table && (after.None? || st.table[i].modified > after.value)|
  {
    var matches := Matching(Export(st), after);
    var rest :| Arrangement(rows, rest, matches);
    MatchesAreListed(st, after);
    MatchCount(st, after);
    NewestElements(rows, rest, matches);
    OrderOfRows(rows, rest);
    hide Inv; hide Matching; hide Export; hide NoDup;
    forall i, j | 0 <= i < j < |rows| ensures rows[i].id != rows[j].id {
      assert rows[i] in rows && rows[j] in rows;
    }
  }

  /** Each entry of a list answer is what the single query answers for that corporation. */
  lemma ListAgreesWithGet(st: State, after: Option<int>, activeOnly: bool, language: Bytes, list: VersionsRequest -> Option<Bytes>,
                          rows: seq<Corporation>, out: seq<CorporationWithGF>, i: nat)
    requires Inv(st) && Newest(rows, Matching(Export(st), after)) && Answers(out, rows, activeOnly, language, list)
    requires i < |out|
    ensures GetCorporation(st, Some(QueryGetCorporationRequest(out[i].id, activeOnly, language)), list) == Found(out[i])
  {
    NewestMeans(st, after, rows);
    hide Newest; hide Matching; hide Export; hide DidsExact; hide PoliciesExact; hide CounterIsMax;
    assert rows[i] in rows;
  }

  lemma MatchesAreListed(st: State, after: Option<int>)
    requires Inv(st)
    ensures NoDup(Matching(Export(st), after))
    ensures forall c :: c in Matching(Export(st), after) <==> Listed(st, c, after)
  {
    hide Inv; hide Export; hide Matching; hide NoDup; hide Increasing; hide Holds;
    ExportHolds(st);
    RowsNoDup(Export(st));
    MatchingIsFilter(Export(st), after);
    ExportElements(st);
  }

  lemma ExportElements(st: State)
    requires Inv(st)
    ensures forall c: Corporation :: c in Export(st) <==> c.id in st.table && st.table[c.id] == c
  {
    hide DidsExact; hide PoliciesExact; hide CounterIsMax;
    ExportRows(st);
    var cs, ks := Export(st), Ascending(st.table.Keys);
    forall c: Corporation | c.id in st.table && st.table[c.id] == c ensures c in cs {
      var k :| 0 <= k < |ks| && ks[k] == c.id;
      assert cs[k] == c;
    }
  }

  lemma RowsNoDup(cs: seq<Corporation>)
    requires Increasing(Ids(cs))
    ensures NoDup(cs)
  {
    forall i, j | 0 <= i < j < |cs| ensures cs[i] != cs[j] { assert Ids(cs)[i] < Ids(cs)[j]; }
  }

  lemma NewestElements(rows: seq<Corporation>, rest: seq<Corporation>, matches: seq<Corporation>)
    requires Arrangement(rows, rest, matches) && NoDup(matches)
    ensures NoDup(rows + rest)
    ensures forall c :: c in matches <==> c in rows || c in rest
  {
    var all := rows + rest;
    assert forall c :: c in all <==> c in multiset(all);
    assert forall c :: c in matches <==> c in multiset(matches);
    assert |all| == |multiset(all)| == |multiset(matches)| == |matches|;
    NoDupCount(all);
    NoDupCount(matches);
    assert Elements(all) == Elements(matches);
  }

  lemma ListedIdsDistinct(st: State, after: Option<int>, matches: seq<Corporation>)
    requires NoDup(matches) && forall c :: c in matches ==> Listed(st, c, after)
    ensures NoDup(Ids(matches))
  {
    forall i, j | 0 <= i < j < |matches| ensures Ids(matches)[i] != Ids(matches)[j] {
      assert matches[i] != matches[j] && matches[i] in matches && matches[j] in matches;
    }
  }

  lemma ListedIds(st: State, after: Option<int>, matches: seq<Corporation>)
    requires RowsUnderTheirIds(st) && forall c :: c in matches <==> Listed(st, c, after)
    ensures Elements(Ids(matches)) == set i | i in st.table && (after.None? || st.table[i].modified > after.value)
  {
    var keys := set i | i in st.table && (after.None? || st.table[i].modified > after.value);
    forall i | i in keys ensures i in Ids(matches) {
      assert Listed(st, st.table[i], after);
      var k :| 0 <= k < |matches| && matches[k] == st.table[i];
      assert Ids(matches)[k] == i;
    }
    forall i | i in Ids(matches) ensures i in keys {
      var k :| 0 <= k < |matches| && Ids(matches)[k] == i;
      assert matches[k] in matches;
    }
  }

  lemma MatchCount(st: State, after: Option<int>)
    requires Inv(st)
    ensures |Matching(Export(st), after)| == |set i | i in st.table && (after.None? || st.table[i].modified > after.value)|
  {
    var matches := Matching(Export(st), after);
    MatchesAreListed(st, after);
    hide Export; hide Matching; hide Listed; hide NoDup; hide Elements;
    ListedIdsDistinct(st, after, matches);
    ListedIds(st, after, matches);
    NoDupCount(Ids(matches));
  }

  // ---------- a chain whose list escapes the limit ----------

  /** `n` in binary, in the letters a and b. */
  function Spell(n: nat, width: nat): (s: Bytes)
    ensures |s| == width && IdChar.All(s)
  {
    if width == 0 then [] else Spell(n / 2, width - 1) + [97 + n % 2]
  }

  lemma {:induction false} SpellApart(a: nat, b: nat, width: nat)
    requires a < Pow2(width) && b < Pow2(width) && a != b
    ensures Spell(a, width) != Spell(b, width)
    decreases width
  {
    var s, t := Spell(a, width), Spell(b, width);
    if a % 2 == b % 2 {
      SpellApart(a / 2, b / 2, width - 1);
      assert s[..width - 1] == Spell(a / 2, width - 1) && t[..width - 1] == Spell(b / 2, width - 1);
    } else {
      assert s[width - 1] != t[width - 1];
    }
  }

  function WideRow(i: nat): Corporation
    requires i < U32
  {
    Corporation(i + 1, Spell(i, 32), PlainDid(Spell(i, 32)), 1, 1, ENGLISH, 1)
  }

  /** A genesis of 2^32 corporations with names of 32 letters. */
  function WideGenesis(): (cs: seq<Corporation>)
    ensures |cs| == U32 && forall i :: 0 <= i < U32 ==> cs[i] == WideRow(i)
  {
    seq(U32, i requires 0 <= i < U32 => WideRow(i))
  }

  lemma WideRowIsOk(i: nat)
    requires i < U32
    ensures RowOk(WideRow(i))
  {
    hide IsValidDID; hide IsValidBCP47; hide Spell;
    EnglishIsValid();
    PlainDidIsValid(Spell(i, 32));
  }

  lemma WideRowsApart(i: nat, j: nat)
    requires i < j < U32
    ensures WideRow(i).id != WideRow(j).id && WideRow(i).policyAddress != WideRow(j).policyAddress && WideRow(i).did != WideRow(j).did
  {
    Pow2Values();
    SpellApart(i, j, 32);
    hide Spell; hide Pow2; hide PlainDid;
    PlainDidShowsId(Spell(i, 32));
    PlainDidShowsId(Spell(j, 32));
  }

  lemma WideIsValid()
    ensures ValidGenesis(WideGenesis())
  {
    hide RowOk; hide WideRow; hide WideGenesis;
    var cs := WideGenesis();
    forall i | 0 <= i < U32 ensures RowOk(cs[i]) { WideRowIsOk(i); }
    forall i, j | 0 <= i < j < U32
      ensures Ids(cs)[i] != Ids(cs)[j] && Addrs(cs)[i] != Addrs(cs)[j] && Dids(cs)[i] != Dids(cs)[j]
    {
      WideRowsApart(i, j);
    }
  }

  // ---------- and it fits in a slice ----------

  lemma NumFieldSize(key: Byte, n: nat)
    requires n < U64
    ensures |NumField(key, n)| <= 11
  {
    hide Sov;
    SovIsLength(n);
  }

  lemma FieldSize(key: Byte, s: Bytes)
    requires |s| < U64
    ensures |Field(key, s)| <= 11 + |s| && |[key] + (EncodeVarint(|s|) + s)| <= 11 + |s|
  {
    hide Sov;
    SovIsLength(|s|);
  }

  /** Time encodings of at most 64 bytes. */
  predicate ShortTime(x: External, t: int) {
    x.encTime(t).Some? && |x.encTime(t).value| <= 64
  }

  lemma WideRowSize(x: External, i: nat)
    requires i < U32 && ShortTime(x, 1)
    ensures |CorporationBytes(x, WideRow(i))| <= 300
  {
    hide EncodeVarint; hide CorporationBytes; hide Spell;
    var c := WideRow(i);
    CorporationLayout(x, c);
    NumFieldSize(0x08, c.id);
    FieldSize(0x12, c.policyAddress);
    FieldSize(0x1a, c.did);
    FieldSize(0x22, x.encTime(1).value);
    FieldSize(0x2a, x.encTime(1).value);
    FieldSize(0x32, c.language);
    NumFieldSize(0x38, c.activeVersion);
    hide Field; hide NumField;
  }

  lemma {:induction false} RepeatedSize(key: Byte, bodies: seq<Bytes>)
    requires forall i :: 0 <= i < |bodies| ==> |bodies[i]| <= 300
    ensures |Repeated(key, bodies)| <= 311 * |bodies|
    decreases |bodies|
  {
    hide EncodeVarint;
    if bodies != [] {
      FieldSize(key, bodies[0]);
      RepeatedSize(key, bodies[1..]);
    }
  }

  /** With time encodings of a usual length, those bytes are far below the longest slice, and unmarshal to that genesis. */
  lemma WideFits(x: External)
    requires LawfulTime(x) && ShortTime(x, 1)
    ensures |GenesisBytes(x, GenesisState(Params, WideGenesis()))| < I64
    ensures ParseGenesis(x, GenesisBytes(x, GenesisState(Params, WideGenesis()))) == Some(GenesisState(Params, WideGenesis()))
  {
    hide GenesisBytes; hide ParseGenesis; hide WideGenesis; hide CorporationsWire; hide Repeated; hide CorporationBytes; hide LawfulTime;
    var g := GenesisState(Params, WideGenesis());
    var bodies := CorporationsWire(x, g.corporations);
    forall i | 0 <= i < U32
      ensures |bodies[i]| <= 300 && x.encTime(g.corporations[i].created).Some? && x.encTime(g.corporations[i].modified).Some?
    {
      WideRowSize(x, i);
    }
    GenesisLayout(x, g);
    RepeatedSize(0x12, bodies);
    GenesisRoundTrip(x, g);
  }

  /** Imported from that genesis, a registry answers every limit with all its 2^32 corporations. */
  lemma LimitEscapesHappens(limit: nat, rows: seq<Corporation>)
    requires limit <= 1024 && TopRows(Init(EMPTY, WideGenesis()), None, limit, rows)
    ensures ValidGenesis(WideGenesis()) && |rows| == U32
  {
    hide ValidGenesis; hide Init; hide Matching; hide Export; hide Newest; hide WideGenesis;
    var cs := WideGenesis();
    WideIsValid();
    ValidateIsExact(cs);
    var st := Init(EMPTY, cs);
    MatchingAll(Export(st));
    ExportRows(st);
  }

  lemma {:induction false} MatchingAll(rows: seq<Corporation>)
    ensures Matching(rows, None) == rows
    decreases |rows|
  {
    hide Matching;
    NoMatches();
    if rows != [] {
      var init, last := rows[..|rows| - 1], rows[|rows| - 1];
      MatchingAll(init);
      MatchingSnoc(rows, None);
    }
  }

  lemma NoMatches()
    ensures Matching([], None) == []
  {
  }

}
