/** Genesis of the credential schema module x/cs: sort, import, export and rebuild the id counter. */
module SchemaGenesis {
  import opened Basics
  import opened Order
  import Sorting

  /** Everything but the id is carried along unread. */
  datatype CredentialSchema = CredentialSchema(id: uint64, content: Bytes)

  datatype SchemaGenesisState = SchemaGenesisState(params: Bytes, schemas: seq<CredentialSchema>, schemaCounter: uint64)

  datatype SchemaState = SchemaState(params: Bytes, schemas: map<uint64, CredentialSchema>, counter: map<string, uint64>)

  const NOTHING := SchemaState([], map[], map[])

  function Id(c: CredentialSchema): int { c.id }

  function Ids(cs: seq<CredentialSchema>): (r: seq<uint64>)
    ensures |r| == |cs| && forall i :: 0 <= i < |cs| ==> r[i] == cs[i].id
  {
    seq(|cs|, i requires 0 <= i < |cs| => cs[i].id)
  }

  function Store(m: map<uint64, CredentialSchema>, cs: seq<CredentialSchema>): map<uint64, CredentialSchema>
    decreases |cs|
  {
    if cs == [] then m else Store(m, cs[..|cs| - 1])[cs[|cs| - 1].id := cs[|cs| - 1]]
  }

  function MaxId(cs: seq<CredentialSchema>): uint64 {
    Max(Ids(cs))
  }

  /** Import of rows already in sorted order. */
  function Import(st: SchemaState, params: Bytes, cs: seq<CredentialSchema>): SchemaState {
    SchemaState(params, Store(st.schemas, cs), st.counter["cs" := MaxId(cs)])
  }

  function Rows(m: map<uint64, CredentialSchema>): seq<CredentialSchema> {
    var ks := Ascending(m.Keys);
    seq(|ks|, i requires 0 <= i < |ks| => m[ks[i]])
  }

  function CounterOf(st: SchemaState, rows: seq<CredentialSchema>): uint64 {
    if "cs" in st.counter then st.counter["cs"] else MaxId(rows)
  }

  function NextID(counter: map<string, uint64>): uint64 {
    ((if "cs" in counter then counter["cs"] else 0) + 1) % U64
  }

  ghost predicate Exported(st: SchemaState, g: SchemaGenesisState) {
    && Sorting.Ordered(g.schemas, Id)
    && multiset(g.schemas) == multiset(Rows(st.schemas))
    && g.params == st.params
    && g.schemaCounter == CounterOf(st, g.schemas)
  }

  // ---------- the messages that write schemas ----------

  /**
   * A message with what its checks decide: the content a new schema gets under
   * the id handed out, or the content an update or archival leaves; None refuses.
   */
  datatype SchemaOp =
    | CreateSchema(content: uint64 -> Option<Bytes>)
    | RewriteSchema(id: uint64, rewrite: CredentialSchema -> Option<Bytes>)

  function Attempt(st: SchemaState, op: SchemaOp): Option<SchemaState> {
    match op
    case CreateSchema(content) =>
      (var id := NextID(st.counter);
       match content(id)
       case None => None
       case Some(c) => Some(st.(schemas := st.schemas[id := CredentialSchema(id, c)], counter := st.counter["cs" := id])))
    case RewriteSchema(id, rewrite) =>
      if id !in st.schemas then None
      else match rewrite(st.schemas[id])
        case None => None
        case Some(c) => Some(st.(schemas := st.schemas[st.schemas[id].id := st.schemas[id].(content := c)]))
  }

  /** A failed message leaves the state as it was. */
  function Deliver(st: SchemaState, op: SchemaOp): SchemaState {
    match Attempt(st, op) case None => st case Some(st') => st'
  }

  class SchemaKeeper {
    var params: Bytes
    var schemas: map<uint64, CredentialSchema>
    var counter: map<string, uint64>

    function Abs(): SchemaState
      reads this
    {
      SchemaState(params, schemas, counter)
    }

    constructor ()
      ensures Abs() == NOTHING
    {
      params, schemas, counter := [], map[], map[];
    }

    /** The caller's slice is sorted in place; the genesis counter field is not read. */
    method InitGenesis(genesisParams: Bytes, list: array<CredentialSchema>)
      modifies this, list
      ensures Sorting.Ordered(list[..], Id) && multiset(list[..]) == multiset(old(list[..]))
      ensures Abs() == Import(old(Abs()), genesisParams, list[..])
    {
      params := genesisParams;
      var maxID: uint64 := 0;
      Sorting.Slice(list, Id);
      ghost var cs := list[..];
      for k := 0 to list.Length
        invariant list[..] == cs && params == genesisParams && counter == old(counter)
        invariant schemas == Store(old(schemas), cs[..k]) && maxID == MaxId(cs[..k])
      {
        var c := list[k];
        assert cs[..k + 1][..k] == cs[..k];
        assert Ids(cs[..k + 1]) == Ids(cs[..k]) + [c.id];
        MaxSnoc(Ids(cs[..k]), c.id);
        schemas := schemas[c.id := c];
        if c.id > maxID { maxID := c.id; }
      }
      assert cs[..|cs|] == cs;
      counter := counter["cs" := maxID];
    }

    method ExportGenesis() returns (g: SchemaGenesisState)
      ensures Exported(Abs(), g)
    {
      hide Sorting.Ordered; hide Increasing;
      ghost var all := Rows(schemas);
      var keys := Ascending(schemas.Keys);
      var walked: seq<CredentialSchema> := [];
      for k := 0 to |keys|
        invariant walked == all[..k]
      {
        assert all[..k] + [all[k]] == all[..k + 1];
        walked := walked + [schemas[keys[k]]];
      }
      assert all[..|keys|] == all;
      var list := new CredentialSchema[|walked|](i requires 0 <= i < |walked| => walked[i]);
      assert list[..] == walked;
      Sorting.Slice(list, Id);
      var value: uint64 := 0;
      if "cs" in counter {
        value := counter["cs"];
      } else {
        value := Highest(list[..]);
      }
      return SchemaGenesisState(params, list[..], value);
    }

    static method Highest(cs: seq<CredentialSchema>) returns (highestID: uint64)
      ensures highestID == MaxId(cs)
    {
      highestID := 0;
      for k := 0 to |cs|
        invariant highestID == MaxId(cs[..k])
      {
        assert Ids(cs[..k + 1]) == Ids(cs[..k]) + [cs[k].id];
        MaxSnoc(Ids(cs[..k]), cs[k].id);
        if cs[k].id > highestID { highestID := cs[k].id; }
      }
      assert cs[..|cs|] == cs;
    }

    method GetNextID() returns (next: uint64)
      modifies this`counter
      ensures next == NextID(old(counter)) && counter == old(counter)["cs" := next]
    {
      var current: uint64 := 0;
      if "cs" in counter { current := counter["cs"]; }
      next := (current + 1) % U64;
      counter := counter["cs" := next];
    }

    /** The id is taken before the checks; on failure `DeliverMessage` gives it back. */
    method CreateCredentialSchema(content: uint64 -> Option<Bytes>) returns (r: Option<uint64>)
      modifies this
      ensures match Attempt(old(Abs()), CreateSchema(content))
              case None => r == None
              case Some(st) => Abs() == st && r == Some(NextID(old(counter)))
    {
      var id := GetNextID();
      var c := content(id);
      if c.None? { return None; }
      schemas := schemas[id := CredentialSchema(id, c.value)];
      return Some(id);
    }

    method RewriteCredentialSchema(id: uint64, rewrite: CredentialSchema -> Option<Bytes>) returns (ok: bool)
      modifies this`schemas
      ensures match Attempt(old(Abs()), RewriteSchema(id, rewrite))
              case None => !ok && Abs() == old(Abs())
              case Some(st) => ok && Abs() == st
    {
      if id !in schemas { return false; }
      var cs := schemas[id];
      var c := rewrite(cs);
      if c.None? { return false; }
      cs := cs.(content := c.value);
      schemas := schemas[cs.id := cs];
      return true;
    }

    /** One message; any error rolls back every write it made. */
    method DeliverMessage(op: SchemaOp) returns (ok: bool)
      modifies this
      ensures Abs() == Deliver(old(Abs()), op)
      ensures ok <==> Attempt(old(Abs()), op).Some?
    {
      var schemas0, counter0, params0 := schemas, counter, params;
      match op {
        case CreateSchema(content) =>
          var r := CreateCredentialSchema(content);
          ok := r.Some?;
        case RewriteSchema(id, rewrite) =>
          ok := RewriteCredentialSchema(id, rewrite);
      }
      if !ok {
        schemas, counter, params := schemas0, counter0, params0;
      }
    }
  }

  // ---------- the cycle ----------

  lemma {:induction false} StoreIsMap(cs: seq<CredentialSchema>)
    requires NoDup(Ids(cs))
    ensures MapOf(Store(map[], cs), Ids(cs), cs)
    decreases |cs|
  {
    if cs != [] {
      hide NoDup;
      var init, last := cs[..|cs| - 1], cs[|cs| - 1];
      assert init + [last] == cs && Ids(init) + [last.id] == Ids(cs);
      NoDupSnoc(Ids(init), last.id);
      StoreIsMap(init);
      MapOfSnoc(Store(map[], init), Ids(init), init, last.id, last);
    }
  }

  lemma RowsAt(m: map<uint64, CredentialSchema>)
    ensures |Rows(m)| == |Ascending(m.Keys)|
    ensures forall i :: 0 <= i < |Rows(m)| ==> Ascending(m.Keys)[i] in m && Rows(m)[i] == m[Ascending(m.Keys)[i]]
  {
  }

  lemma RowsOfMap(m: map<uint64, CredentialSchema>, cs: seq<CredentialSchema>)
    requires MapOf(m, Ids(cs), cs)
    ensures Ids(Rows(m)) == Ascending(m.Keys)
    ensures forall c :: c in Rows(m) <==> c in cs
  {
    RowsAt(m);
    hide Rows; hide Ascending; hide Increasing;
    var ks, rows := Ascending(m.Keys), Rows(m);
    forall i | 0 <= i < |rows| ensures rows[i].id == ks[i] && rows[i] in cs {
      var k :| 0 <= k < |cs| && Ids(cs)[k] == ks[i];
    }
    forall c | c in cs ensures c in rows {
      var k :| 0 <= k < |cs| && cs[k] == c;
      assert m[Ids(cs)[k]] == c && c.id in ks;
    }
  }

  lemma NoDupMultiset<T>(s: seq<T>, t: seq<T>)
    requires NoDup(s) && NoDup(t) && forall x :: x in s <==> x in t
    ensures multiset(s) == multiset(t)
  {
    NoDupCounts(s);
    NoDupCounts(t);
    forall x ensures multiset(s)[x] == multiset(t)[x] {
      assert x in multiset(s) <==> x in s;
      assert x in multiset(t) <==> x in t;
    }
  }

  lemma {:induction false} NoDupCounts<T>(s: seq<T>)
    requires NoDup(s)
    ensures forall x :: x in s ==> multiset(s)[x] == 1
    decreases |s|
  {
    if s != [] {
      var init, last := s[..|s| - 1], s[|s| - 1];
      assert init + [last] == s;
      NoDupSnoc(init, last);
      NoDupCounts(init);
      assert multiset(s) == multiset(init) + multiset{last};
      assert last !in multiset(init);
    }
  }

  lemma NoDupRows(cs: seq<CredentialSchema>)
    requires NoDup(Ids(cs))
    ensures NoDup(cs)
  {
    forall i, j | 0 <= i < j < |cs| ensures cs[i] != cs[j] { assert Ids(cs)[i] != Ids(cs)[j]; }
  }

  /** `cs` sorted by id: what Init leaves in the caller's slice when ids are distinct. */
  ghost predicate SortedFrom(cs: seq<CredentialSchema>, sorted: seq<CredentialSchema>) {
    Sorting.Ordered(sorted, Id) && multiset(sorted) == multiset(cs)
  }

  lemma SameSchemas(cs: seq<CredentialSchema>, ds: seq<CredentialSchema>)
    requires multiset(cs) == multiset(ds)
    ensures |cs| == |ds| && forall c :: c in cs <==> c in ds
    ensures Elements(Ids(cs)) == Elements(Ids(ds))
  {
    assert |cs| == |multiset(cs)| == |multiset(ds)| == |ds|;
    assert forall c :: c in cs <==> c in multiset(cs);
    assert forall c :: c in ds <==> c in multiset(ds);
    SameIds(cs, ds);
    SameIds(ds, cs);
  }

  lemma OrderedIds(cs: seq<CredentialSchema>)
    requires Sorting.Ordered(cs, Id) && NoDup(Ids(cs))
    ensures Increasing(Ids(cs))
  {
    forall i, j | 0 <= i < j < |cs| ensures Ids(cs)[i] < Ids(cs)[j] {
      assert Id(cs[i]) <= Id(cs[j]) && Ids(cs)[i] != Ids(cs)[j];
    }
  }

  lemma SortedKeepsIds(cs: seq<CredentialSchema>, sorted: seq<CredentialSchema>)
    requires NoDup(Ids(cs)) && SortedFrom(cs, sorted)
    ensures NoDup(Ids(sorted)) && Increasing(Ids(sorted)) && forall c :: c in sorted <==> c in cs
    ensures MaxId(sorted) == MaxId(cs)
  {
    hide NoDup; hide Elements; hide Max; hide Increasing; hide Sorting.Ordered;
    SameSchemas(cs, sorted);
    NoDupCount(Ids(cs));
    NoDupCount(Ids(sorted));
    OrderedIds(sorted);
    SameMax(Ids(cs), Ids(sorted));
  }

  lemma SameIds(cs: seq<CredentialSchema>, ds: seq<CredentialSchema>)
    requires forall c :: c in cs ==> c in ds
    ensures Elements(Ids(cs)) <= Elements(Ids(ds))
  {
    forall k | 0 <= k < |cs| ensures cs[k].id in Ids(ds) {
      assert cs[k] in ds;
      var j :| 0 <= j < |ds| && ds[j] == cs[k];
      assert Ids(ds)[j] == cs[k].id;
    }
  }

  /**
   * Import into an empty store, then export: the schemas come back strictly
   * sorted by id, none lost or added, with the largest id as counter.
   */
  lemma CycleSorts(cs: seq<CredentialSchema>, sorted: seq<CredentialSchema>, params: Bytes, g: SchemaGenesisState)
    requires NoDup(Ids(cs)) && SortedFrom(cs, sorted) && Exported(Import(NOTHING, params, sorted), g)
    ensures g == SchemaGenesisState(params, sorted, MaxId(cs))
    ensures Increasing(Ids(g.schemas)) && multiset(g.schemas) == multiset(cs)
  {
    hide NoDup; hide Increasing;
    SortedKeepsIds(cs, sorted);
    StoreIsMap(sorted);
    var st := Import(NOTHING, params, sorted);
    RowsOfMap(st.schemas, sorted);
    hide Rows; hide MapOf; hide Store; hide Ids; hide Ascending;
    IncreasingNoDup(Ids(Rows(st.schemas)));
    NoDupRows(Rows(st.schemas));
    NoDupRows(sorted);
    NoDupMultiset(Rows(st.schemas), sorted);
    KeysApart(g.schemas, sorted);
    Sorting.OrderedUnique(g.schemas, sorted, Id);
  }

  lemma KeysApart(s: seq<CredentialSchema>, sorted: seq<CredentialSchema>)
    requires NoDup(Ids(sorted)) && multiset(s) == multiset(sorted)
    ensures Sorting.Apart(s, Id)
  {
    forall c, d | c in s && d in s && Id(c) == Id(d) ensures c == d {
      assert c in multiset(sorted) && d in multiset(sorted);
      var i :| 0 <= i < |sorted| && sorted[i] == c;
      var j :| 0 <= j < |sorted| && sorted[j] == d;
      assert Ids(sorted)[i] == Ids(sorted)[j];
      assert i == j;
    }
  }

  /** A second cycle changes nothing. */
  lemma CycleIsIdempotent(cs: seq<CredentialSchema>, sorted: seq<CredentialSchema>, params: Bytes, g: SchemaGenesisState,
                          sorted': seq<CredentialSchema>, g': SchemaGenesisState)
    requires NoDup(Ids(cs)) && SortedFrom(cs, sorted) && Exported(Import(NOTHING, params, sorted), g)
    requires SortedFrom(g.schemas, sorted') && Exported(Import(NOTHING, g.params, sorted'), g')
    ensures sorted' == sorted && g' == g
  {
    CycleSorts(cs, sorted, params, g);
    SortedKeepsIds(cs, sorted);
    KeysApart(sorted', sorted);
    Sorting.OrderedUnique(sorted', sorted, Id);
    CycleSorts(sorted, sorted', g.params, g');
    SortedKeepsIds(sorted, sorted');
  }

  lemma IdsOfRows(cs: seq<CredentialSchema>)
    ensures forall c :: c in cs ==> c.id in Ids(cs)
    ensures forall i :: i in Ids(cs) ==> exists c :: c in cs && c.id == i
  {
    forall c | c in cs ensures c.id in Ids(cs) {
      var k :| 0 <= k < |cs| && cs[k] == c;
      assert Ids(cs)[k] == c.id;
    }
    forall i | i in Ids(cs) ensures exists c :: c in cs && c.id == i {
      var k :| 0 <= k < |cs| && Ids(cs)[k] == i;
      assert cs[k] in cs;
    }
  }

  /** The id handed out next is above every imported one exactly when the largest is below 2^64 - 1. */
  lemma NextIsFresh(cs: seq<CredentialSchema>, params: Bytes)
    ensures (forall c :: c in cs ==> c.id < NextID(Import(NOTHING, params, cs).counter)) <==> cs == [] || MaxId(cs) < U64 - 1
  {
    hide Max; hide Store;
    IdsOfRows(cs);
    MaxIsMax(Ids(cs));
    var next := NextID(Import(NOTHING, params, cs).counter);
    if MaxId(cs) < U64 - 1 {
      assert next == MaxId(cs) + 1;
    } else if cs != [] {
      assert next == 0 && cs[0] in cs;
    }
  }

  /**
   * Import recomputes the counter, so a cycle restores it exactly when the
   * schema it last counted is still stored and none has a larger id.
   */
  lemma CounterSurvives(st: SchemaState, g: SchemaGenesisState)
    requires Exported(st, g) && "cs" in st.counter && forall i :: i in st.schemas ==> st.schemas[i].id == i
    ensures Import(NOTHING, g.params, g.schemas).counter["cs"] == g.schemaCounter <==>
            && (forall i :: i in st.schemas ==> i <= g.schemaCounter)
            && (g.schemaCounter == 0 || g.schemaCounter in st.schemas)
  {
    RowsAt(st.schemas);
    IdsOfRows(g.schemas);
    MaxIsMax(Ids(g.schemas));
    hide Rows; hide Ascending; hide Max; hide Increasing; hide Sorting.Ordered;
    ExportedIds(st, g);
    hide Ids;
  }

  lemma ExportedIds(st: SchemaState, g: SchemaGenesisState)
    requires multiset(g.schemas) == multiset(Rows(st.schemas)) && forall i :: i in st.schemas ==> st.schemas[i].id == i
    ensures forall i :: i in st.schemas <==> i in Ids(g.schemas)
  {
    var rows, ks := Rows(st.schemas), Ascending(st.schemas.Keys);
    RowsAt(st.schemas);
    SameSchemas(g.schemas, rows);
    IdsOfRows(g.schemas);
    hide Rows; hide Ascending; hide Increasing; hide Ids; hide Elements;
    forall i | i in st.schemas ensures i in Ids(g.schemas) {
      var k :| 0 <= k < |ks| && ks[k] == i;
      assert rows[k] in rows && rows[k].id == i;
    }
    forall i | i in Ids(g.schemas) ensures i in st.schemas {
      var c :| c in g.schemas && c.id == i;
      var k :| 0 <= k < |rows| && rows[k] == c;
      assert ks[k] in st.schemas && st.schemas[ks[k]] == c;
    }
  }
}
