/** The credential schemas of x/cs over runs of messages, and across a genesis cycle at any point of a run. */
module SchemaRuns {
  import opened Basics
  import opened Order
  import opened SchemaGenesis
  import Sorting

  function Run(st: SchemaState, ops: seq<SchemaOp>): SchemaState
    decreases |ops|
  {
    if ops == [] then st else Run(Deliver(st, ops[0]), ops[1..])
  }

  predicate Creates(st: SchemaState, op: SchemaOp) {
    op.CreateSchema? && Attempt(st, op).Some?
  }

  /** How many schemas a run creates. */
  function Made(st: SchemaState, ops: seq<SchemaOp>): nat
    decreases |ops|
  {
    if ops == [] then 0 else (if Creates(st, ops[0]) then 1 else 0) + Made(Deliver(st, ops[0]), ops[1..])
  }

  function Last(st: SchemaState): uint64 {
    if "cs" in st.counter then st.counter["cs"] else 0
  }

  // ---------- what every run keeps ----------

  /** Every schema lies under its own id, and the module has one counter. */
  ghost predicate Filed(st: SchemaState) {
    st.counter.Keys == {"cs"} && forall i :: i in st.schemas ==> st.schemas[i].id == i
  }

  /** The counter is the largest stored id. */
  ghost predicate LastIsMax(st: SchemaState) {
    && (forall i :: i in st.schemas ==> i <= Last(st))
    && (Last(st) == 0 || Last(st) in st.schemas)
  }

  /** A counter at its end has its schema stored. */
  ghost predicate EndIsStored(st: SchemaState) {
    Last(st) == U64 - 1 ==> Last(st) in st.schemas
  }

  lemma DeliverFiles(st: SchemaState, op: SchemaOp)
    requires Filed(st)
    ensures Filed(Deliver(st, op)) && st.schemas.Keys <= Deliver(st, op).schemas.Keys
    ensures Creates(st, op) ==> Last(Deliver(st, op)) == (Last(st) + 1) % U64 && Last(Deliver(st, op)) in Deliver(st, op).schemas
    ensures !Creates(st, op) ==> Last(Deliver(st, op)) == Last(st)
    ensures Deliver(st, op).params == st.params
  {
  }

  lemma DeliverMax(st: SchemaState, op: SchemaOp)
    requires Filed(st) && LastIsMax(st) && (Creates(st, op) ==> Last(st) < U64 - 1)
    ensures LastIsMax(Deliver(st, op))
  {
  }

  /** Over every run schemas stay under their ids, none is removed, and the counter has moved by one for each creation. */
  lemma {:induction false} RunFiles(st: SchemaState, ops: seq<SchemaOp>)
    requires Filed(st)
    ensures Filed(Run(st, ops)) && st.schemas.Keys <= Run(st, ops).schemas.Keys && Run(st, ops).params == st.params
    ensures Last(Run(st, ops)) == (Last(st) + Made(st, ops)) % U64
    decreases |ops|
  {
    hide Filed; hide Deliver; hide Creates; hide Last;
    if ops != [] {
      DeliverFiles(st, ops[0]);
      RunFiles(Deliver(st, ops[0]), ops[1..]);
      OneMore(Last(st), Made(Deliver(st, ops[0]), ops[1..]));
    } else {
      assert Last(st) % U64 == Last(st);
    }
  }

  lemma OneMore(a: uint64, n: nat)
    ensures ((a + 1) % U64 + n) % U64 == (a + 1 + n) % U64
  {
    if a + 1 == U64 {
      assert (a + 1 + n) % U64 == n % U64;
    }
  }

  /** While the ids do not wrap, the counter is the largest stored id. */
  lemma {:induction false} RunKeepsMax(st: SchemaState, ops: seq<SchemaOp>)
    requires Filed(st) && LastIsMax(st) && Last(st) + Made(st, ops) < U64
    ensures LastIsMax(Run(st, ops))
    decreases |ops|
  {
    hide Filed; hide LastIsMax; hide Deliver; hide Creates; hide Last;
    if ops != [] {
      DeliverFiles(st, ops[0]);
      DeliverMax(st, ops[0]);
      RunKeepsMax(Deliver(st, ops[0]), ops[1..]);
    }
  }

  /** Once they have wrapped, the schema with the last id is there to stay. */
  lemma {:induction false} RunWraps(st: SchemaState, ops: seq<SchemaOp>)
    requires Filed(st) && EndIsStored(st) && Last(st) + Made(st, ops) >= U64
    ensures U64 - 1 in Run(st, ops).schemas
    decreases |ops|
  {
    hide Filed; hide Deliver; hide Creates; hide Last;
    var st' := Deliver(st, ops[0]);
    DeliverFiles(st, ops[0]);
    if U64 - 1 in st'.schemas {
      RunFiles(st', ops[1..]);
    } else {
      RunWraps(st', ops[1..]);
    }
  }

  /** So the counter of a run is the largest stored id exactly when it has not wrapped, or has wrapped all the way round. */
  lemma MaxExactly(st: SchemaState, ops: seq<SchemaOp>)
    requires Filed(st) && LastIsMax(st)
    ensures LastIsMax(Run(st, ops)) <==>
            Last(st) + Made(st, ops) < U64 || (Last(st) + Made(st, ops)) % U64 == U64 - 1
  {
    hide Filed; hide Run; hide Made;
    RunFiles(st, ops);
    if Last(st) + Made(st, ops) < U64 {
      RunKeepsMax(st, ops);
    } else {
      RunWraps(st, ops);
    }
  }

  // ---------- what each message writes ----------

  /** An accepted creation stores its content under the next id, and touches no other schema. */
  lemma CreationStores(st: SchemaState, content: uint64 -> Option<Bytes>)
    requires Filed(st)
    ensures var st', id := Deliver(st, CreateSchema(content)), (Last(st) + 1) % U64;
            if content(id).Some? then
              && Attempt(st, CreateSchema(content)).Some?
              && id in st'.schemas && st'.schemas[id] == CredentialSchema(id, content(id).value)
              && (forall i :: i != id ==> (i in st'.schemas <==> i in st.schemas))
              && (forall i :: i != id && i in st.schemas ==> st'.schemas[i] == st.schemas[i])
              && st'.params == st.params && st'.counter == map["cs" := id]
            else
              Attempt(st, CreateSchema(content)).None? && st' == st
  {
  }

  /** An accepted update or archival stores its content under the schema's own id, and touches nothing else. */
  lemma RewriteStores(st: SchemaState, id: uint64, rewrite: CredentialSchema -> Option<Bytes>)
    requires Filed(st)
    ensures var st' := Deliver(st, RewriteSchema(id, rewrite));
            if id in st.schemas && rewrite(st.schemas[id]).Some? then
              && Attempt(st, RewriteSchema(id, rewrite)).Some?
              && id in st'.schemas && st'.schemas[id] == CredentialSchema(id, rewrite(st.schemas[id]).value)
              && (forall i :: i in st'.schemas <==> i in st.schemas)
              && (forall i :: i != id && i in st.schemas ==> st'.schemas[i] == st.schemas[i])
              && st'.params == st.params && st'.counter == st.counter
            else
              Attempt(st, RewriteSchema(id, rewrite)).None? && st' == st
  {
  }

  /** The id and the schema an accepted message writes. */
  function Written(st: SchemaState, op: SchemaOp): Option<CredentialSchema> {
    match op
    case CreateSchema(content) =>
      (var id := (Last(st) + 1) % U64;
       match content(id) case None => None case Some(c) => Some(CredentialSchema(id, c)))
    case RewriteSchema(id, rewrite) =>
      if id !in st.schemas then None
      else match rewrite(st.schemas[id]) case None => None case Some(c) => Some(CredentialSchema(id, c))
  }

  /** No message of the run writes under this id. */
  predicate Untouched(st: SchemaState, ops: seq<SchemaOp>, id: uint64)
    decreases |ops|
  {
    ops == [] ||
    ((Written(st, ops[0]).Some? ==> Written(st, ops[0]).value.id != id) && Untouched(Deliver(st, ops[0]), ops[1..], id))
  }

  lemma DeliverWrites(st: SchemaState, op: SchemaOp, id: uint64)
    requires Filed(st)
    ensures var st' := Deliver(st, op);
            if Written(st, op).Some? && Written(st, op).value.id == id then id in st'.schemas && st'.schemas[id] == Written(st, op).value
            else (id in st'.schemas <==> id in st.schemas) && (id in st.schemas ==> st'.schemas[id] == st.schemas[id])
  {
  }

  lemma {:induction false} UntouchedStays(st: SchemaState, ops: seq<SchemaOp>, id: uint64)
    requires Filed(st) && Untouched(st, ops, id)
    ensures id in Run(st, ops).schemas <==> id in st.schemas
    ensures id in st.schemas ==> Run(st, ops).schemas[id] == st.schemas[id]
    decreases |ops|
  {
    hide Filed; hide Deliver; hide Written;
    if ops != [] {
      DeliverFiles(st, ops[0]);
      DeliverWrites(st, ops[0], id);
      UntouchedStays(Deliver(st, ops[0]), ops[1..], id);
    }
  }

  lemma {:induction false} RunConcat(st: SchemaState, before: seq<SchemaOp>, after: seq<SchemaOp>)
    ensures Run(st, before + after) == Run(Run(st, before), after)
    decreases |before|
  {
    hide Deliver;
    if before == [] {
      assert before + after == after;
    } else {
      assert (before + after)[1..] == before[1..] + after;
      RunConcat(Deliver(st, before[0]), before[1..], after);
    }
  }

  /** After a run the schema under an id is what the last accepted message for it left. */
  lemma LastWriterWins(st: SchemaState, before: seq<SchemaOp>, op: SchemaOp, after: seq<SchemaOp>, id: uint64)
    requires Filed(st)
    requires var s := Run(st, before);
             Written(s, op).Some? && Written(s, op).value.id == id && Untouched(Deliver(s, op), after, id)
    ensures var s, last := Run(st, before), Run(st, before + ([op] + after));
            && id in last.schemas
            && (op.CreateSchema? ==> Some(last.schemas[id].content) == op.content(id))
            && (op.RewriteSchema? ==> id in s.schemas && Some(last.schemas[id].content) == op.rewrite(s.schemas[id]))
            && last.schemas[id].id == id
  {
    var s := Run(st, before);
    assert op.CreateSchema? ==> Some(Written(s, op).value.content) == op.content(id);
    assert op.RewriteSchema? ==> id in s.schemas && Some(Written(s, op).value.content) == op.rewrite(s.schemas[id]);
    hide Filed; hide Deliver; hide Written; hide Untouched;
    RunFiles(st, before);
    DeliverFiles(s, op);
    DeliverWrites(s, op, id);
    RunConcat(st, before, [op] + after);
    assert ([op] + after)[1..] == after;
    UntouchedStays(Deliver(s, op), after, id);
  }

  // ---------- a genesis cycle after a run ----------

  lemma ImportIsFiled(params: Bytes, cs: seq<CredentialSchema>)
    requires NoDup(Ids(cs))
    ensures Filed(Import(NOTHING, params, cs)) && LastIsMax(Import(NOTHING, params, cs))
    ensures Last(Import(NOTHING, params, cs)) == MaxId(cs)
  {
    hide NoDup; hide Store; hide Max;
    StoreIsMap(cs);
    MaxIsMax(Ids(cs));
    var st := Import(NOTHING, params, cs);
    forall i | i in st.schemas ensures st.schemas[i].id == i && i <= MaxId(cs) {
      var k :| 0 <= k < |cs| && Ids(cs)[k] == i;
    }
    if MaxId(cs) != 0 {
      var k :| 0 <= k < |cs| && Ids(cs)[k] == MaxId(cs);
    }
  }

  lemma RowsAreDistinct(m: map<uint64, CredentialSchema>)
    requires forall i :: i in m ==> m[i].id == i
    ensures NoDup(Ids(Rows(m)))
    ensures forall c: CredentialSchema :: c in Rows(m) <==> c.id in m && m[c.id] == c
  {
    var rows, ks := Rows(m), Ascending(m.Keys);
    RowsAt(m);
    hide Rows; hide Ascending;
    assert forall i :: 0 <= i < |rows| ==> Ids(rows)[i] == ks[i];
    forall c: CredentialSchema | c.id in m && m[c.id] == c ensures c in rows {
      var k :| 0 <= k < |ks| && ks[k] == c.id;
      assert rows[k] == c;
    }
  }

  lemma StoreRestores(m: map<uint64, CredentialSchema>, sorted: seq<CredentialSchema>)
    requires (forall i :: i in m ==> m[i].id == i) && NoDup(Ids(sorted))
    requires forall c: CredentialSchema :: c in sorted <==> c.id in m && m[c.id] == c
    ensures Store(map[], sorted) == m
  {
    hide NoDup; hide Store;
    StoreIsMap(sorted);
    var again := Store(map[], sorted);
    forall i | i in m ensures i in again && again[i] == m[i] {
      var k :| 0 <= k < |sorted| && sorted[k] == m[i];
      assert Ids(sorted)[k] == i;
    }
    forall i | i in again ensures i in m {
      var k :| 0 <= k < |sorted| && Ids(sorted)[k] == i;
      assert sorted[k] in sorted;
    }
  }

  /** Export, then import, on any state a run can reach: everything comes back, the counter if it is the largest id. */
  lemma CycleOnFiled(st: SchemaState, g: SchemaGenesisState, sorted: seq<CredentialSchema>)
    requires Filed(st) && Exported(st, g) && SortedFrom(g.schemas, sorted)
    ensures var again := Import(NOTHING, g.params, sorted);
            && again.params == st.params && again.schemas == st.schemas
            && LastIsMax(again) && (again == st <==> LastIsMax(st))
  {
    hide NoDup; hide Rows; hide Store; hide Max; hide Sorting.Ordered; hide Elements;
    RowsAreDistinct(st.schemas);
    SameSchemas(g.schemas, Rows(st.schemas));
    NoDupCount(Ids(g.schemas));
    NoDupCount(Ids(Rows(st.schemas)));
    SortedKeepsIds(g.schemas, sorted);
    StoreRestores(st.schemas, sorted);
    CounterSurvives(st, g);
    ImportIsFiled(g.params, sorted);
    var again := Import(NOTHING, g.params, sorted);
    assert again.counter == map["cs" := again.counter["cs"]] && st.counter == map["cs" := st.counter["cs"]];
  }

  /**
   * From any genesis with distinct ids and after any run, a genesis cycle
   * restores all parameters and schemas; it restores the counter too if and
   * only if the ids have not wrapped, or have wrapped all the way round.
   */
  lemma CycleRestores(params: Bytes, cs: seq<CredentialSchema>, ops: seq<SchemaOp>, g: SchemaGenesisState, sorted: seq<CredentialSchema>)
    requires NoDup(Ids(cs))
    requires Exported(Run(Import(NOTHING, params, cs), ops), g) && SortedFrom(g.schemas, sorted)
    ensures var start := Import(NOTHING, params, cs);
            var st, again, ids := Run(start, ops), Import(NOTHING, g.params, sorted), MaxId(cs) + Made(start, ops);
            && again.params == st.params && again.schemas == st.schemas
            && (again == st <==> ids < U64 || ids % U64 == U64 - 1)
  {
    hide NoDup; hide Run; hide Made; hide Filed; hide LastIsMax; hide Import; hide MaxId; hide Last; hide Exported; hide SortedFrom;
    ImportIsFiled(params, cs);
    var start := Import(NOTHING, params, cs);
    RunFiles(start, ops);
    MaxExactly(start, ops);
    CycleOnFiled(Run(start, ops), g, sorted);
  }

  /** A run that shows the loss: one creation after the last id, then a cycle. */
  lemma WrapIsForgotten(params: Bytes, c: CredentialSchema, content: uint64 -> Option<Bytes>, g: SchemaGenesisState, sorted: seq<CredentialSchema>)
    requires c.id == U64 - 1 && content(0).Some?
    requires Exported(Run(Import(NOTHING, params, [c]), [CreateSchema(content)]), g) && SortedFrom(g.schemas, sorted)
    ensures g.schemaCounter == 0 && Import(NOTHING, g.params, sorted).counter["cs"] == U64 - 1
  {
    hide NoDup; hide SortedFrom; hide Max;
    OneSchema(c);
    ImportIsFiled(params, [c]);
    var start, ops := Import(NOTHING, params, [c]), [CreateSchema(content)];
    assert ops[1..] == [];
    assert Run(start, ops) == Deliver(start, ops[0]);
    OneRowStored(params, c);
    DeliverFiles(start, ops[0]);
    CycleOnFiled(Run(start, ops), g, sorted);
  }

  lemma OneRowStored(params: Bytes, c: CredentialSchema)
    ensures Import(NOTHING, params, [c]).schemas == map[c.id := c]
  {
    assert Store(map[], [c][..0]) == map[];
  }

  lemma OneSchema(c: CredentialSchema)
    ensures NoDup(Ids([c])) && MaxId([c]) == c.id
  {
    assert Ids([c]) == [] + [c.id];
    MaxSnoc([], c.id);
  }
}
