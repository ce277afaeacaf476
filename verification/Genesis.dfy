/** Genesis of the corporation registry: what Validate accepts, what Init builds, what Export writes. */
module Genesis {
  import opened Basics
  import opened Codec
  import opened Messages
  import opened Languages
  import opened Order
  import opened Registry

  // ---------- what a valid genesis is ----------

  predicate RowOk(c: Corporation) {
    && c.id != 0
    && c.policyAddress != []
    && c.did != [] && IsValidDID(c.did)
    && IsValidBCP47(c.language)
    && c.created != ZERO_TIME && c.modified != ZERO_TIME && c.created <= c.modified
  }

  function Ids(cs: seq<Corporation>): (r: seq<uint64>)
    ensures |r| == |cs| && forall i :: 0 <= i < |cs| ==> r[i] == cs[i].id
  {
    seq(|cs|, i requires 0 <= i < |cs| => cs[i].id)
  }

  function Addrs(cs: seq<Corporation>): (r: seq<Bytes>)
    ensures |r| == |cs| && forall i :: 0 <= i < |cs| ==> r[i] == cs[i].policyAddress
  {
    seq(|cs|, i requires 0 <= i < |cs| => cs[i].policyAddress)
  }

  function Dids(cs: seq<Corporation>): (r: seq<Bytes>)
    ensures |r| == |cs| && forall i :: 0 <= i < |cs| ==> r[i] == cs[i].did
  {
    seq(|cs|, i requires 0 <= i < |cs| => cs[i].did)
  }

  predicate Distinct(cs: seq<Corporation>) {
    NoDup(Ids(cs)) && NoDup(Addrs(cs)) && NoDup(Dids(cs))
  }

  predicate ValidGenesis(cs: seq<Corporation>) {
    Distinct(cs) && forall i :: 0 <= i < |cs| ==> RowOk(cs[i])
  }

  /** The whole check, condition by condition. */
  lemma ValidGenesisMeans(cs: seq<Corporation>)
    ensures ValidGenesis(cs) <==>
            && (forall k :: 0 <= k < |cs| ==>
                  && cs[k].id > 0 && cs[k].policyAddress != []
                  && IsValidDID(cs[k].did) && IsValidBCP47(cs[k].language)
                  && cs[k].created != 0 && cs[k].modified != 0 && cs[k].created <= cs[k].modified)
            && (forall i, j :: 0 <= i < j < |cs| ==>
                  cs[i].id != cs[j].id && cs[i].policyAddress != cs[j].policyAddress && cs[i].did != cs[j].did)
  {
    DidOnePass([]);
    hide IsValidDID; hide IsValidBCP47;
    if Distinct(cs) {
      forall i, j | 0 <= i < j < |cs|
        ensures cs[i].id != cs[j].id && cs[i].policyAddress != cs[j].policyAddress && cs[i].did != cs[j].did
      {
        assert Ids(cs)[i] != Ids(cs)[j] && Addrs(cs)[i] != Addrs(cs)[j] && Dids(cs)[i] != Dids(cs)[j];
      }
    }
  }

  /** The first gate a row fails, given the ids, addresses and DIDs of the rows before it. */
  function CheckRow(c: Corporation, ids: set<uint64>, addrs: set<Bytes>, dids: set<Bytes>): Option<Err> {
    if c.id == 0 || c.id in ids then Some(CorporationNotFound)
    else if c.policyAddress == [] then Some(InvalidAddress)
    else if c.policyAddress in addrs then Some(PolicyAddressAlreadyBound)
    else if c.did == [] || !IsValidDID(c.did) then Some(InvalidDID)
    else if c.did in dids then Some(DIDAlreadyExists)
    else if !IsValidBCP47(c.language) then Some(InvalidLanguage)
    else Unless(c.created != ZERO_TIME && c.modified != ZERO_TIME && !(c.modified < c.created), InvalidTimestamp)
  }

  /** Rows before `k` are valid together, and row `k` is the first to break a rule, with this error. */
  ghost predicate FirstFault(cs: seq<Corporation>, k: nat, e: Err) {
    && k < |cs|
    && ValidGenesis(cs[..k])
    && CheckRow(cs[k], Elements(Ids(cs[..k])), Elements(Addrs(cs[..k])), Elements(Dids(cs[..k]))) == Some(e)
  }

  /** Which error that is, told by the rows before it. */
  lemma FirstFaultMeans(cs: seq<Corporation>, k: nat, e: Err)
    requires FirstFault(cs, k, e)
    ensures var c := cs[k];
            e == if c.id == 0 || (exists j :: 0 <= j < k && cs[j].id == c.id) then CorporationNotFound
                 else if c.policyAddress == [] then InvalidAddress
                 else if exists j :: 0 <= j < k && cs[j].policyAddress == c.policyAddress then PolicyAddressAlreadyBound
                 else if !IsValidDID(c.did) then InvalidDID
                 else if exists j :: 0 <= j < k && cs[j].did == c.did then DIDAlreadyExists
                 else if !IsValidBCP47(c.language) then InvalidLanguage
                 else InvalidTimestamp
    ensures e == InvalidTimestamp ==> cs[k].created == 0 || cs[k].modified == 0 || cs[k].modified < cs[k].created
  {
    DidOnePass([]);
    hide IsValidDID; hide IsValidBCP47; hide ValidGenesis;
    var few, c := cs[..k], cs[k];
    assert c.id in Elements(Ids(few)) <==> exists j :: 0 <= j < k && Ids(few)[j] == c.id;
    assert c.policyAddress in Elements(Addrs(few)) <==> exists j :: 0 <= j < k && Addrs(few)[j] == c.policyAddress;
    assert c.did in Elements(Dids(few)) <==> exists j :: 0 <= j < k && Dids(few)[j] == c.did;
    assert forall j :: 0 <= j < k ==> Ids(few)[j] == cs[j].id && Addrs(few)[j] == cs[j].policyAddress && Dids(few)[j] == cs[j].did;
  }

  /**
   * GenesisState.Validate: the error of the first row that breaks a rule, and
   * no error exactly when ids, addresses and DIDs are pairwise distinct and
   * every row is well formed.
   */
  method Validate(g: GenesisState) returns (r: Option<Err>)
    ensures r.None? <==> ValidGenesis(g.corporations)
    ensures r.Some? ==> exists k :: FirstFault(g.corporations, k, r.value)
  {
    var cs := g.corporations;
    var ids, addrs, dids := {}, {}, {};
    for k := 0 to |cs|
      invariant ids == Elements(Ids(cs[..k])) && addrs == Elements(Addrs(cs[..k])) && dids == Elements(Dids(cs[..k]))
      invariant ValidGenesis(cs[..k])
    {
      hide IsValidDID; hide IsValidBCP47; hide ValidGenesis; hide Ids; hide Addrs; hide Dids; hide Elements;
      var co := cs[k];
      OneMoreRow(cs[..k], co);
      assert cs[..k] + [co] == cs[..k + 1];
      if ValidGenesis(cs) { ValidPrefix(cs, k + 1); }
      ghost var fault := CheckRow(co, ids, addrs, dids);
      assert fault.Some? ==> FirstFault(cs, k, fault.value);
      if co.id == 0 { return Some(CorporationNotFound); }
      if co.id in ids { return Some(CorporationNotFound); }
      ids := ids + {co.id};
      if co.policyAddress == [] { return Some(InvalidAddress); }
      if co.policyAddress in addrs { return Some(PolicyAddressAlreadyBound); }
      addrs := addrs + {co.policyAddress};
      if co.did == [] || !IsValidDID(co.did) { return Some(InvalidDID); }
      if co.did in dids { return Some(DIDAlreadyExists); }
      dids := dids + {co.did};
      if !IsValidBCP47(co.language) { return Some(InvalidLanguage); }
      if co.created == ZERO_TIME { return Some(InvalidTimestamp); }
      if co.modified == ZERO_TIME { return Some(InvalidTimestamp); }
      if co.modified < co.created { return Some(InvalidTimestamp); }
    }
    assert cs[..|cs|] == cs;
    return None;
  }

  lemma Columns(cs: seq<Corporation>, c: Corporation)
    ensures Ids(cs + [c]) == Ids(cs) + [c.id]
    ensures Addrs(cs + [c]) == Addrs(cs) + [c.policyAddress]
    ensures Dids(cs + [c]) == Dids(cs) + [c.did]
  {
  }

  lemma OneMoreRow(cs: seq<Corporation>, c: Corporation)
    requires ValidGenesis(cs)
    ensures ValidGenesis(cs + [c]) <==>
            CheckRow(c, Elements(Ids(cs)), Elements(Addrs(cs)), Elements(Dids(cs))).None?
    ensures Elements(Ids(cs + [c])) == Elements(Ids(cs)) + {c.id}
    ensures Elements(Addrs(cs + [c])) == Elements(Addrs(cs)) + {c.policyAddress}
    ensures Elements(Dids(cs + [c])) == Elements(Dids(cs)) + {c.did}
  {
    hide IsValidDID; hide IsValidBCP47; hide NoDup; hide Ids; hide Addrs; hide Dids;
    Columns(cs, c);
    NoDupSnoc(Ids(cs), c.id);
    NoDupSnoc(Addrs(cs), c.policyAddress);
    NoDupSnoc(Dids(cs), c.did);
    var all := cs + [c];
    assert all[|cs|] == c && forall i :: 0 <= i < |cs| ==> all[i] == cs[i];
    assert (forall i :: 0 <= i < |all| ==> RowOk(all[i])) <==> RowOk(c) by {
      if forall i :: 0 <= i < |all| ==> RowOk(all[i]) { assert RowOk(all[|cs|]); }
    }
  }

  lemma ValidPrefix(cs: seq<Corporation>, k: nat)
    requires ValidGenesis(cs) && k <= |cs|
    ensures ValidGenesis(cs[..k])
  {
    hide RowOk;
    var few := cs[..k];
    forall i, j | 0 <= i < j < k
      ensures Ids(few)[i] != Ids(few)[j] && Addrs(few)[i] != Addrs(few)[j] && Dids(few)[i] != Dids(few)[j]
    {
      assert Ids(cs)[i] != Ids(cs)[j] && Addrs(cs)[i] != Addrs(cs)[j] && Dids(cs)[i] != Dids(cs)[j];
    }
  }

  // ---------- InitGenesis ----------

  const EMPTY := State(map[], map[], map[], map[])

  function AddRow(st: State, c: Corporation): State {
    st.(table := st.table[c.id := c], byPolicy := st.byPolicy[c.policyAddress := c.id], byDid := st.byDid[c.did := c.id])
  }

  function AddRows(st: State, cs: seq<Corporation>): State
    decreases |cs|
  {
    if cs == [] then st else AddRow(AddRows(st, cs[..|cs| - 1]), cs[|cs| - 1])
  }

  function MaxId(cs: seq<Corporation>): uint64 {
    Max(Ids(cs))
  }

  function Init(st: State, cs: seq<Corporation>): State {
    var built := AddRows(st, cs);
    built.(counter := built.counter["co" := MaxId(cs)])
  }

  // ---------- ExportGenesis ----------

  function Export(st: State): seq<Corporation> {
    var ks := Ascending(st.table.Keys);
    seq(|ks|, i requires 0 <= i < |ks| => st.table[ks[i]])
  }

  lemma ExportRows(st: State)
    ensures |Export(st)| == |st.table|
    ensures forall i :: 0 <= i < |Export(st)| ==>
      Ascending(st.table.Keys)[i] in st.table && Export(st)[i] == st.table[Ascending(st.table.Keys)[i]]
  {
  }

  // ---------- what Init builds ----------

  /** `st` holds exactly the rows of `cs`, each under its id and in both indexes. */
  ghost predicate Holds(st: State, cs: seq<Corporation>) {
    MapOf(st.table, Ids(cs), cs) && MapOf(st.byPolicy, Addrs(cs), Ids(cs)) && MapOf(st.byDid, Dids(cs), Ids(cs))
  }

  lemma {:induction false} AddRowsKeys(cs: seq<Corporation>)
    ensures AddRows(EMPTY, cs).table.Keys == Elements(Ids(cs))
    ensures AddRows(EMPTY, cs).counter == map[]
    ensures NoDup(Ids(cs)) ==> MapOf(AddRows(EMPTY, cs).table, Ids(cs), cs)
    decreases |cs|
  {
    hide NoDup;
    if cs != [] {
      hide Ids; hide Elements;
      var init, last := cs[..|cs| - 1], cs[|cs| - 1];
      assert init + [last] == cs;
      Columns(init, last);
      NoDupSnoc(Ids(init), last.id);
      AddRowsKeys(init);
      if NoDup(Ids(cs)) { MapOfSnoc(AddRows(EMPTY, init).table, Ids(init), init, last.id, last); }
    }
  }

  lemma {:induction false} AddRowsHolds(cs: seq<Corporation>)
    requires Distinct(cs)
    ensures Holds(AddRows(EMPTY, cs), cs)
    decreases |cs|
  {
    hide NoDup;
    if cs != [] {
      hide Ids; hide Addrs; hide Dids; hide MapOf;
      var init, last := cs[..|cs| - 1], cs[|cs| - 1];
      assert init + [last] == cs;
      Columns(init, last);
      NoDupSnoc(Ids(init), last.id);
      NoDupSnoc(Addrs(init), last.policyAddress);
      NoDupSnoc(Dids(init), last.did);
      AddRowsHolds(init);
      var st := AddRows(EMPTY, init);
      MapOfSnoc(st.table, Ids(init), init, last.id, last);
      MapOfSnoc(st.byPolicy, Addrs(init), Ids(init), last.policyAddress, last.id);
      MapOfSnoc(st.byDid, Dids(init), Ids(init), last.did, last.id);
    }
  }

  /** Two stores holding the same rows, in whatever order, are the same store. */
  lemma HoldsUnique(a: State, b: State, cs: seq<Corporation>, cs': seq<Corporation>)
    requires Holds(a, cs) && Holds(b, cs')
    requires forall c :: c in cs <==> c in cs'
    ensures a.table == b.table && a.byPolicy == b.byPolicy && a.byDid == b.byDid
  {
    HoldsPart(a, b, cs, cs');
    HoldsPart(b, a, cs', cs);
    MapsEqual(a.table, b.table);
    MapsEqual(a.byPolicy, b.byPolicy);
    MapsEqual(a.byDid, b.byDid);
  }

  ghost predicate Within<K, V>(a: map<K, V>, b: map<K, V>) {
    forall k :: k in a ==> k in b && a[k] == b[k]
  }

  lemma MapsEqual<K, V>(a: map<K, V>, b: map<K, V>)
    requires Within(a, b) && Within(b, a)
    ensures a == b
  {
  }

  lemma WithinBy<K, V>(a: map<K, V>, b: map<K, V>, ks: seq<K>, vs: seq<V>)
    requires MapOf(a, ks, vs) && forall i :: 0 <= i < |ks| ==> ks[i] in b && b[ks[i]] == vs[i]
    ensures Within(a, b)
  {
    forall k | k in a ensures k in b && a[k] == b[k] {
      var i :| 0 <= i < |ks| && ks[i] == k;
    }
  }

  lemma HoldsRow(b: State, cs': seq<Corporation>, c: Corporation)
    requires Holds(b, cs') && c in cs'
    ensures c.id in b.table && b.table[c.id] == c
    ensures c.policyAddress in b.byPolicy && b.byPolicy[c.policyAddress] == c.id
    ensures c.did in b.byDid && b.byDid[c.did] == c.id
  {
    var j :| 0 <= j < |cs'| && cs'[j] == c;
    assert Ids(cs')[j] == c.id && Addrs(cs')[j] == c.policyAddress && Dids(cs')[j] == c.did;
  }

  lemma HoldsPart(a: State, b: State, cs: seq<Corporation>, cs': seq<Corporation>)
    requires Holds(a, cs) && Holds(b, cs')
    requires forall c :: c in cs ==> c in cs'
    ensures Within(a.table, b.table) && Within(a.byPolicy, b.byPolicy) && Within(a.byDid, b.byDid)
  {
    hide MapOf; hide Within;
    forall k | 0 <= k < |cs|
      ensures cs[k].id in b.table && b.table[cs[k].id] == cs[k]
      ensures cs[k].policyAddress in b.byPolicy && b.byPolicy[cs[k].policyAddress] == cs[k].id
      ensures cs[k].did in b.byDid && b.byDid[cs[k].did] == cs[k].id
    {
      HoldsRow(b, cs', cs[k]);
    }
    WithinBy(a.table, b.table, Ids(cs), cs);
    WithinBy(a.byPolicy, b.byPolicy, Addrs(cs), Ids(cs));
    WithinBy(a.byDid, b.byDid, Dids(cs), Ids(cs));
  }

  ghost predicate RowsOk(st: State) {
    forall i :: i in st.table ==> RowOk(st.table[i])
  }

  lemma HoldsRows(st: State, cs: seq<Corporation>)
    requires MapOf(st.table, Ids(cs), cs) && forall k :: 0 <= k < |cs| ==> RowOk(cs[k])
    ensures RowsUnderTheirIds(st) && RowsOk(st)
  {
    hide IsValidDID; hide IsValidBCP47;
    forall i | i in st.table ensures i > 0 && st.table[i].id == i && RowOk(st.table[i]) {
      var k :| 0 <= k < |cs| && Ids(cs)[k] == i;
    }
  }

  lemma HoldsDids(st: State, cs: seq<Corporation>)
    requires MapOf(st.table, Ids(cs), cs) && MapOf(st.byDid, Dids(cs), Ids(cs))
    ensures DidsExact(st)
  {
    forall i | i in st.table ensures st.table[i].did in st.byDid && st.byDid[st.table[i].did] == i {
      var k :| 0 <= k < |cs| && Ids(cs)[k] == i;
      assert st.byDid[Dids(cs)[k]] == Ids(cs)[k];
    }
    forall d | d in st.byDid ensures st.byDid[d] in st.table && st.table[st.byDid[d]].did == d {
      var k :| 0 <= k < |cs| && Dids(cs)[k] == d;
    }
  }

  lemma HoldsPolicies(st: State, cs: seq<Corporation>)
    requires MapOf(st.table, Ids(cs), cs) && MapOf(st.byPolicy, Addrs(cs), Ids(cs))
    ensures PoliciesExact(st)
  {
    forall i | i in st.table ensures st.table[i].policyAddress in st.byPolicy && st.byPolicy[st.table[i].policyAddress] == i {
      var k :| 0 <= k < |cs| && Ids(cs)[k] == i;
      assert st.byPolicy[Addrs(cs)[k]] == Ids(cs)[k];
    }
    forall p | p in st.byPolicy ensures st.byPolicy[p] in st.table && st.table[st.byPolicy[p]].policyAddress == p {
      var k :| 0 <= k < |cs| && Addrs(cs)[k] == p;
    }
  }

  lemma HoldsCounter(st: State, cs: seq<Corporation>)
    requires MapOf(st.table, Ids(cs), cs) && st.counter == map["co" := MaxId(cs)]
    ensures CounterIsMax(st)
  {
    MaxIsMax(Ids(cs));
    forall i | i in st.table ensures i <= Current(st) {
      var k :| 0 <= k < |cs| && Ids(cs)[k] == i;
    }
    if MaxId(cs) != 0 {
      var k :| 0 <= k < |cs| && Ids(cs)[k] == MaxId(cs);
    }
  }

  lemma InitIsSound(cs: seq<Corporation>)
    requires ValidGenesis(cs)
    ensures Inv(Init(EMPTY, cs)) && RowsOk(Init(EMPTY, cs)) && Holds(Init(EMPTY, cs), cs)
  {
    hide AddRows; hide MapOf; hide RowOk; hide MaxId; hide NoDup;
    AddRowsKeys(cs);
    AddRowsHolds(cs);
    var st := Init(EMPTY, cs);
    HoldsRows(st, cs);
    HoldsDids(st, cs);
    HoldsPolicies(st, cs);
    HoldsCounter(st, cs);
  }

  /**
   * Validate is exactly strong enough: it accepts a genesis just when Init
   * loses none of its rows and ends in a state satisfying the invariant.
   */
  lemma ValidateIsExact(cs: seq<Corporation>)
    ensures ValidGenesis(cs) <==>
            Inv(Init(EMPTY, cs)) && RowsOk(Init(EMPTY, cs)) && |Init(EMPTY, cs).table| == |cs|
  {
    hide IsValidDID; hide IsValidBCP47; hide AddRows; hide NoDup;
    var st := Init(EMPTY, cs);
    AddRowsKeys(cs);
    NoDupCount(Ids(cs));
    assert |st.table| == |st.table.Keys| == |Elements(Ids(cs))|;
    if ValidGenesis(cs) {
      InitIsSound(cs);
    }
    if Inv(st) && RowsOk(st) && |st.table| == |cs| {
      RowsSeparate(cs, st);
      forall k | 0 <= k < |cs| ensures RowOk(cs[k]) { assert Ids(cs)[k] in st.table; }
    }
  }

  lemma RowsSeparate(cs: seq<Corporation>, st: State)
    requires NoDup(Ids(cs)) && MapOf(st.table, Ids(cs), cs) && DidsExact(st) && PoliciesExact(st)
    ensures Distinct(cs)
  {
    forall i, j | 0 <= i < j < |cs|
      ensures Addrs(cs)[i] != Addrs(cs)[j] && Dids(cs)[i] != Dids(cs)[j]
    {
      assert Ids(cs)[i] != Ids(cs)[j];
      assert st.table[Ids(cs)[i]] == cs[i] && st.table[Ids(cs)[j]] == cs[j];
    }
  }

  /** Neither the verdict nor the imported state depends on the order of the rows. */
  lemma OrderFree(cs: seq<Corporation>, cs': seq<Corporation>)
    requires multiset(cs) == multiset(cs')
    ensures ValidGenesis(cs) <==> ValidGenesis(cs')
    ensures ValidGenesis(cs) ==> Init(EMPTY, cs) == Init(EMPTY, cs')
  {
    if ValidGenesis(cs) { SameVerdict(cs, cs'); }
    if ValidGenesis(cs') { SameVerdict(cs', cs); }
    if ValidGenesis(cs) && ValidGenesis(cs') {
      SameElements(cs, cs');
      SameState(cs, cs');
    }
  }

  lemma SameElements(cs: seq<Corporation>, cs': seq<Corporation>)
    requires multiset(cs) == multiset(cs')
    ensures |cs| == |cs'| && forall c :: c in cs <==> c in cs'
  {
    assert |cs| == |multiset(cs)| && |cs'| == |multiset(cs')|;
    assert forall c :: c in cs <==> c in multiset(cs);
    assert forall c :: c in cs' <==> c in multiset(cs');
  }

  lemma SameState(cs: seq<Corporation>, cs': seq<Corporation>)
    requires ValidGenesis(cs) && ValidGenesis(cs') && forall c :: c in cs <==> c in cs'
    ensures Init(EMPTY, cs) == Init(EMPTY, cs')
  {
    hide ValidGenesis; hide Holds; hide AddRows; hide MaxId;
    InitIsSound(cs);
    InitIsSound(cs');
    var a, b := Init(EMPTY, cs), Init(EMPTY, cs');
    HoldsUnique(a, b, cs, cs');
    CounterUnique(a, b);
  }

  /** The counter is determined by the table. */
  lemma CounterUnique(a: State, b: State)
    requires CounterIsMax(a) && CounterIsMax(b) && RowsUnderTheirIds(a) && a.table == b.table
    ensures a.counter == b.counter
  {
    assert Current(a) == Current(b);
    assert a.counter == map["co" := Current(a)] && b.counter == map["co" := Current(b)];
  }

  lemma SameVerdict(cs: seq<Corporation>, cs': seq<Corporation>)
    requires multiset(cs) == multiset(cs') && ValidGenesis(cs)
    ensures ValidGenesis(cs')
  {
    hide IsValidDID; hide IsValidBCP47; hide NoDup;
    SameElements(cs, cs');
    SameColumns(cs, cs');
    SameColumns(cs', cs);
    NoDupCount(Ids(cs)); NoDupCount(Addrs(cs)); NoDupCount(Dids(cs));
    NoDupCount(Ids(cs')); NoDupCount(Addrs(cs')); NoDupCount(Dids(cs'));
    forall k | 0 <= k < |cs'| ensures RowOk(cs'[k]) { assert cs'[k] in cs; }
    assert Elements(Ids(cs)) == Elements(Ids(cs'));
    assert Elements(Addrs(cs)) == Elements(Addrs(cs'));
    assert Elements(Dids(cs)) == Elements(Dids(cs'));
  }

  lemma SameColumns(cs: seq<Corporation>, cs': seq<Corporation>)
    requires forall c :: c in cs ==> c in cs'
    ensures Elements(Ids(cs)) <= Elements(Ids(cs')) && Elements(Addrs(cs)) <= Elements(Addrs(cs')) && Elements(Dids(cs)) <= Elements(Dids(cs'))
  {
    forall k | 0 <= k < |cs|
      ensures cs[k].id in Ids(cs') && cs[k].policyAddress in Addrs(cs') && cs[k].did in Dids(cs')
    {
      assert cs[k] in cs';
      var j :| 0 <= j < |cs'| && cs'[j] == cs[k];
      assert Ids(cs')[j] == cs[k].id && Addrs(cs')[j] == cs[k].policyAddress && Dids(cs')[j] == cs[k].did;
    }
  }

  // ---------- export, then import ----------

  lemma ExportColumns(st: State)
    requires Inv(st)
    ensures Ids(Export(st)) == Ascending(st.table.Keys)
    ensures MapOf(st.table, Ids(Export(st)), Export(st))
  {
    hide DidsExact; hide PoliciesExact; hide CounterIsMax;
    ExportRows(st);
    var cs, ks := Export(st), Ascending(st.table.Keys);
    assert Ids(cs) == ks;
  }

  lemma PoliciesColumn(st: State, cs: seq<Corporation>)
    requires MapOf(st.table, Ids(cs), cs) && PoliciesExact(st)
    ensures MapOf(st.byPolicy, Addrs(cs), Ids(cs))
  {
    forall p | p in st.byPolicy ensures p in Addrs(cs) {
      var i := st.byPolicy[p];
      assert i in st.table && st.table[i].policyAddress == p;
      var k :| 0 <= k < |cs| && Ids(cs)[k] == i;
      assert Addrs(cs)[k] == p;
    }
    forall k | 0 <= k < |cs| ensures Addrs(cs)[k] in st.byPolicy && st.byPolicy[Addrs(cs)[k]] == Ids(cs)[k] {
      assert st.table[Ids(cs)[k]] == cs[k];
    }
  }

  lemma DidsColumn(st: State, cs: seq<Corporation>)
    requires MapOf(st.table, Ids(cs), cs) && DidsExact(st)
    ensures MapOf(st.byDid, Dids(cs), Ids(cs))
  {
    forall d | d in st.byDid ensures d in Dids(cs) {
      var i := st.byDid[d];
      assert i in st.table && st.table[i].did == d;
      var k :| 0 <= k < |cs| && Ids(cs)[k] == i;
      assert Dids(cs)[k] == d;
    }
    forall k | 0 <= k < |cs| ensures Dids(cs)[k] in st.byDid && st.byDid[Dids(cs)[k]] == Ids(cs)[k] {
      assert st.table[Ids(cs)[k]] == cs[k];
    }
  }

  lemma ExportHolds(st: State)
    requires Inv(st)
    ensures Holds(st, Export(st)) && Increasing(Ids(Export(st)))
  {
    ExportColumns(st);
    hide MapOf; hide DidsExact; hide PoliciesExact;
    PoliciesColumn(st, Export(st));
    DidsColumn(st, Export(st));
  }

  lemma RowsOkColumn(st: State, cs: seq<Corporation>)
    requires MapOf(st.table, Ids(cs), cs) && RowsOk(st)
    ensures forall k :: 0 <= k < |cs| ==> RowOk(cs[k])
  {
    hide RowOk;
    forall k | 0 <= k < |cs| ensures RowOk(cs[k]) { assert cs[k] == st.table[Ids(cs)[k]]; }
  }

  lemma ExportValid(st: State)
    requires Inv(st) && RowsOk(st)
    ensures ValidGenesis(Export(st))
  {
    hide RowOk; hide NoDup; hide Increasing; hide Export; hide MapOf; hide RowsOk; hide Distinct;
    hide DidsExact; hide PoliciesExact; hide CounterIsMax;
    var cs := Export(st);
    ExportHolds(st);
    IncreasingNoDup(Ids(cs));
    RowsSeparate(cs, st);
    RowsOkColumn(st, cs);
  }

  /** Well-formed rows are not only enough for the export to validate, they are needed. */
  lemma ExportValidIff(st: State)
    requires Inv(st)
    ensures ValidGenesis(Export(st)) <==> RowsOk(st)
  {
    hide RowOk;
    if RowsOk(st) {
      ExportValid(st);
    }
    if ValidGenesis(Export(st)) {
      ExportColumns(st);
      HoldsRows(st, Export(st));
    }
  }

  /** A sound state exports to a genesis that validates and imports to the very same state. */
  lemma ExportImport(st: State)
    requires Inv(st) && RowsOk(st)
    ensures ValidGenesis(Export(st)) && Init(EMPTY, Export(st)) == st
  {
    hide RowsOk; hide AddRows; hide MaxId; hide DidsExact; hide PoliciesExact; hide Export; hide ValidGenesis; hide Holds;
    var cs := Export(st);
    ExportHolds(st);
    ExportValid(st);
    InitIsSound(cs);
    HoldsUnique(st, Init(EMPTY, cs), cs, cs);
    CounterUnique(st, Init(EMPTY, cs));
  }

  // ---------- over runs ----------

  /** Rows are well formed and none was modified after `t`. */
  ghost predicate Sound(st: State, t: int) {
    Inv(st) && RowsOk(st) && forall i :: i in st.table ==> st.table[i].modified <= t
  }

  /** Block times never go back and are not the zero time; x/group never answers with an empty address. */
  predicate Orderly(t: int, txs: seq<Tx>)
    decreases |txs|
  {
    txs == [] ||
    (&& t <= txs[0].now && txs[0].now != ZERO_TIME
     && (txs[0].op.CreateOp? ==> txs[0].op.group(RequestOf(txs[0].op.msg)) != Some([]))
     && Orderly(txs[0].now, txs[1..]))
  }

  /** Which runs that is: times in order from `t` on, none zero, no empty answer to a creation's request. */
  lemma {:induction false} OrderlyMeans(t: int, txs: seq<Tx>)
    ensures Orderly(t, txs) <==>
            && (forall k :: 0 <= k < |txs| ==> t <= txs[k].now && txs[k].now != 0)
            && (forall j, k :: 0 <= j < k < |txs| ==> txs[j].now <= txs[k].now)
            && (forall k :: 0 <= k < |txs| && txs[k].op.CreateOp? ==>
                  var m := txs[k].op.msg;
                  txs[k].op.group(GroupRequest(m.signer, m.members, m.groupMetadata, m.groupPolicyMetadata, true, m.decisionPolicy)) != Some([]))
    decreases |txs|
  {
    if txs != [] {
      OrderlyMeans(txs[0].now, txs[1..]);
      assert forall k :: 0 < k < |txs| ==> txs[k] == txs[1..][k - 1];
      assert forall k :: 0 <= k < |txs| - 1 ==> txs[1..][k] == txs[k + 1];
    }
  }

  function LastTime(t: int, txs: seq<Tx>): int {
    if txs == [] then t else txs[|txs| - 1].now
  }

  /** What a transaction can have done to row `i`. */
  lemma DeliverRow(ch: Checks, st: State, tx: Tx, i: uint64)
    requires RowsUnderTheirIds(st) && i in Deliver(ch, st, tx).table && i != 0
    ensures var c' := Deliver(ch, st, tx).table[i];
            || (i in st.table && c' == st.table[i])
            || (i in st.table && c' == st.table[i].(did := c'.did, modified := tx.now, activeVersion := c'.activeVersion)
                && (c'.did == st.table[i].did || (c'.did != [] && IsValidDID(c'.did))))
            || (tx.op.CreateOp? && tx.op.group(RequestOf(tx.op.msg)) == Some(c'.policyAddress) && c'.id == i
                && c'.did != [] && IsValidDID(c'.did) && IsValidBCP47(c'.language)
                && c'.created == tx.now && c'.modified == tx.now)
  {
    hide IsValidDID; hide IsValidBCP47; hide IsValidDigestSRI; hide CheckMembers;
  }

  lemma DeliverSound(ch: Checks, st: State, t: int, tx: Tx)
    requires Sound(st, t) && Orderly(t, [tx])
    ensures Sound(Deliver(ch, st, tx), tx.now)
  {
    hide IsValidDID; hide IsValidBCP47; hide Attempt; hide Creates;
    DeliverKeeps(ch, st, tx);
    hide DidsExact; hide CounterIsMax; hide PoliciesExact;
    var st' := Deliver(ch, st, tx);
    hide Deliver;
    forall i | i in st'.table
      ensures RowOk(st'.table[i]) && st'.table[i].modified <= tx.now
    {
      DeliverRow(ch, st, tx, i);
      if i in st.table { assert RowOk(st.table[i]); }
    }
  }

  lemma {:induction false} RunSound(ch: Checks, st: State, t: int, txs: seq<Tx>)
    requires Sound(st, t) && Orderly(t, txs)
    ensures Sound(Run(ch, st, txs), LastTime(t, txs))
    decreases |txs|
  {
    hide Sound; hide Deliver; hide Creates;
    if txs != [] {
      DeliverSound(ch, st, t, txs[0]);
      RunSound(ch, Deliver(ch, st, txs[0]), txs[0].now, txs[1..]);
    }
  }

  lemma InitIsTimely(cs: seq<Corporation>, t: int)
    requires ValidGenesis(cs) && forall k :: 0 <= k < |cs| ==> cs[k].modified <= t
    ensures Sound(Init(EMPTY, cs), t) && Current(Init(EMPTY, cs)) == MaxId(cs)
  {
    hide ValidGenesis; hide AddRows; hide MaxId; hide RowOk; hide DidsExact; hide PoliciesExact; hide CounterIsMax;
    InitIsSound(cs);
    var st := Init(EMPTY, cs);
    forall i | i in st.table ensures st.table[i].modified <= t {
      var k :| 0 <= k < |cs| && Ids(cs)[k] == i;
      assert st.table[Ids(cs)[k]] == cs[k];
    }
  }

  /**
   * Genesis closure: import a valid genesis, run any transactions, export. The
   * export validates, and importing it rebuilds the same table, both indexes
   * and the counter.
   */
  lemma GenesisClosure(ch: Checks, cs: seq<Corporation>, t: int, txs: seq<Tx>)
    requires ValidGenesis(cs) && (forall k :: 0 <= k < |cs| ==> cs[k].modified <= t) && Orderly(t, txs)
    ensures var st := Run(ch, Init(EMPTY, cs), txs);
            ValidGenesis(Export(st)) && Init(EMPTY, Export(st)) == st
  {
    hide ValidGenesis; hide AddRows; hide MaxId; hide RowOk; hide Run; hide Orderly; hide Export; hide Init;
    hide DidsExact; hide PoliciesExact; hide CounterIsMax;
    InitIsTimely(cs, t);
    RunSound(ch, Init(EMPTY, cs), t, txs);
    ExportImport(Run(ch, Init(EMPTY, cs), txs));
  }

  // ---------- a genesis that uses up the ids ----------

  /** After a valid genesis with the last id, no run ever adds a corporation. */
  lemma FullForGood(ch: Checks, cs: seq<Corporation>, txs: seq<Tx>)
    requires ValidGenesis(cs) && MaxId(cs) == U64 - 1
    ensures Allocated(ch, Init(EMPTY, cs), txs) == []
    ensures Run(ch, Init(EMPTY, cs), txs).table.Keys == Init(EMPTY, cs).table.Keys
  {
    hide ValidGenesis; hide AddRows; hide MaxId; hide Run; hide Allocated; hide Persist;
    InitIsSound(cs);
    hide Inv;
    IdsNeverWrap(ch, Init(EMPTY, cs), txs);
    IdentityStable(ch, Init(EMPTY, cs), txs);
  }

  /** Such a genesis passes validation. */
  lemma FullGenesis() returns (c: Corporation)
    ensures ValidGenesis([c]) && MaxId([c]) == U64 - 1
  {
    PlainDidIsValid([97]);
    EnglishIsValid();
    hide IsValidDID; hide IsValidBCP47;
    c := Corporation(U64 - 1, [1], PlainDid([97]), 1, 1, ENGLISH, 1);
    assert Ids([c]) == [] + [c.id];
    MaxSnoc([], c.id);
  }
}
