/** Who signs for a corporation: the index-backed resolvers and the schema ownership checks. */
module Resolvers {
  import opened Basics
  import opened Messages
  import opened Order
  import opened Registry
  import opened Genesis

  datatype GfView = GfView(id: uint64, policyAddress: Bytes, language: Bytes, activeVersion: uint32)

  datatype IdView = IdView(id: uint64, policyAddress: Bytes)

  /** The canonical resolver: index, then table. */
  function Resolve(st: State, policy: Bytes): Outcome<Corporation> {
    if policy !in st.byPolicy then Fail(CorporationNotRegistered)
    else if st.byPolicy[policy] !in st.table then Fail(CorporationNotFound)
    else Ok(st.table[st.byPolicy[policy]])
  }

  function View(co: Corporation): GfView {
    GfView(co.id, co.policyAddress, co.language, co.activeVersion)
  }

  /** The adapter for the governance framework module. */
  function ResolveForGf(st: State, policy: Bytes): Option<GfView> {
    if policy !in st.byPolicy then None
    else if st.byPolicy[policy] !in st.table then None
    else Some(View(st.table[st.byPolicy[policy]]))
  }

  function GetByID(st: State, id: uint64): Option<GfView> {
    if id !in st.table then None else Some(View(st.table[id]))
  }

  /** The adapter for the delegation module, through the canonical resolver. */
  function ResolveForDe(st: State, policy: Bytes): Outcome<IdView> {
    match Resolve(st, policy)
    case Ok(co) => Ok(IdView(co.id, co.policyAddress))
    case Fail(e) => Fail(e)
  }

  /** The adapter for the credential schema module: it never reads the table. */
  function ResolveForCs(st: State, policy: Bytes): Option<IdView> {
    if policy !in st.byPolicy then None else Some(IdView(st.byPolicy[policy], policy))
  }

  /** The reference: walk the table and stop at the first row with this address. */
  function Scan(rows: seq<Corporation>, policy: Bytes): Option<Corporation> {
    if rows == [] then None
    else if rows[0].policyAddress == policy then Some(rows[0])
    else Scan(rows[1..], policy)
  }

  lemma {:induction false} ScanFinds(rows: seq<Corporation>, policy: Bytes)
    ensures Scan(rows, policy).Some? ==> Scan(rows, policy).value in rows && Scan(rows, policy).value.policyAddress == policy
    ensures Scan(rows, policy).None? ==> forall c :: c in rows ==> c.policyAddress != policy
    decreases |rows|
  {
    if rows != [] {
      ScanFinds(rows[1..], policy);
      assert rows == [rows[0]] + rows[1..];
    }
  }

  /** In a sound state every resolver, with or without the table, answers as the scan does. */
  lemma IndexRefinesScan(st: State, policy: Bytes)
    requires Inv(st)
    ensures Resolve(st, policy) == (match Scan(Export(st), policy) case None => Fail(CorporationNotRegistered) case Some(co) => Ok(co))
    ensures ResolveForGf(st, policy) == (match Scan(Export(st), policy) case None => None case Some(co) =>
              Some(GfView(co.id, co.policyAddress, co.language, co.activeVersion)))
    ensures ResolveForDe(st, policy) ==
            (match Scan(Export(st), policy) case None => Fail(CorporationNotRegistered) case Some(co) => Ok(IdView(co.id, policy)))
    ensures ResolveForCs(st, policy) == (match Scan(Export(st), policy) case None => None case Some(co) => Some(IdView(co.id, policy)))
    ensures Scan(Export(st), policy).Some? ==> GetByID(st, Scan(Export(st), policy).value.id) == ResolveForGf(st, policy)
  {
    hide DidsExact; hide CounterIsMax; hide Scan; hide Ascending;
    ExportRows(st);
    var rows := Export(st);
    ScanFinds(rows, policy);
    assert forall i :: 0 <= i < |rows| ==> rows[i].id in st.table && st.table[rows[i].id] == rows[i];
    if policy in st.byPolicy {
      var i := st.byPolicy[policy];
      assert i in Ascending(st.table.Keys);
      var k :| 0 <= k < |rows| && Ascending(st.table.Keys)[k] == i;
      assert rows[k] == st.table[i] && rows[k] in rows;
    }
  }

  // ---------- ownership of credential schemas ----------

  datatype OwnershipErr = EcosystemNotFound | NotRegistered | NotController

  /**
   * The check on the ecosystem of an existing schema and on the one a new
   * schema names; `ecosystems` gives each known ecosystem its owner.
   */
  function CheckSchemaOwnership(ecosystems: map<uint64, uint64>, st: State, ecosystemId: uint64, signer: Bytes): Option<OwnershipErr> {
    if ecosystemId !in ecosystems then Some(EcosystemNotFound)
    else match ResolveForCs(st, signer)
      case None => Some(NotRegistered)
      case Some(co) => if ecosystems[ecosystemId] != co.id then Some(NotController) else None
  }

  /** The check passes exactly when the ecosystem exists and its owner is the one corporation the signer's address names. */
  lemma OwnershipMeansControl(ecosystems: map<uint64, uint64>, st: State, ecosystemId: uint64, signer: Bytes)
    requires Inv(st)
    ensures CheckSchemaOwnership(ecosystems, st, ecosystemId, signer).None? <==>
            && ecosystemId in ecosystems
            && ecosystems[ecosystemId] in st.table
            && st.table[ecosystems[ecosystemId]].policyAddress == signer
    ensures forall i, j :: i in st.table && j in st.table && st.table[i].policyAddress == st.table[j].policyAddress ==> i == j
    ensures CheckSchemaOwnership(ecosystems, st, ecosystemId, signer) == Some(EcosystemNotFound) <==> ecosystemId !in ecosystems
    ensures CheckSchemaOwnership(ecosystems, st, ecosystemId, signer) == Some(NotRegistered) <==>
            ecosystemId in ecosystems && forall i :: i in st.table ==> st.table[i].policyAddress != signer
  {
    hide DidsExact; hide CounterIsMax;
  }

  lemma DeliverKeepsAddresses(ch: Checks, st: State, tx: Tx, policy: Bytes)
    requires policy in st.byPolicy
    ensures policy in Deliver(ch, st, tx).byPolicy && Deliver(ch, st, tx).byPolicy[policy] == st.byPolicy[policy]
  {
    hide ValidateCreate; hide ValidateUpdate;
  }

  /**
   * Once granted, control of an ecosystem is kept by the same signer through
   * every later transaction, from any state.
   */
  lemma {:induction false} OwnershipIsStable(ch: Checks, ecosystems: map<uint64, uint64>, st: State, ecosystemId: uint64, signer: Bytes, txs: seq<Tx>)
    requires CheckSchemaOwnership(ecosystems, st, ecosystemId, signer).None?
    ensures CheckSchemaOwnership(ecosystems, Run(ch, st, txs), ecosystemId, signer).None?
    decreases |txs|
  {
    hide Deliver;
    if txs != [] {
      DeliverKeepsAddresses(ch, st, txs[0], signer);
      OwnershipIsStable(ch, ecosystems, Deliver(ch, st, txs[0]), ecosystemId, signer, txs[1..]);
    }
  }
}
