/** The corporation registry of x/co as a state machine over its four collections. */
module Registry {
  import opened Basics
  import opened Codec
  import opened Messages
  import opened Languages

  datatype State = State(
    table: map<uint64, Corporation>,
    byPolicy: map<Bytes, uint64>,
    byDid: map<Bytes, uint64>,
    counter: map<string, uint64>)

  datatype Err =
    | InvalidAddress | InvalidMembers | InvalidDecisionPolicy | InvalidDID | InvalidLanguage | InvalidURL
    | InvalidDigestSRI | DIDAlreadyExists | GroupFailed | PolicyAddressAlreadyBound | SeedFailed
    | CorporationNotRegistered | StoreInconsistency | NotAuthorized | CorporationNotFound | InvalidTimestamp

  datatype Outcome<+T> = Ok(value: T) | Fail(err: Err)

  /** The address and URL parsers this module calls. */
  datatype Checks = Checks(bech32: Bytes -> bool, url: Bytes -> bool)

  // ---------- ValidateBasic ----------

  function Unless(ok: bool, e: Err): Option<Err> {
    if ok then None else Some(e)
  }

  function CheckMembers(ch: Checks, ms: seq<Member>): Option<Err> {
    if ms == [] then None
    else if ms[0].address == [] then Some(InvalidMembers)
    else if !ch.bech32(ms[0].address) then Some(InvalidAddress)
    else if ms[0].weight == [] then Some(InvalidMembers)
    else CheckMembers(ch, ms[1..])
  }

  function ValidateCreate(ch: Checks, m: MsgCreateCorporation): Option<Err> {
    if m.signer == [] || !ch.bech32(m.signer) then Some(InvalidAddress)
    else if m.members == [] then Some(InvalidMembers)
    else if CheckMembers(ch, m.members).Some? then CheckMembers(ch, m.members)
    else if m.decisionPolicy.None? then Some(InvalidDecisionPolicy)
    else if m.did == [] || !IsValidDID(m.did) then Some(InvalidDID)
    else if m.language == [] || !IsValidBCP47(m.language) then Some(InvalidLanguage)
    else if m.docUrl == [] || !ch.url(m.docUrl) then Some(InvalidURL)
    else Unless(m.docDigestSri != [] && IsValidDigestSRI(m.docDigestSri), InvalidDigestSRI)
  }

  function ValidateUpdate(ch: Checks, m: MsgUpdateCorporation): Option<Err> {
    if m.corporation == [] || !ch.bech32(m.corporation) then Some(InvalidAddress)
    else if m.operator == [] || !ch.bech32(m.operator) then Some(InvalidAddress)
    else Unless(m.did != [] && IsValidDID(m.did), InvalidDID)
  }

  // ---------- transactions ----------

  /** The call to x/group; the policy is always made its own admin. */
  datatype GroupRequest = GroupRequest(
    admin: Bytes, members: seq<Member>, groupMetadata: Bytes, groupPolicyMetadata: Bytes,
    policyAsAdmin: bool, decisionPolicy: Option<Any>)

  function RequestOf(m: MsgCreateCorporation): GroupRequest {
    GroupRequest(m.signer, m.members, m.groupMetadata, m.groupPolicyMetadata, true, m.decisionPolicy)
  }

  /** The call to x/gf that seeds the first governance framework version. */
  datatype SeedRequest = SeedRequest(id: uint64, language: Bytes, docUrl: Bytes, docDigestSri: Bytes)

  /**
   * A transaction with the answers of the modules it calls: the policy address
   * x/group allocates, whether x/gf seeds, whether x/de grants the operator.
   */
  datatype Op =
    | CreateOp(msg: MsgCreateCorporation, group: GroupRequest -> Option<Bytes>, seed: SeedRequest -> bool)
    | UpdateOp(upd: MsgUpdateCorporation, grant: (Bytes, Bytes) -> bool)
    | SetActiveOp(id: uint64, version: uint32)

  datatype Tx = Tx(now: int, op: Op)

  function Current(st: State): uint64 {
    if "co" in st.counter then st.counter["co"] else 0
  }

  /** uint64 addition: past the largest id the next one is 0. */
  function NextID(st: State): uint64 {
    (Current(st) + 1) % U64
  }

  function Created(st: State, m: MsgCreateCorporation, policy: Bytes, now: int): State {
    var id := NextID(st);
    var co := Corporation(id, policy, m.did, now, now, m.language, 1);
    State(st.table[id := co], st.byPolicy[policy := id], st.byDid[m.did := id], st.counter["co" := id])
  }

  /** x/gf seeds no corporation under id 0; whether it seeds another is its own matter. */
  predicate Seeds(seed: SeedRequest -> bool, r: SeedRequest) {
    r.id != 0 && seed(r)
  }

  function Create(ch: Checks, st: State, m: MsgCreateCorporation, group: GroupRequest -> Option<Bytes>, seed: SeedRequest -> bool, now: int): Outcome<State> {
    if ValidateCreate(ch, m).Some? then Fail(ValidateCreate(ch, m).value)
    else if m.did in st.byDid then Fail(DIDAlreadyExists)
    else
      var policy := group(RequestOf(m));
      if policy.None? then Fail(GroupFailed)
      else if policy.value in st.byPolicy then Fail(PolicyAddressAlreadyBound)
      else if !Seeds(seed, SeedRequest(NextID(st), m.language, m.docUrl, m.docDigestSri)) then Fail(SeedFailed)
      else Ok(Created(st, m, policy.value, now))
  }

  function Rotated(st: State, co: Corporation, did: Bytes, now: int): State {
    st.(byDid := (st.byDid - {co.did})[did := co.id],
        table := st.table[co.id := co.(did := did, modified := now)])
  }

  function Update(ch: Checks, st: State, m: MsgUpdateCorporation, grant: (Bytes, Bytes) -> bool, now: int): Outcome<State> {
    if ValidateUpdate(ch, m).Some? then Fail(ValidateUpdate(ch, m).value)
    else if m.corporation !in st.byPolicy then Fail(CorporationNotRegistered)
    else
      var id := st.byPolicy[m.corporation];
      if id !in st.table then Fail(StoreInconsistency)
      else if !grant(m.corporation, m.operator) then Fail(NotAuthorized)
      else if m.did == st.table[id].did then Ok(st)
      else if m.did in st.byDid then Fail(DIDAlreadyExists)
      else Ok(Rotated(st, st.table[id], m.did, now))
  }

  function SetActive(st: State, id: uint64, version: uint32, now: int): Outcome<State> {
    if id !in st.table then Fail(CorporationNotFound)
    else
      var co := st.table[id].(activeVersion := version, modified := now);
      Ok(st.(table := st.table[co.id := co]))
  }

  function Attempt(ch: Checks, st: State, tx: Tx): Outcome<State> {
    match tx.op
    case CreateOp(m, group, seed) => Create(ch, st, m, group, seed, tx.now)
    case UpdateOp(m, grant) => Update(ch, st, m, grant, tx.now)
    case SetActiveOp(id, version) => SetActive(st, id, version, tx.now)
  }

  /** A failed transaction leaves the state as it was. */
  function Deliver(ch: Checks, st: State, tx: Tx): State {
    match Attempt(ch, st, tx) case Ok(st') => st' case Fail(_) => st
  }

  function Run(ch: Checks, st: State, txs: seq<Tx>): State
    decreases |txs|
  {
    if txs == [] then st else Run(ch, Deliver(ch, st, txs[0]), txs[1..])
  }

  predicate Creates(ch: Checks, st: State, tx: Tx) {
    tx.op.CreateOp? && Attempt(ch, st, tx).Ok?
  }

  /** The ids a run hands out, in order. */
  function Allocated(ch: Checks, st: State, txs: seq<Tx>): seq<uint64>
    decreases |txs|
  {
    if txs == [] then []
    else (if Creates(ch, st, txs[0]) then [NextID(st)] else []) + Allocated(ch, Deliver(ch, st, txs[0]), txs[1..])
  }

  // ---------- the invariant ----------

  ghost predicate RowsUnderTheirIds(st: State) {
    forall i :: i in st.table ==> i > 0 && st.table[i].id == i
  }

  /** `byDid[d] == i` exactly when row `i` has DID `d`. */
  ghost predicate DidsExact(st: State) {
    && (forall i :: i in st.table ==> st.table[i].did in st.byDid && st.byDid[st.table[i].did] == i)
    && (forall d :: d in st.byDid ==> st.byDid[d] in st.table && st.table[st.byDid[d]].did == d)
  }

  /** `byPolicy[p] == i` exactly when row `i` has policy address `p`. */
  ghost predicate PoliciesExact(st: State) {
    && (forall i :: i in st.table ==> st.table[i].policyAddress in st.byPolicy && st.byPolicy[st.table[i].policyAddress] == i)
    && (forall p :: p in st.byPolicy ==> st.byPolicy[p] in st.table && st.table[st.byPolicy[p]].policyAddress == p)
  }

  ghost predicate CounterIsMax(st: State) {
    && st.counter.Keys == {"co"}
    && (forall i :: i in st.table ==> i <= Current(st))
    && (Current(st) == 0 || Current(st) in st.table)
  }

  ghost predicate Inv(st: State) {
    RowsUnderTheirIds(st) && DidsExact(st) && PoliciesExact(st) && CounterIsMax(st)
  }

  /** A creation keeps the invariant exactly when the counter is not at its largest value. */
  lemma CreateKeeps(st: State, m: MsgCreateCorporation, policy: Bytes, now: int)
    requires Inv(st) && m.did !in st.byDid && policy !in st.byPolicy
    ensures Inv(Created(st, m, policy, now)) <==> Current(st) < U64 - 1
  {
    var st', id := Created(st, m, policy, now), NextID(st);
    assert id in st'.table;
    if Current(st) < U64 - 1 {
      assert id !in st.table;
    }
  }

  lemma RotateDids(st: State, id: uint64, did: Bytes, now: int)
    requires RowsUnderTheirIds(st) && DidsExact(st) && id in st.table && did !in st.byDid
    ensures DidsExact(Rotated(st, st.table[id], did, now))
  {
    var st' := Rotated(st, st.table[id], did, now);
    assert forall i :: i in st'.table <==> i in st.table;
    assert forall i :: i in st.table ==> st'.table[i].did == if i == id then did else st.table[i].did;
  }

  lemma RotateKeeps(st: State, id: uint64, did: Bytes, now: int)
    requires Inv(st) && id in st.table && did !in st.byDid
    ensures Inv(Rotated(st, st.table[id], did, now))
  {
    RotateDids(st, id, did, now);
    hide DidsExact;
    var st' := Rotated(st, st.table[id], did, now);
    assert st'.table.Keys == st.table.Keys;
    assert PoliciesExact(st') by {
      hide CounterIsMax;
      assert forall i :: i in st.table ==> st'.table[i].policyAddress == st.table[i].policyAddress;
    }
  }

  lemma UpdateKeeps(ch: Checks, st: State, m: MsgUpdateCorporation, grant: (Bytes, Bytes) -> bool, now: int)
    requires Inv(st) && Update(ch, st, m, grant, now).Ok?
    ensures Inv(Update(ch, st, m, grant, now).value)
  {
    hide ValidateUpdate; hide Inv; hide Rotated;
    var id := st.byPolicy[m.corporation];
    if m.did != st.table[id].did {
      RotateKeeps(st, id, m.did, now);
    }
  }

  lemma SetActiveKeeps(st: State, id: uint64, version: uint32, now: int)
    requires Inv(st) && id in st.table
    ensures Inv(SetActive(st, id, version, now).value)
  {
    var st' := SetActive(st, id, version, now).value;
    assert forall i :: i in st'.table ==> st'.table[i].did == st.table[i].did && st'.table[i].policyAddress == st.table[i].policyAddress;
  }

  /** A creation that succeeds hands out the next id: never 0, so never past the last one. */
  lemma CounterMoves(ch: Checks, st: State, tx: Tx)
    ensures Creates(ch, st, tx) ==> Current(st) < U64 - 1 && NextID(st) == Current(st) + 1 == Current(Deliver(ch, st, tx))
    ensures !Creates(ch, st, tx) ==> Deliver(ch, st, tx).counter == st.counter
  {
    hide ValidateCreate; hide ValidateUpdate;
  }

  lemma DeliverKeeps(ch: Checks, st: State, tx: Tx)
    requires Inv(st)
    ensures Inv(Deliver(ch, st, tx))
  {
    CounterMoves(ch, st, tx);
    hide Inv; hide Created; hide ValidateCreate; hide ValidateUpdate; hide Current; hide NextID;
    match tx.op
    case CreateOp(m, group, seed) =>
      if Creates(ch, st, tx) { CreateKeeps(st, m, group(RequestOf(m)).value, tx.now); }
    case UpdateOp(m, grant) =>
      if Attempt(ch, st, tx).Ok? { UpdateKeeps(ch, st, m, grant, tx.now); }
    case SetActiveOp(id, version) =>
      if id in st.table { SetActiveKeeps(st, id, version, tx.now); }
  }

  /** Whatever is attempted, from any state, the counter grows by one for each creation and never wraps. */
  lemma {:induction false} IdsNeverWrap(ch: Checks, st: State, txs: seq<Tx>)
    ensures Current(Run(ch, st, txs)) == Current(st) + |Allocated(ch, st, txs)| < U64
    decreases |txs|
  {
    hide Deliver; hide Creates;
    if txs != [] {
      CounterMoves(ch, st, txs[0]);
      IdsNeverWrap(ch, Deliver(ch, st, txs[0]), txs[1..]);
    }
  }

  /**
   * Over every run of transactions, successful or failed, the indexes stay
   * exact inverses of the table and the counter its largest id.
   */
  lemma {:induction false} RunKeeps(ch: Checks, st: State, txs: seq<Tx>)
    requires Inv(st)
    ensures Inv(Run(ch, st, txs))
    ensures Current(Run(ch, st, txs)) == Current(st) + |Allocated(ch, st, txs)|
    decreases |txs|
  {
    IdsNeverWrap(ch, st, txs);
    hide Inv; hide Attempt; hide Deliver; hide Creates;
    if txs != [] {
      DeliverKeeps(ch, st, txs[0]);
      RunKeeps(ch, Deliver(ch, st, txs[0]), txs[1..]);
    }
  }

  // ---------- the last id ----------

  /** At the last id every creation fails and changes nothing. */
  lemma LastIdRefuses(ch: Checks, st: State, tx: Tx)
    requires Current(st) == U64 - 1 && tx.op.CreateOp?
    ensures Attempt(ch, st, tx).Fail? && Deliver(ch, st, tx) == st
  {
    hide ValidateCreate;
  }

  /** Every row lies under its own id, whatever else has gone wrong. */
  ghost predicate OwnIds(st: State) {
    forall i :: i in st.table ==> st.table[i].id == i
  }

  lemma DeliverGrows(ch: Checks, st: State, tx: Tx)
    requires OwnIds(st)
    ensures OwnIds(Deliver(ch, st, tx)) && st.table.Keys <= Deliver(ch, st, tx).table.Keys
  {
    hide ValidateCreate; hide ValidateUpdate;
  }

  /** No run removes a row or moves one away from its id. */
  lemma {:induction false} RunGrows(ch: Checks, st: State, txs: seq<Tx>)
    requires OwnIds(st)
    ensures OwnIds(Run(ch, st, txs)) && st.table.Keys <= Run(ch, st, txs).table.Keys
    decreases |txs|
  {
    hide OwnIds; hide Deliver;
    if txs != [] {
      DeliverGrows(ch, st, txs[0]);
      RunGrows(ch, Deliver(ch, st, txs[0]), txs[1..]);
    }
  }

  // ---------- identity over runs ----------

  /** Nothing about who a corporation is differs between two states. */
  ghost predicate SameIdentity(a: Corporation, b: Corporation) {
    a.id == b.id && a.policyAddress == b.policyAddress && a.created == b.created && a.language == b.language
  }

  /** Every row of `a` is still there in `b`, with its identity. */
  ghost predicate Persist(a: State, b: State) {
    forall i :: i in a.table ==> i in b.table && SameIdentity(a.table[i], b.table[i])
  }

  lemma PersistTransitive(a: State, b: State, c: State)
    requires Persist(a, b) && Persist(b, c)
    ensures Persist(a, c)
  {
  }

  lemma CreatedPersists(st: State, m: MsgCreateCorporation, policy: Bytes, now: int)
    requires Inv(st) && Current(st) < U64 - 1
    ensures Persist(st, Created(st, m, policy, now)) && NextID(st) !in st.table
    ensures Created(st, m, policy, now).table.Keys == st.table.Keys + {NextID(st)}
  {
    hide DidsExact; hide PoliciesExact;
  }

  lemma RotatedPersists(st: State, id: uint64, did: Bytes, now: int)
    requires RowsUnderTheirIds(st) && id in st.table
    ensures Persist(st, Rotated(st, st.table[id], did, now))
    ensures Rotated(st, st.table[id], did, now).table.Keys == st.table.Keys
  {
  }

  lemma SwitchedPersists(st: State, id: uint64, version: uint32, now: int)
    requires RowsUnderTheirIds(st) && id in st.table
    ensures Persist(st, SetActive(st, id, version, now).value)
    ensures SetActive(st, id, version, now).value.table.Keys == st.table.Keys
  {
  }

  lemma DeliverIdentity(ch: Checks, st: State, tx: Tx)
    requires Inv(st)
    ensures Persist(st, Deliver(ch, st, tx))
    ensures Deliver(ch, st, tx).table.Keys == st.table.Keys + (if Creates(ch, st, tx) then {NextID(st)} else {})
    ensures Creates(ch, st, tx) ==> NextID(st) !in st.table
  {
    assert Persist(st, st);
    CounterMoves(ch, st, tx);
    hide ValidateCreate; hide ValidateUpdate; hide Persist; hide Created; hide Rotated; hide SetActive;
    hide DidsExact; hide PoliciesExact; hide CounterIsMax;
    match tx.op
    case CreateOp(m, group, seed) =>
      if Creates(ch, st, tx) { CreatedPersists(st, m, group(RequestOf(m)).value, tx.now); }
    case UpdateOp(m, grant) =>
      if Attempt(ch, st, tx).Ok? { RotatedPersists(st, st.byPolicy[m.corporation], m.did, tx.now); }
    case SetActiveOp(id, version) =>
      SwitchedOrNot(st, id, version, tx.now);
  }

  lemma SwitchedOrNot(st: State, id: uint64, version: uint32, now: int)
    requires RowsUnderTheirIds(st)
    ensures var r := SetActive(st, id, version, now);
            r.Ok? ==> Persist(st, r.value) && r.value.table.Keys == st.table.Keys
  {
    hide Persist;
    if id in st.table { SwitchedPersists(st, id, version, now); }
  }

  /**
   * The ids handed out are consecutive from the counter on, so never reused;
   * existing rows stay, with the same id, address, creation time and language;
   * and no row appears that was not created.
   */
  lemma {:induction false} IdentityStable(ch: Checks, st: State, txs: seq<Tx>)
    requires Inv(st)
    ensures forall j :: 0 <= j < |Allocated(ch, st, txs)| ==> Allocated(ch, st, txs)[j] == Current(st) + 1 + j
    ensures Persist(st, Run(ch, st, txs))
    ensures forall i :: i in Run(ch, st, txs).table <==> i in st.table || Current(st) < i <= Current(st) + |Allocated(ch, st, txs)|
    decreases |txs|
  {
    hide Inv; hide Attempt; hide Deliver; hide Creates; hide NextID;
    if txs == [] {
    } else {
      hide Persist;
      var st' := Deliver(ch, st, txs[0]);
      DeliverKeeps(ch, st, txs[0]);
      CounterMoves(ch, st, txs[0]);
      DeliverIdentity(ch, st, txs[0]);
      IdentityStable(ch, st', txs[1..]);
      PersistTransitive(st, st', Run(ch, st', txs[1..]));
    }
  }
}
