/** What each transaction of the registry does and when it is refused, told by the table and the message alone. */
module Outcomes {
  import opened Basics
  import opened Codec
  import opened Messages
  import opened Languages
  import opened Registry

  // ---------- the lookups ----------

  /** In a sound state an index lookup answers a question about the table. */
  lemma GatesAreExact(st: State, did: Bytes, policy: Bytes)
    requires Inv(st)
    ensures did in st.byDid <==> exists i :: i in st.table && st.table[i].did == did
    ensures policy in st.byPolicy <==> exists i :: i in st.table && st.table[i].policyAddress == policy
    ensures forall i, j :: i in st.table && j in st.table && st.table[i].did == st.table[j].did ==> i == j
  {
    hide CounterIsMax;
    if did in st.byDid { assert st.table[st.byDid[did]].did == did; }
    if policy in st.byPolicy { assert st.table[st.byPolicy[policy]].policyAddress == policy; }
  }

  function ByPolicy(st: State, policy: Bytes): Option<Corporation> {
    if policy in st.byPolicy && st.byPolicy[policy] in st.table then Some(st.table[st.byPolicy[policy]]) else None
  }

  function ByDid(st: State, did: Bytes): Option<Corporation> {
    if did in st.byDid && st.byDid[did] in st.table then Some(st.table[st.byDid[did]]) else None
  }

  /** Some corporation has this DID, this address. */
  ghost predicate HasDid(st: State, did: Bytes) {
    exists i :: i in st.table && st.table[i].did == did
  }

  ghost predicate HasAddress(st: State, policy: Bytes) {
    exists i :: i in st.table && st.table[i].policyAddress == policy
  }

  // ---------- creation ----------

  ghost predicate MemberOk(ch: Checks, m: Member) {
    m.address != [] && ch.bech32(m.address) && m.weight != []
  }

  lemma {:induction false} MembersChecked(ch: Checks, ms: seq<Member>)
    ensures CheckMembers(ch, ms).None? <==> forall m :: m in ms ==> MemberOk(ch, m)
    decreases |ms|
  {
    if ms != [] {
      MembersChecked(ch, ms[1..]);
      assert forall m :: m in ms <==> m == ms[0] || m in ms[1..];
      assert ms[0] in ms;
      if CheckMembers(ch, ms).None? {
        assert MemberOk(ch, ms[0]);
        assert forall m :: m in ms ==> MemberOk(ch, m);
      } else {
        assert !MemberOk(ch, ms[0]) || CheckMembers(ch, ms[1..]).Some?;
      }
    }
  }

  /** What the stateless gates let through, with nothing said of their order. */
  ghost predicate WellFormedCreate(ch: Checks, m: MsgCreateCorporation) {
    && m.signer != [] && ch.bech32(m.signer)
    && m.members != [] && (forall k :: k in m.members ==> MemberOk(ch, k))
    && m.decisionPolicy.Some?
    && IsValidDID(m.did) && IsValidBCP47(m.language)
    && m.docUrl != [] && ch.url(m.docUrl)
    && IsValidDigestSRI(m.docDigestSri)
  }

  lemma NothingIsInvalid()
    ensures !IsValidDID([]) && !IsValidBCP47([]) && !IsValidDigestSRI([])
  {
    DidOnePass([]);
    SriLanguage([]);
  }

  ghost predicate SignerOk(ch: Checks, m: MsgCreateCorporation) {
    m.signer != [] && ch.bech32(m.signer)
  }

  ghost predicate MembersOk(ch: Checks, m: MsgCreateCorporation) {
    m.members != [] && forall k :: k in m.members ==> MemberOk(ch, k)
  }

  /** Which stateless gate a message fails: the first one in this order. */
  lemma CreateIsInvalid(ch: Checks, m: MsgCreateCorporation)
    ensures var e := ValidateCreate(ch, m);
            && (!SignerOk(ch, m) ==> e == Some(InvalidAddress))
            && (SignerOk(ch, m) && m.members == [] ==> e == Some(InvalidMembers))
            && (SignerOk(ch, m) && m.members != [] && !MembersOk(ch, m) ==> e == Some(InvalidMembers) || e == Some(InvalidAddress))
            && (SignerOk(ch, m) && MembersOk(ch, m) ==>
                  if m.decisionPolicy.None? then e == Some(InvalidDecisionPolicy)
                  else if !IsValidDID(m.did) then e == Some(InvalidDID)
                  else if !IsValidBCP47(m.language) then e == Some(InvalidLanguage)
                  else if m.docUrl == [] || !ch.url(m.docUrl) then e == Some(InvalidURL)
                  else if !IsValidDigestSRI(m.docDigestSri) then e == Some(InvalidDigestSRI)
                  else e == None)
    ensures ValidateCreate(ch, m).None? <==> WellFormedCreate(ch, m)
    ensures ValidateCreate(ch, m).Some? ==>
            ValidateCreate(ch, m).value !in {DIDAlreadyExists, GroupFailed, PolicyAddressAlreadyBound, SeedFailed}
  {
    hide IsValidDID; hide IsValidBCP47; hide IsValidDigestSRI; hide CheckMembers; hide MemberOk;
    NothingIsInvalid();
    MembersChecked(ch, m.members);
    MemberErrors(ch, m.members);
  }

  lemma {:induction false} MemberErrors(ch: Checks, ms: seq<Member>)
    ensures CheckMembers(ch, ms).Some? ==> CheckMembers(ch, ms).value in {InvalidAddress, InvalidMembers}
    decreases |ms|
  {
    if ms != [] { MemberErrors(ch, ms[1..]); }
  }

  /** The first bad member decides: an address that does not parse, or a missing address or weight. */
  lemma {:induction false} FirstBadMember(ch: Checks, ms: seq<Member>, k: nat)
    requires k < |ms| && !MemberOk(ch, ms[k]) && forall j :: 0 <= j < k ==> MemberOk(ch, ms[j])
    ensures CheckMembers(ch, ms) == Some(if ms[k].address != [] && !ch.bech32(ms[k].address) then InvalidAddress else InvalidMembers)
    decreases k
  {
    if k > 0 {
      assert MemberOk(ch, ms[0]);
      FirstBadMember(ch, ms[1..], k - 1);
    }
  }

  /**
   * The outcome of a creation. It succeeds exactly when its message is well
   * formed, no corporation holds its DID, the group module, asked to make the
   * policy its own admin, answers with an address no corporation holds, and
   * the first framework version can be seeded under the next id; and each
   * refusal names the first of these that fails.
   */
  lemma CreateOutcome(ch: Checks, st: State, m: MsgCreateCorporation, group: GroupRequest -> Option<Bytes>, seed: SeedRequest -> bool, now: int)
    requires Inv(st)
    ensures var r := Attempt(ch, st, Tx(now, CreateOp(m, group, seed)));
            var asked := group(GroupRequest(m.signer, m.members, m.groupMetadata, m.groupPolicyMetadata, true, m.decisionPolicy));
            var seeded := Current(st) < U64 - 1 && seed(SeedRequest(Current(st) + 1, m.language, m.docUrl, m.docDigestSri));
            if !WellFormedCreate(ch, m) then r.Fail? && r.err !in {DIDAlreadyExists, GroupFailed, PolicyAddressAlreadyBound, SeedFailed}
            else if HasDid(st, m.did) then r == Fail(DIDAlreadyExists)
            else if asked.None? then r == Fail(GroupFailed)
            else if HasAddress(st, asked.value) then r == Fail(PolicyAddressAlreadyBound)
            else if !seeded then r == Fail(SeedFailed)
            else r.Ok?
  {
    hide Inv; hide ValidateCreate; hide WellFormedCreate; hide Created;
    CreateIsInvalid(ch, m);
    var asked := group(RequestOf(m));
    GatesAreExact(st, m.did, if asked.Some? then asked.value else []);
  }

  /** So at the last id a creation that passes every other gate fails to seed. */
  lemma LastIdFailsToSeed(ch: Checks, st: State, m: MsgCreateCorporation, group: GroupRequest -> Option<Bytes>, seed: SeedRequest -> bool, now: int)
    requires Inv(st) && Current(st) == U64 - 1 && WellFormedCreate(ch, m) && !HasDid(st, m.did)
    requires group(RequestOf(m)).Some? && !HasAddress(st, group(RequestOf(m)).value)
    ensures Attempt(ch, st, Tx(now, CreateOp(m, group, seed))) == Fail(SeedFailed)
  {
    hide Inv; hide Attempt; hide WellFormedCreate; hide HasDid; hide HasAddress;
    CreateOutcome(ch, st, m, group, seed, now);
  }

  lemma CreatedAddresses(st: State, m: MsgCreateCorporation, policy: Bytes, now: int)
    requires PoliciesExact(st) && NextID(st) !in st.table && policy !in st.byPolicy
    ensures var st' := Created(st, m, policy, now);
            forall p :: ByPolicy(st', p) == if p == policy then Some(st'.table[NextID(st)]) else ByPolicy(st, p)
  {
  }

  lemma CreatedDids(st: State, m: MsgCreateCorporation, policy: Bytes, now: int)
    requires DidsExact(st) && NextID(st) !in st.table && m.did !in st.byDid
    ensures var st' := Created(st, m, policy, now);
            forall d :: ByDid(st', d) == if d == m.did then Some(st'.table[NextID(st)]) else ByDid(st, d)
  {
  }

  /**
   * After a creation the new address, the group module's answer, and the new
   * DID both find one and the same new corporation, under an id never used;
   * every other address and DID finds what it found before.
   */
  lemma CreationMeans(ch: Checks, st: State, m: MsgCreateCorporation, group: GroupRequest -> Option<Bytes>, seed: SeedRequest -> bool, now: int)
    requires Inv(st) && Attempt(ch, st, Tx(now, CreateOp(m, group, seed))).Ok?
    ensures var st' := Deliver(ch, st, Tx(now, CreateOp(m, group, seed)));
            var asked := group(GroupRequest(m.signer, m.members, m.groupMetadata, m.groupPolicyMetadata, true, m.decisionPolicy));
            && asked.Some? && Current(st) < U64 - 1
            && var policy := asked.value;
            var co := Corporation(Current(st) + 1, policy, m.did, now, now, m.language, 1);
            && ByPolicy(st, policy).None? && ByDid(st, m.did).None? && co.id !in st.table
            && (forall p :: ByPolicy(st', p) == if p == policy then Some(co) else ByPolicy(st, p))
            && (forall d :: ByDid(st', d) == if d == m.did then Some(co) else ByDid(st, d))
            && (forall i :: i in st'.table <==> i in st.table || i == co.id)
  {
    hide ValidateCreate; hide DidsExact; hide PoliciesExact;
    var policy := group(RequestOf(m)).value;
    CreatedPersists(st, m, policy, now);
    CreatedAddresses(st, m, policy, now);
    CreatedDids(st, m, policy, now);
  }

  // ---------- rotation ----------

  ghost predicate WellFormedUpdate(ch: Checks, m: MsgUpdateCorporation) {
    && m.corporation != [] && ch.bech32(m.corporation)
    && m.operator != [] && ch.bech32(m.operator)
    && IsValidDID(m.did)
  }

  lemma UpdateIsInvalid(ch: Checks, m: MsgUpdateCorporation)
    ensures var e := ValidateUpdate(ch, m);
            if m.corporation == [] || !ch.bech32(m.corporation) || m.operator == [] || !ch.bech32(m.operator) then e == Some(InvalidAddress)
            else if !IsValidDID(m.did) then e == Some(InvalidDID)
            else e == None
  {
    hide IsValidDID;
    NothingIsInvalid();
  }

  /** Another corporation than the one with this address has this DID. */
  ghost predicate HeldByAnother(st: State, policy: Bytes, did: Bytes) {
    exists j :: j in st.table && st.table[j].policyAddress != policy && st.table[j].did == did
  }

  /**
   * The outcome of a rotation: it succeeds exactly when its message is well
   * formed, some corporation has the address, the operator holds a grant from
   * it, and no other corporation holds the DID; each refusal names the first
   * of these that fails, and the inconsistency error is never seen.
   */
  lemma UpdateOutcome(ch: Checks, st: State, m: MsgUpdateCorporation, grant: (Bytes, Bytes) -> bool, now: int)
    requires Inv(st)
    ensures var r := Attempt(ch, st, Tx(now, UpdateOp(m, grant)));
            if !WellFormedUpdate(ch, m) then r == Fail(InvalidAddress) || r == Fail(InvalidDID)
            else if !HasAddress(st, m.corporation) then r == Fail(CorporationNotRegistered)
            else if !grant(m.corporation, m.operator) then r == Fail(NotAuthorized)
            else if HeldByAnother(st, m.corporation, m.did) then r == Fail(DIDAlreadyExists)
            else r.Ok?
  {
    hide ValidateUpdate; hide CounterIsMax; hide Rotated; hide IsValidDID;
    UpdateIsInvalid(ch, m);
    GatesAreExact(st, m.did, m.corporation);
    if m.corporation in st.byPolicy {
      HolderOfDid(st, m.corporation, m.did);
    }
  }

  /** In a sound state the DID index tells whether another corporation holds a DID. */
  lemma HolderOfDid(st: State, policy: Bytes, did: Bytes)
    requires Inv(st) && policy in st.byPolicy
    ensures HeldByAnother(st, policy, did) <==> did in st.byDid && did != st.table[st.byPolicy[policy]].did
  {
    hide CounterIsMax;
    if did in st.byDid { assert st.table[st.byDid[did]].did == did; }
  }

  /**
   * A successful rotation touches one row, in two fields; the old DID becomes
   * free, the new one names the same corporation, every other entry stays.
   */
  lemma RotationMeans(ch: Checks, st: State, m: MsgUpdateCorporation, grant: (Bytes, Bytes) -> bool, now: int, id: uint64)
    requires Inv(st) && Attempt(ch, st, Tx(now, UpdateOp(m, grant))).Ok?
    requires id in st.table && st.table[id].policyAddress == m.corporation
    ensures var st' := Deliver(ch, st, Tx(now, UpdateOp(m, grant)));
            && id in st'.table && st'.table[id].did == m.did && m.did in st'.byDid && st'.byDid[m.did] == id
            && (forall i :: i in st'.table <==> i in st.table)
            && (forall i :: i in st.table && i != id ==> st'.table[i] == st.table[i])
            && st'.table[id].(did := st.table[id].did, modified := st.table[id].modified) == st.table[id]
            && (forall d :: d in st'.byDid <==> d == m.did || (d in st.byDid && d != st.table[id].did))
            && (forall d :: d in st.byDid && d in st'.byDid ==> st'.byDid[d] == st.byDid[d])
            && st'.byPolicy == st.byPolicy && st'.counter == st.counter
            && st'.table[id].modified == (if m.did == st.table[id].did then st.table[id].modified else now)
  {
    hide ValidateUpdate; hide CounterIsMax;
  }

  /** Rotating to a new DID and back leaves nothing behind but the modification time. */
  lemma RotateBack(st: State, id: uint64, did: Bytes, now: int, later: int)
    requires Inv(st) && id in st.table && did !in st.byDid
    ensures var co := st.table[id];
            var st' := Rotated(st, co, did, now);
            id in st'.table && Rotated(st', st'.table[id], co.did, later) == st.(table := st.table[id := co.(modified := later)])
  {
    hide CounterIsMax; hide PoliciesExact;
    var co := st.table[id];
    var st' := Rotated(st, co, did, now);
    var st'' := Rotated(st', st'.table[id], co.did, later);
    assert st''.byDid == st.byDid;
    assert st''.table == st.table[id := co.(modified := later)];
  }

  // ---------- version switch ----------

  /** A corporation after a version switch of the row `id`. */
  function Switched(co: Option<Corporation>, id: uint64, version: uint32, now: int): Option<Corporation> {
    if co.Some? && co.value.id == id then Some(co.value.(activeVersion := version, modified := now)) else co
  }

  /** Whatever way a corporation is looked up, a version switch shows on that one corporation and on no other. */
  lemma SetActiveMeans(ch: Checks, st: State, id: uint64, version: uint32, now: int)
    requires Inv(st)
    ensures var r, st' := Attempt(ch, st, Tx(now, SetActiveOp(id, version))), Deliver(ch, st, Tx(now, SetActiveOp(id, version)));
            if id in st.table then
              && r.Ok?
              && (forall p :: ByPolicy(st', p) == Switched(ByPolicy(st, p), id, version, now))
              && (forall d :: ByDid(st', d) == Switched(ByDid(st, d), id, version, now))
              && (forall i :: i in st'.table <==> i in st.table)
              && Current(st') == Current(st)
            else
              r == Fail(CorporationNotFound) && st' == st
  {
    hide DidsExact; hide PoliciesExact; hide CounterIsMax;
    if id in st.table { assert st.table[id].id == id; }
  }
}
