/** The x/co keeper: the methods that write the registry's collections in place. */
module Keeper {
  import opened Basics
  import opened Messages
  import opened Languages
  import opened Order
  import opened Registry
  import opened Genesis

  class CorporationKeeper {
    var table: map<uint64, Corporation>
    var byPolicy: map<Bytes, uint64>
    var byDid: map<Bytes, uint64>
    var counter: map<string, uint64>

    function Abs(): State
      reads this
    {
      State(table, byPolicy, byDid, counter)
    }

    constructor ()
      ensures Abs() == EMPTY
    {
      table, byPolicy, byDid, counter := map[], map[], map[], map[];
    }

    method GetNextID(entityType: string) returns (next: uint64)
      modifies this`counter
      ensures next == ((if entityType in old(counter) then old(counter)[entityType] else 0) + 1) % U64
      ensures counter == old(counter)[entityType := next]
    {
      var current: uint64 := 0;
      if entityType in counter { current := counter[entityType]; }
      next := (current + 1) % U64;
      counter := counter[entityType := next];
    }

    /** On failure the collections may be half written; `Deliver` puts them back. */
    method CreateCorporation(ch: Checks, msg: MsgCreateCorporation, group: GroupRequest -> Option<Bytes>, seed: SeedRequest -> bool, now: int)
      returns (r: Outcome<(uint64, Bytes)>)
      modifies this
      ensures match Create(ch, old(Abs()), msg, group, seed, now)
              case Ok(st) =>
                var asked := group(GroupRequest(msg.signer, msg.members, msg.groupMetadata, msg.groupPolicyMetadata, true, msg.decisionPolicy));
                Abs() == st && asked.Some? && r == Ok((NextID(old(Abs())), asked.value))
              case Fail(e) => r == Fail(e)
    {
      hide ValidateCreate;
      var invalid := ValidateCreate(ch, msg);
      if invalid.Some? { return Fail(invalid.value); }
      if msg.did in byDid { return Fail(DIDAlreadyExists); }
      var groupMembers: seq<Member> := [];
      for i := 0 to |msg.members|
        invariant groupMembers == msg.members[..i]
      {
        var m := msg.members[i];
        groupMembers := groupMembers + [Member(m.address, m.weight, m.metadata)];
      }
      var policy := group(GroupRequest(msg.signer, groupMembers, msg.groupMetadata, msg.groupPolicyMetadata, true, msg.decisionPolicy));
      assert groupMembers == msg.members;
      if policy.None? { return Fail(GroupFailed); }
      if policy.value in byPolicy { return Fail(PolicyAddressAlreadyBound); }
      var coID := GetNextID("co");
      var co := Corporation(coID, policy.value, msg.did, now, now, msg.language, 1);
      table := table[co.id := co];
      byPolicy := byPolicy[policy.value := co.id];
      byDid := byDid[msg.did := co.id];
      if !Seeds(seed, SeedRequest(co.id, msg.language, msg.docUrl, msg.docDigestSri)) { return Fail(SeedFailed); }
      return Ok((co.id, policy.value));
    }

    method UpdateCorporation(ch: Checks, msg: MsgUpdateCorporation, grant: (Bytes, Bytes) -> bool, now: int) returns (r: Outcome<()>)
      modifies this
      ensures match Update(ch, old(Abs()), msg, grant, now)
              case Ok(st) => Abs() == st && r == Ok(())
              case Fail(e) => r == Fail(e)
    {
      hide ValidateUpdate;
      var invalid := ValidateUpdate(ch, msg);
      if invalid.Some? { return Fail(invalid.value); }
      if msg.corporation !in byPolicy { return Fail(CorporationNotRegistered); }
      var coID := byPolicy[msg.corporation];
      if coID !in table { return Fail(StoreInconsistency); }
      var co := table[coID];
      if !grant(msg.corporation, msg.operator) { return Fail(NotAuthorized); }
      if msg.did == co.did { return Ok(()); }
      if msg.did in byDid { return Fail(DIDAlreadyExists); }
      byDid := byDid - {co.did};
      byDid := byDid[msg.did := co.id];
      co := co.(did := msg.did);
      co := co.(modified := now);
      table := table[co.id := co];
      return Ok(());
    }

    method SetActiveVersion(corporationID: uint64, newVersion: uint32, now: int) returns (r: Outcome<()>)
      modifies this
      ensures match SetActive(old(Abs()), corporationID, newVersion, now)
              case Ok(st) => Abs() == st && r == Ok(())
              case Fail(e) => r == Fail(e) && Abs() == old(Abs())
    {
      if corporationID !in table { return Fail(CorporationNotFound); }
      var co := table[corporationID];
      co := co.(activeVersion := newVersion);
      co := co.(modified := now);
      table := table[co.id := co];
      return Ok(());
    }

    /** One transaction; any error rolls back every write it made. */
    method Deliver(ch: Checks, tx: Tx) returns (ok: bool)
      modifies this
      ensures Abs() == Registry.Deliver(ch, old(Abs()), tx)
      ensures ok <==> Attempt(ch, old(Abs()), tx).Ok?
    {
      hide Create; hide Update; hide SetActive;
      var table0, byPolicy0, byDid0, counter0 := table, byPolicy, byDid, counter;
      match tx.op {
        case CreateOp(m, group, seed) =>
          var r := CreateCorporation(ch, m, group, seed, tx.now);
          ok := r.Ok?;
        case UpdateOp(m, grant) =>
          var r := UpdateCorporation(ch, m, grant, tx.now);
          ok := r.Ok?;
        case SetActiveOp(id, version) =>
          var r := SetActiveVersion(id, version, tx.now);
          ok := r.Ok?;
      }
      if !ok {
        table, byPolicy, byDid, counter := table0, byPolicy0, byDid0, counter0;
      }
    }

    method InitGenesis(gs: GenesisState)
      modifies this
      ensures Abs() == Init(old(Abs()), gs.corporations)
    {
      var maxID: uint64 := 0;
      var cs := gs.corporations;
      for k := 0 to |cs|
        invariant Abs() == AddRows(old(Abs()), cs[..k])
        invariant maxID == MaxId(cs[..k])
      {
        var co := cs[k];
        assert cs[..k + 1][..k] == cs[..k];
        assert Ids(cs[..k + 1]) == Ids(cs[..k]) + [co.id];
        MaxSnoc(Ids(cs[..k]), co.id);
        table := table[co.id := co];
        byPolicy := byPolicy[co.policyAddress := co.id];
        byDid := byDid[co.did := co.id];
        if co.id > maxID { maxID := co.id; }
      }
      assert cs[..|cs|] == cs;
      counter := counter["co" := maxID];
    }

    /** The store is walked in ascending key order. */
    method ExportGenesis() returns (gs: GenesisState)
      ensures gs == GenesisState(Params, Export(Abs()))
    {
      hide Increasing; hide Export; hide Ascending;
      var corporations: seq<Corporation> := [];
      var keys := Ascending(table.Keys);
      ghost var all := Export(Abs());
      ExportRows(Abs());
      for k := 0 to |keys|
        invariant corporations == all[..k]
      {
        assert all[..k] + [all[k]] == all[..k + 1];
        corporations := corporations + [table[keys[k]]];
      }
      assert all[..|keys|] == all;
      return GenesisState(Params, corporations);
    }
  }
}
