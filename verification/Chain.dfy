/** The registry across a whole upgrade: export, marshal, unmarshal, validate, import. */
module Chain {
  import opened Basics
  import Codec
  import Buffers
  import opened Messages
  import opened Registry
  import opened Genesis
  import opened Keeper

  /** Export to genesis bytes; no bytes when a time has no encoding. */
  method ExportBytes(x: Codec.External, k: CorporationKeeper) returns (r: Option<array<Byte>>)
    requires |GenesisBytes(x, GenesisState(Params, Export(k.Abs())))| < I64
    ensures r.Some? <==> TimesEncodable(x, Export(k.Abs()))
    ensures r.Some? ==> fresh(r.value) && r.value[..] == GenesisBytes(x, GenesisState(Params, Export(k.Abs())))
  {
    hide Codec.Encode; hide Codec.Encodable; hide Export; hide OfGenesis;
    var gs := k.ExportGenesis();
    GenesisEncodable(x, gs);
    r := Buffers.Marshal(x, GENESIS, OfGenesis(gs));
  }

  /** Import from genesis bytes into a fresh keeper, unless they do not parse or do not validate. */
  method ImportBytes(x: Codec.External, dAtA: array<Byte>) returns (r: Option<CorporationKeeper>)
    requires dAtA.Length < I64
    ensures r.Some? <==> ParseGenesis(x, dAtA[..]).Some? && ValidGenesis(ParseGenesis(x, dAtA[..]).value.corporations)
    ensures r.Some? ==> fresh(r.value) && r.value.Abs() == Init(EMPTY, ParseGenesis(x, dAtA[..]).value.corporations)
  {
    SchemasAreGood();
    hide Codec.Decode; hide Codec.Zero; hide Codec.GoodSchema; hide Codec.WellTyped; hide ValidGenesis; hide Init;
    var struct := new Buffers.Struct(GENESIS, Codec.Zero(GENESIS));
    var ok := struct.Unmarshal(x, dAtA, 0, dAtA.Length);
    assert dAtA[0..dAtA.Length] == dAtA[..];
    if !ok { return None; }
    var gs := ToGenesis(Codec.Message(struct.vals));
    var err := Validate(gs);
    if err.Some? { return None; }
    var k := new CorporationKeeper();
    k.InitGenesis(gs);
    return Some(k);
  }

  ghost predicate RowsEncodable(x: Codec.External, st: State) {
    forall i :: i in st.table ==> x.encTime(st.table[i].created).Some? && x.encTime(st.table[i].modified).Some?
  }

  predicate BlocksEncodable(x: Codec.External, txs: seq<Tx>) {
    forall k :: 0 <= k < |txs| ==> x.encTime(txs[k].now).Some?
  }

  lemma DeliverEncodable(ch: Checks, x: Codec.External, st: State, tx: Tx)
    requires RowsEncodable(x, st) && x.encTime(tx.now).Some?
    ensures RowsEncodable(x, Deliver(ch, st, tx))
  {
    hide ValidateCreate; hide ValidateUpdate;
  }

  /** If the starting times and the block times have encodings, so has every time in a reachable state. */
  lemma {:induction false} RunEncodable(ch: Checks, x: Codec.External, st: State, txs: seq<Tx>)
    requires RowsEncodable(x, st) && BlocksEncodable(x, txs)
    ensures RowsEncodable(x, Run(ch, st, txs))
    decreases |txs|
  {
    hide RowsEncodable; hide Deliver;
    if txs != [] {
      DeliverEncodable(ch, x, st, txs[0]);
      RunEncodable(ch, x, Deliver(ch, st, txs[0]), txs[1..]);
    }
  }

  lemma {:induction false} InitEncodable(x: Codec.External, cs: seq<Corporation>)
    requires TimesEncodable(x, cs)
    ensures RowsEncodable(x, AddRows(EMPTY, cs))
    decreases |cs|
  {
    if cs != [] {
      InitEncodable(x, cs[..|cs| - 1]);
    }
  }

  lemma ExportEncodable(ch: Checks, x: Codec.External, cs: seq<Corporation>, txs: seq<Tx>)
    requires TimesEncodable(x, cs) && BlocksEncodable(x, txs)
    ensures TimesEncodable(x, Export(Run(ch, Init(EMPTY, cs), txs)))
  {
    hide AddRows; hide MaxId; hide Run; hide BlocksEncodable; hide Export;
    InitEncodable(x, cs);
    RunEncodable(ch, x, Init(EMPTY, cs), txs);
    ExportRows(Run(ch, Init(EMPTY, cs), txs));
  }

  /**
   * A chain started from a valid genesis and run through any transactions can
   * be exported to bytes, which parse, validate and import as the very same
   * registry.
   */
  lemma UpgradeIsLossless(ch: Checks, x: Codec.External, cs: seq<Corporation>, t: int, txs: seq<Tx>)
    requires Codec.LawfulTime(x) && TimesEncodable(x, cs) && BlocksEncodable(x, txs)
    requires ValidGenesis(cs) && (forall k :: 0 <= k < |cs| ==> cs[k].modified <= t) && Orderly(t, txs)
    requires |GenesisBytes(x, GenesisState(Params, Export(Run(ch, Init(EMPTY, cs), txs))))| < I64
    ensures var st := Run(ch, Init(EMPTY, cs), txs);
            var g := ParseGenesis(x, GenesisBytes(x, GenesisState(Params, Export(st))));
            g.Some? && ValidGenesis(g.value.corporations) && Init(EMPTY, g.value.corporations) == st
  {
    hide GenesisBytes; hide ParseGenesis; hide ValidGenesis; hide Run; hide Export; hide Init; hide Orderly;
    hide TimesEncodable; hide BlocksEncodable; hide Codec.LawfulTime;
    ExportEncodable(ch, x, cs, txs);
    GenesisClosure(ch, cs, t, txs);
    GenesisRoundTrip(x, GenesisState(Params, Export(Run(ch, Init(EMPTY, cs), txs))));
  }
}
