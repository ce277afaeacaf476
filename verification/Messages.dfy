/** The messages of x/co, each as the schema its generated code follows. */
module Messages {
  import opened Basics
  import opened Varint
  import opened Skip
  import opened Groups
  import opened Codec
  import opened CodecLaws

  datatype Member = Member(address: Bytes, weight: Bytes, metadata: Bytes)

  datatype MsgCreateCorporation = MsgCreateCorporation(
    signer: Bytes, members: seq<Member>, groupMetadata: Bytes, groupPolicyMetadata: Bytes,
    decisionPolicy: Option<Any>, did: Bytes, language: Bytes, docUrl: Bytes, docDigestSri: Bytes)

  datatype MsgCreateCorporationResponse = MsgCreateCorporationResponse(corporationId: uint64, policyAddress: Bytes)

  datatype MsgUpdateCorporation = MsgUpdateCorporation(corporation: Bytes, operator: Bytes, did: Bytes)

  /** Times are nanoseconds since Go's zero time. */
  datatype Corporation = Corporation(
    id: uint64, policyAddress: Bytes, did: Bytes, created: int, modified: int, language: Bytes, activeVersion: uint32)

  datatype QueryGetCorporationRequest = QueryGetCorporationRequest(
    corporationId: uint64, activeGfOnly: bool, preferredLanguage: Bytes)

  datatype QueryListCorporationsRequest = QueryListCorporationsRequest(
    modifiedAfter: Option<int>, activeGfOnly: bool, preferredLanguage: Bytes, responseMaxSize: uint32)

  /** The module has no parameters: an embedded message without fields. */
  datatype Params = Params

  datatype GenesisState = GenesisState(params: Params, corporations: seq<Corporation>)

  // ---------- schemas ----------

  const MEMBER := Schema([StrKind, StrKind, StrKind])

  const MSG_CREATE := Schema([
    StrKind, SubKind(MEMBER, true), StrKind, StrKind, AnyKind, StrKind, StrKind, StrKind, StrKind])

  const MSG_CREATE_RESPONSE := Schema([U64Kind, StrKind])

  const MSG_UPDATE := Schema([StrKind, StrKind, StrKind])

  const CORPORATION := Schema([U64Kind, StrKind, StrKind, TimeKind(false), TimeKind(false), StrKind, U32Kind])

  const GET_REQUEST := Schema([U64Kind, BoolKind, StrKind])

  const LIST_REQUEST := Schema([TimeKind(true), BoolKind, StrKind, U32Kind])

  const PARAMS := Schema([])

  const GENESIS := Schema([SubKind(PARAMS, false), SubKind(CORPORATION, true)])

  // ---------- records as messages and back ----------

  function OfMember(m: Member): (r: Message)
    ensures WellTyped(MEMBER, r)
  {
    Message([Str(m.address), Str(m.weight), Str(m.metadata)])
  }

  function ToMember(r: Message): Member
    requires WellTyped(MEMBER, r)
  {
    assert forall i :: 0 <= i < 3 ==> Fits(MEMBER.kinds[i], r.vals[i]);
    Member(r.vals[0].s, r.vals[1].s, r.vals[2].s)
  }

  function OfCreate(m: MsgCreateCorporation): (r: Message)
    ensures WellTyped(MSG_CREATE, r)
  {
    Message([
      Str(m.signer), Subs(seq(|m.members|, i requires 0 <= i < |m.members| => OfMember(m.members[i]))),
      Str(m.groupMetadata), Str(m.groupPolicyMetadata),
      Anys(if m.decisionPolicy.None? then [] else [m.decisionPolicy.value]),
      Str(m.did), Str(m.language), Str(m.docUrl), Str(m.docDigestSri)])
  }

  function ToCreate(r: Message): MsgCreateCorporation
    requires WellTyped(MSG_CREATE, r)
  {
    assert forall i :: 0 <= i < 9 ==> Fits(MSG_CREATE.kinds[i], r.vals[i]);
    var ms := r.vals[1].ms;
    MsgCreateCorporation(
      r.vals[0].s, seq(|ms|, i requires 0 <= i < |ms| => ToMember(ms[i])), r.vals[2].s, r.vals[3].s,
      if r.vals[4].anys == [] then None else Some(r.vals[4].anys[0]),
      r.vals[5].s, r.vals[6].s, r.vals[7].s, r.vals[8].s)
  }

  function OfResponse(m: MsgCreateCorporationResponse): (r: Message)
    ensures WellTyped(MSG_CREATE_RESPONSE, r)
  {
    Message([Num(m.corporationId), Str(m.policyAddress)])
  }

  function ToResponse(r: Message): MsgCreateCorporationResponse
    requires WellTyped(MSG_CREATE_RESPONSE, r)
  {
    assert forall i :: 0 <= i < 2 ==> Fits(MSG_CREATE_RESPONSE.kinds[i], r.vals[i]);
    MsgCreateCorporationResponse(r.vals[0].n, r.vals[1].s)
  }

  function OfUpdate(m: MsgUpdateCorporation): (r: Message)
    ensures WellTyped(MSG_UPDATE, r)
  {
    Message([Str(m.corporation), Str(m.operator), Str(m.did)])
  }

  function ToUpdate(r: Message): MsgUpdateCorporation
    requires WellTyped(MSG_UPDATE, r)
  {
    assert forall i :: 0 <= i < 3 ==> Fits(MSG_UPDATE.kinds[i], r.vals[i]);
    MsgUpdateCorporation(r.vals[0].s, r.vals[1].s, r.vals[2].s)
  }

  function OfCorporation(c: Corporation): (r: Message)
    ensures WellTyped(CORPORATION, r)
  {
    Message([Num(c.id), Str(c.policyAddress), Str(c.did), Times([c.created]), Times([c.modified]),
             Str(c.language), Num(c.activeVersion)])
  }

  function ToCorporation(r: Message): Corporation
    requires WellTyped(CORPORATION, r)
  {
    assert forall i :: 0 <= i < 7 ==> Fits(CORPORATION.kinds[i], r.vals[i]);
    Corporation(r.vals[0].n, r.vals[1].s, r.vals[2].s, r.vals[3].ts[0], r.vals[4].ts[0], r.vals[5].s, r.vals[6].n)
  }

  function OfGet(q: QueryGetCorporationRequest): (r: Message)
    ensures WellTyped(GET_REQUEST, r)
  {
    Message([Num(q.corporationId), Num(if q.activeGfOnly then 1 else 0), Str(q.preferredLanguage)])
  }

  function ToGet(r: Message): QueryGetCorporationRequest
    requires WellTyped(GET_REQUEST, r)
  {
    assert forall i :: 0 <= i < 3 ==> Fits(GET_REQUEST.kinds[i], r.vals[i]);
    QueryGetCorporationRequest(r.vals[0].n, r.vals[1].n != 0, r.vals[2].s)
  }

  function OfList(q: QueryListCorporationsRequest): (r: Message)
    ensures WellTyped(LIST_REQUEST, r)
  {
    Message([Times(if q.modifiedAfter.None? then [] else [q.modifiedAfter.value]), Num(if q.activeGfOnly then 1 else 0),
             Str(q.preferredLanguage), Num(q.responseMaxSize)])
  }

  function ToList(r: Message): QueryListCorporationsRequest
    requires WellTyped(LIST_REQUEST, r)
  {
    assert forall i :: 0 <= i < 4 ==> Fits(LIST_REQUEST.kinds[i], r.vals[i]);
    QueryListCorporationsRequest(
      if r.vals[0].ts == [] then None else Some(r.vals[0].ts[0]), r.vals[1].n != 0, r.vals[2].s, r.vals[3].n)
  }

  function OfCorporations(cs: seq<Corporation>): (ms: seq<Message>)
    ensures |ms| == |cs| && forall i :: 0 <= i < |ms| ==> ms[i] == OfCorporation(cs[i])
  {
    seq(|cs|, i requires 0 <= i < |cs| => OfCorporation(cs[i]))
  }

  function OfGenesis(g: GenesisState): (r: Message)
    ensures WellTyped(GENESIS, r)
  {
    Message([Subs([Message([])]), Subs(OfCorporations(g.corporations))])
  }

  function ToGenesis(r: Message): GenesisState
    requires WellTyped(GENESIS, r)
  {
    assert forall i :: 0 <= i < 2 ==> Fits(GENESIS.kinds[i], r.vals[i]);
    var ms := r.vals[1].ms;
    GenesisState(Params, seq(|ms|, i requires 0 <= i < |ms| => ToCorporation(ms[i])))
  }

  lemma SchemasAreGood()
    ensures GoodSchema(MEMBER) && GoodSchema(MSG_CREATE) && GoodSchema(MSG_UPDATE) && GoodSchema(CORPORATION)
    ensures GoodSchema(GET_REQUEST) && GoodSchema(LIST_REQUEST) && GoodSchema(PARAMS) && GoodSchema(GENESIS)
    ensures GoodSchema(MSG_CREATE_RESPONSE)
  {
  }

  // ---------- round trips ----------

  /** What each message needs of the codecs it calls: a time, an `Any`, or nothing. */
  lemma SchemasAreLawful(x: External)
    ensures Lawful(x, MSG_UPDATE) && Lawful(x, MSG_CREATE_RESPONSE) && Lawful(x, GET_REQUEST)
    ensures LawfulAny(x) ==> Lawful(x, MSG_CREATE)
    ensures LawfulTime(x) ==> Lawful(x, CORPORATION) && Lawful(x, LIST_REQUEST) && Lawful(x, GENESIS)
  {
    hide LawfulTime; hide LawfulAny;
    assert Lawful(x, MEMBER) && Lawful(x, PARAMS);
  }

  function CreateBytes(x: External, m: MsgCreateCorporation): Bytes {
    Encode(x, MSG_CREATE, OfCreate(m))
  }

  function ParseCreate(x: External, d: Bytes): Option<MsgCreateCorporation> {
    SchemasAreGood();
    match Decode(x, MSG_CREATE, Zero(MSG_CREATE), d)
    case None => None
    case Some(r) => Some(ToCreate(r))
  }

  lemma CreateEncodable(x: External, m: MsgCreateCorporation)
    ensures Encodable(x, MSG_CREATE, OfCreate(m))
  {
    forall i | 0 <= i < |m.members| ensures Encodable(x, MEMBER, OfMember(m.members[i])) {}
  }

  lemma CreateRoundTrip(x: External, m: MsgCreateCorporation)
    requires LawfulAny(x) && |CreateBytes(x, m)| < I64
    ensures ParseCreate(x, CreateBytes(x, m)) == Some(m)
  {
    hide Encode; hide Decode; hide Encodable; hide Zero; hide GoodSchema; hide Lawful; hide LawfulTime; hide LawfulAny;
    SchemasAreGood();
    SchemasAreLawful(x);
    CreateEncodable(x, m);
    RoundTrip(x, MSG_CREATE, OfCreate(m));
    assert ToCreate(OfCreate(m)).members == m.members;
  }

  /** With the generated `Any` codec nothing is assumed. */
  lemma CreateRoundTripOutright(x: External, m: MsgCreateCorporation)
    requires |CreateBytes(WithAny(x), m)| < I64
    ensures ParseCreate(WithAny(x), CreateBytes(WithAny(x), m)) == Some(m)
  {
    hide CreateBytes; hide ParseCreate; hide WithAny;
    AnyIsLawful(x);
    CreateRoundTrip(WithAny(x), m);
  }

  function ResponseBytes(x: External, m: MsgCreateCorporationResponse): Bytes {
    Encode(x, MSG_CREATE_RESPONSE, OfResponse(m))
  }

  function ParseResponse(x: External, d: Bytes): Option<MsgCreateCorporationResponse> {
    SchemasAreGood();
    match Decode(x, MSG_CREATE_RESPONSE, Zero(MSG_CREATE_RESPONSE), d)
    case None => None
    case Some(r) => Some(ToResponse(r))
  }

  lemma ResponseEncodable(x: External, m: MsgCreateCorporationResponse)
    ensures Encodable(x, MSG_CREATE_RESPONSE, OfResponse(m))
  {
  }

  lemma ResponseRoundTrip(x: External, m: MsgCreateCorporationResponse)
    requires |ResponseBytes(x, m)| < I64
    ensures ParseResponse(x, ResponseBytes(x, m)) == Some(m)
  {
    hide Encode; hide Decode; hide Encodable; hide Zero; hide GoodSchema; hide Lawful; hide LawfulTime; hide LawfulAny;
    SchemasAreGood();
    SchemasAreLawful(x);
    ResponseEncodable(x, m);
    RoundTrip(x, MSG_CREATE_RESPONSE, OfResponse(m));
  }

  function CorporationBytes(x: External, c: Corporation): Bytes {
    Encode(x, CORPORATION, OfCorporation(c))
  }

  function ParseCorporation(x: External, d: Bytes): Option<Corporation> {
    SchemasAreGood();
    match Decode(x, CORPORATION, Zero(CORPORATION), d)
    case None => None
    case Some(r) => Some(ToCorporation(r))
  }

  lemma CorporationEncodable(x: External, c: Corporation)
    ensures Encodable(x, CORPORATION, OfCorporation(c)) <==> x.encTime(c.created).Some? && x.encTime(c.modified).Some?
  {
    var r := OfCorporation(c);
    assert Encodable(x, CORPORATION, r) ==> EncodableValue(x, CORPORATION.kinds[3], r.vals[3]) && EncodableValue(x, CORPORATION.kinds[4], r.vals[4]);
  }

  lemma CorporationRoundTrip(x: External, c: Corporation)
    requires LawfulTime(x) && |CorporationBytes(x, c)| < I64
    requires x.encTime(c.created).Some? && x.encTime(c.modified).Some?
    ensures ParseCorporation(x, CorporationBytes(x, c)) == Some(c)
  {
    hide Encode; hide Decode; hide Encodable; hide Zero; hide GoodSchema; hide Lawful; hide LawfulTime; hide LawfulAny;
    SchemasAreGood();
    SchemasAreLawful(x);
    CorporationEncodable(x, c);
    RoundTrip(x, CORPORATION, OfCorporation(c));
  }

  /** Six bytes with field number 2^32 + 1. */
  const LARGE_TAG: Bytes := [0x88, 0x80, 0x80, 0x80, 0x80, 0x01]

  lemma {:induction false} LargeTag()
    ensures IsTag(LARGE_TAG, 0) && TagNumber(LARGE_TAG) == U32 + 1
  {
    var t := LARGE_TAG;
    assert t[1..] == [0x80, 0x80, 0x80, 0x80, 0x01] && t[1..][1..] == [0x80, 0x80, 0x80, 0x01];
    assert t[1..][1..][1..] == [0x80, 0x80, 0x01] && t[1..][1..][1..][1..] == [0x80, 0x01];
    assert [0x80, 0x01][1..] == [0x01];
    OneByteVarint(0x01);
    assert Raw([0x01]) == 1 && Raw([0x80, 0x01]) == 0x80;
    assert Raw([0x80, 0x80, 0x01]) == 0x4000;
    assert Raw([0x80, 0x80, 0x80, 0x01]) == 0x20_0000;
    assert Raw([0x80, 0x80, 0x80, 0x80, 0x01]) == 0x1000_0000;
    assert Raw(t) == 8 * (U32 + 1);
    assert Span([0x80, 0x01], 6) == Some(2);
    assert Span([0x80, 0x80, 0x01], 7) == Some(3);
    assert Span([0x80, 0x80, 0x80, 0x01], 8) == Some(4);
    assert Span([0x80, 0x80, 0x80, 0x80, 0x01], 9) == Some(5);
  }

  /** A concrete collision: field 2^32 + 1 sets a corporation's id, which is field 1. */
  lemma LargeNumberSetsId(x: External)
    ensures ParseCorporation(x, LARGE_TAG + [0x05]) == Some(Corporation(5, [], [], 0, 0, [], 0))
  {
    hide Decode; hide VarintValue; hide ToInt32; hide IsVarint; hide TagNumber; hide Span;
    SchemasAreGood();
    var zero := Zero(CORPORATION);
    DecodeEmpty(x, CORPORATION, zero);
    LargeTag();
    OneByteVarint(0x08);
    OneByteVarint(0x05);
    var f := VarintField([0x08], [0x05]);
    SmallTag();
    NumbersCollide(x, CORPORATION, zero, [], f, LARGE_TAG, []);
    FieldAlone(LARGE_TAG, [0x05]);
    FieldAlone([0x08], [0x05]);
    DecodeScalar(x, CORPORATION, zero, 1, U64Kind, 5);
    assert Scalar(1, 5) == [0x08] + [0x05];
  }

  lemma SmallTag()
    ensures TagNumber([0x08]) == 1 && (U32 + 1) % U32 == 1 % U32
  {
    OneByteVarint(0x08);
  }

  lemma FieldAlone(tag: Bytes, body: Bytes)
    ensures [] + (FieldBytes(VarintField(tag, body)) + []) == tag + body
  {
  }

  function UpdateBytes(x: External, m: MsgUpdateCorporation): Bytes {
    Encode(x, MSG_UPDATE, OfUpdate(m))
  }

  function ParseUpdate(x: External, d: Bytes): Option<MsgUpdateCorporation> {
    SchemasAreGood();
    match Decode(x, MSG_UPDATE, Zero(MSG_UPDATE), d)
    case None => None
    case Some(r) => Some(ToUpdate(r))
  }

  lemma UpdateEncodable(x: External, m: MsgUpdateCorporation)
    ensures Encodable(x, MSG_UPDATE, OfUpdate(m))
  {
  }

  lemma UpdateRoundTrip(x: External, m: MsgUpdateCorporation)
    requires |UpdateBytes(x, m)| < I64
    ensures ParseUpdate(x, UpdateBytes(x, m)) == Some(m)
  {
    hide Encode; hide Decode; hide Encodable; hide Zero; hide GoodSchema; hide Lawful; hide LawfulTime; hide LawfulAny;
    SchemasAreGood();
    SchemasAreLawful(x);
    UpdateEncodable(x, m);
    RoundTrip(x, MSG_UPDATE, OfUpdate(m));
  }

  function GetBytes(x: External, q: QueryGetCorporationRequest): Bytes {
    Encode(x, GET_REQUEST, OfGet(q))
  }

  function ParseGet(x: External, d: Bytes): Option<QueryGetCorporationRequest> {
    SchemasAreGood();
    match Decode(x, GET_REQUEST, Zero(GET_REQUEST), d)
    case None => None
    case Some(r) => Some(ToGet(r))
  }

  lemma GetEncodable(x: External, q: QueryGetCorporationRequest)
    ensures Encodable(x, GET_REQUEST, OfGet(q))
  {
  }

  lemma GetRoundTrip(x: External, q: QueryGetCorporationRequest)
    requires |GetBytes(x, q)| < I64
    ensures ParseGet(x, GetBytes(x, q)) == Some(q)
  {
    hide Encode; hide Decode; hide Encodable; hide Zero; hide GoodSchema; hide Lawful; hide LawfulTime; hide LawfulAny;
    SchemasAreGood();
    SchemasAreLawful(x);
    GetEncodable(x, q);
    RoundTrip(x, GET_REQUEST, OfGet(q));
  }

  function ListBytes(x: External, q: QueryListCorporationsRequest): Bytes {
    Encode(x, LIST_REQUEST, OfList(q))
  }

  function ParseList(x: External, d: Bytes): Option<QueryListCorporationsRequest> {
    SchemasAreGood();
    match Decode(x, LIST_REQUEST, Zero(LIST_REQUEST), d)
    case None => None
    case Some(r) => Some(ToList(r))
  }

  lemma ListEncodable(x: External, q: QueryListCorporationsRequest)
    requires q.modifiedAfter.Some? ==> x.encTime(q.modifiedAfter.value).Some?
    ensures Encodable(x, LIST_REQUEST, OfList(q))
  {
  }

  lemma ListRoundTrip(x: External, q: QueryListCorporationsRequest)
    requires LawfulTime(x) && |ListBytes(x, q)| < I64
    requires q.modifiedAfter.Some? ==> x.encTime(q.modifiedAfter.value).Some?
    ensures ParseList(x, ListBytes(x, q)) == Some(q)
  {
    hide Encode; hide Decode; hide Encodable; hide Zero; hide GoodSchema; hide Lawful; hide LawfulTime; hide LawfulAny;
    SchemasAreGood();
    SchemasAreLawful(x);
    ListEncodable(x, q);
    RoundTrip(x, LIST_REQUEST, OfList(q));
  }

  predicate TimesEncodable(x: External, cs: seq<Corporation>) {
    forall i :: 0 <= i < |cs| ==> x.encTime(cs[i].created).Some? && x.encTime(cs[i].modified).Some?
  }

  function GenesisBytes(x: External, g: GenesisState): Bytes {
    Encode(x, GENESIS, OfGenesis(g))
  }

  function ParseGenesis(x: External, d: Bytes): Option<GenesisState> {
    SchemasAreGood();
    match Decode(x, GENESIS, Zero(GENESIS), d)
    case None => None
    case Some(r) => Some(ToGenesis(r))
  }

  lemma GenesisEncodable(x: External, g: GenesisState)
    ensures Encodable(x, GENESIS, OfGenesis(g)) <==> TimesEncodable(x, g.corporations)
  {
    var r, cs := OfGenesis(g), g.corporations;
    assert Encodable(x, PARAMS, Message([]));
    assert EncodableValue(x, GENESIS.kinds[0], r.vals[0]);
    assert Encodable(x, GENESIS, r) <==> EncodableValue(x, GENESIS.kinds[1], r.vals[1]);
    forall i | 0 <= i < |cs|
      ensures Encodable(x, CORPORATION, OfCorporation(cs[i])) <==> x.encTime(cs[i].created).Some? && x.encTime(cs[i].modified).Some?
    {
      CorporationEncodable(x, cs[i]);
    }
    assert forall i :: 0 <= i < |cs| ==> r.vals[1].ms[i] == OfCorporation(cs[i]);
  }

  lemma GenesisRoundTrip(x: External, g: GenesisState)
    requires LawfulTime(x) && |GenesisBytes(x, g)| < I64
    requires TimesEncodable(x, g.corporations)
    ensures ParseGenesis(x, GenesisBytes(x, g)) == Some(g)
  {
    hide Encode; hide Decode; hide Encodable; hide Zero; hide GoodSchema; hide Lawful; hide LawfulTime; hide LawfulAny;
    SchemasAreGood();
    SchemasAreLawful(x);
    GenesisEncodable(x, g);
    RoundTrip(x, GENESIS, OfGenesis(g));
    assert ToGenesis(OfGenesis(g)).corporations == g.corporations;
    assert g.params.Params?;
  }

  // ---------- the bytes on the wire ----------

  /** A string field that is written only when it is not empty. */
  function Field(key: Byte, s: Bytes): Bytes {
    if s == [] then [] else [key] + (EncodeVarint(|s|) + s)
  }

  function NumField(key: Byte, n: nat): Bytes {
    if n == 0 then [] else [key] + EncodeVarint(n)
  }

  /** The marshalled corporation, key by key, as the generated code spells it out. */
  lemma CorporationLayout(x: External, c: Corporation)
    requires x.encTime(c.created).Some? && x.encTime(c.modified).Some?
    ensures var created, modified := x.encTime(c.created).value, x.encTime(c.modified).value;
            CorporationBytes(x, c) ==
            NumField(0x08, c.id) + (Field(0x12, c.policyAddress) + (Field(0x1a, c.did)
            + (([0x22] + (EncodeVarint(|created|) + created)) + (([0x2a] + (EncodeVarint(|modified|) + modified))
            + (Field(0x32, c.language) + (NumField(0x38, c.activeVersion) + []))))))
  {
    hide EncodeVarint; hide Fits;
    var r := OfCorporation(c);
    assert EncodeFrom(x, CORPORATION, r, 7) == [];
    assert EncodeFrom(x, CORPORATION, r, 6) == NumField(0x38, c.activeVersion) + [];
    assert EncodeFrom(x, CORPORATION, r, 5) == Field(0x32, c.language) + EncodeFrom(x, CORPORATION, r, 6);
    assert EncodeFrom(x, CORPORATION, r, 2) == Field(0x1a, c.did) + EncodeFrom(x, CORPORATION, r, 3);
    assert EncodeFrom(x, CORPORATION, r, 1) == Field(0x12, c.policyAddress) + EncodeFrom(x, CORPORATION, r, 2);
  }

  function PolicyField(x: External, policy: Option<Any>): Bytes {
    if policy.None? then [] else [0x2a] + (EncodeVarint(|x.encAny(policy.value)|) + x.encAny(policy.value))
  }

  lemma PolicyIsField(x: External, m: MsgCreateCorporation)
    ensures EncodeFrom(x, MSG_CREATE, OfCreate(m), 4) == PolicyField(x, m.decisionPolicy) + EncodeFrom(x, MSG_CREATE, OfCreate(m), 5)
  {
    hide EncodeVarint; hide Fits;
    var v := OfCreate(m).vals[4];
    if m.decisionPolicy.None? {
      assert v == Anys([]);
    } else {
      assert v == Anys([m.decisionPolicy.value]);
    }
    assert EncodeValue(x, 5, MSG_CREATE.kinds[4], v) == PolicyField(x, m.decisionPolicy);
  }

  /** A string field puts its own key in front of what follows it. */
  lemma StringField(x: External, s: Schema, r: Message, k: nat)
    requires WellTyped(s, r) && k < |s.kinds| && s.kinds[k].StrKind?
    ensures r.vals[k].Str?
    ensures EncodeFrom(x, s, r, k) == Field((k + 1) * 8 + 2, r.vals[k].s) + EncodeFrom(x, s, r, k + 1)
  {
    hide EncodeVarint; hide EncodeSubs;
    assert Fits(s.kinds[k], r.vals[k]);
  }

  /** A repeated field: each body behind the key and its own length. */
  function Repeated(key: Byte, bodies: seq<Bytes>): Bytes {
    if bodies == [] then [] else ([key] + (EncodeVarint(|bodies[0]|) + bodies[0])) + Repeated(key, bodies[1..])
  }

  lemma {:induction false} RepeatedField(x: External, num: nat, sub: Schema, ms: seq<Message>, bodies: seq<Bytes>)
    requires 1 <= num <= 15 && |bodies| == |ms|
    requires forall i :: 0 <= i < |ms| ==> WellTyped(sub, ms[i]) && Encode(x, sub, ms[i]) == bodies[i]
    ensures EncodeSubs(x, num, sub, ms) == Repeated(num * 8 + 2, bodies)
    decreases |ms|
  {
    hide EncodeVarint; hide WellTyped; hide Encode;
    if ms != [] {
      RepeatedField(x, num, sub, ms[1..], bodies[1..]);
    }
  }

  function MemberWire(m: Member): Bytes {
    Field(0x0a, m.address) + (Field(0x12, m.weight) + (Field(0x1a, m.metadata) + []))
  }

  lemma MemberLayout(x: External, m: Member)
    ensures Encode(x, MEMBER, OfMember(m)) == MemberWire(m)
  {
    hide EncodeVarint; hide Fits; hide WellTyped; hide Field;
    var r := OfMember(m);
    assert EncodeFrom(x, MEMBER, r, 3) == [];
    StringField(x, MEMBER, r, 2);
    StringField(x, MEMBER, r, 1);
    StringField(x, MEMBER, r, 0);
  }

  function MembersWire(ms: seq<Member>): (bodies: seq<Bytes>)
    ensures |bodies| == |ms| && forall i :: 0 <= i < |ms| ==> bodies[i] == MemberWire(ms[i])
  {
    seq(|ms|, i requires 0 <= i < |ms| => MemberWire(ms[i]))
  }

  lemma MembersLayout(x: External, m: MsgCreateCorporation)
    ensures EncodeFrom(x, MSG_CREATE, OfCreate(m), 1) == Repeated(0x12, MembersWire(m.members)) + EncodeFrom(x, MSG_CREATE, OfCreate(m), 2)
  {
    hide EncodeVarint; hide Fits; hide WellTyped; hide EncodeSubs; hide Encode; hide MemberWire; hide Repeated;
    var r := OfCreate(m);
    forall i | 0 <= i < |m.members| ensures Encode(x, MEMBER, OfMember(m.members[i])) == MemberWire(m.members[i]) {
      MemberLayout(x, m.members[i]);
    }
    RepeatedField(x, 2, MEMBER, r.vals[1].ms, MembersWire(m.members));
    assert EncodeFrom(x, MSG_CREATE, r, 1) == EncodeSubs(x, 2, MEMBER, r.vals[1].ms) + EncodeFrom(x, MSG_CREATE, r, 2);
  }

  lemma CreateTail(x: External, m: MsgCreateCorporation)
    ensures EncodeFrom(x, MSG_CREATE, OfCreate(m), 5) ==
            Field(0x32, m.did) + (Field(0x3a, m.language) + (Field(0x42, m.docUrl) + (Field(0x4a, m.docDigestSri) + [])))
  {
    hide EncodeVarint; hide Fits; hide WellTyped; hide Field;
    var r := OfCreate(m);
    StringField(x, MSG_CREATE, r, 5);
    StringField(x, MSG_CREATE, r, 6);
    StringField(x, MSG_CREATE, r, 7);
    StringField(x, MSG_CREATE, r, 8);
    assert EncodeFrom(x, MSG_CREATE, r, 9) == [];
  }

  /** The create message, key by key; its members are whole messages behind key 0x12. */
  lemma CreateLayout(x: External, m: MsgCreateCorporation)
    ensures CreateBytes(x, m) ==
            Field(0x0a, m.signer) + (Repeated(0x12, MembersWire(m.members)) + (Field(0x1a, m.groupMetadata)
            + (Field(0x22, m.groupPolicyMetadata) + (PolicyField(x, m.decisionPolicy) + (Field(0x32, m.did)
            + (Field(0x3a, m.language) + (Field(0x42, m.docUrl) + (Field(0x4a, m.docDigestSri) + []))))))))
  {
    hide EncodeVarint; hide Fits; hide WellTyped; hide EncodeSubs; hide PolicyField; hide Field; hide MembersWire; hide Repeated;
    var r := OfCreate(m);
    StringField(x, MSG_CREATE, r, 0);
    MembersLayout(x, m);
    StringField(x, MSG_CREATE, r, 2);
    StringField(x, MSG_CREATE, r, 3);
    PolicyIsField(x, m);
    CreateTail(x, m);
  }

  lemma ResponseLayout(x: External, m: MsgCreateCorporationResponse)
    ensures ResponseBytes(x, m) == NumField(0x08, m.corporationId) + (Field(0x12, m.policyAddress) + [])
  {
    hide EncodeVarint; hide Field;
    var r := OfResponse(m);
    assert EncodeFrom(x, MSG_CREATE_RESPONSE, r, 2) == [];
    StringField(x, MSG_CREATE_RESPONSE, r, 1);
  }

  lemma UpdateLayout(x: External, m: MsgUpdateCorporation)
    ensures UpdateBytes(x, m) == Field(0x0a, m.corporation) + (Field(0x12, m.operator) + (Field(0x1a, m.did) + []))
  {
    hide EncodeVarint; hide Fits; hide WellTyped; hide Field;
    var r := OfUpdate(m);
    assert EncodeFrom(x, MSG_UPDATE, r, 3) == [];
    StringField(x, MSG_UPDATE, r, 2);
    StringField(x, MSG_UPDATE, r, 1);
    StringField(x, MSG_UPDATE, r, 0);
  }

  function CorporationsWire(x: External, cs: seq<Corporation>): (bodies: seq<Bytes>)
    ensures |bodies| == |cs| && forall i :: 0 <= i < |cs| ==> bodies[i] == CorporationBytes(x, cs[i])
  {
    seq(|cs|, i requires 0 <= i < |cs| => CorporationBytes(x, cs[i]))
  }

  lemma ParamsLayout(x: External, g: GenesisState)
    ensures EncodeFrom(x, GENESIS, OfGenesis(g), 0) == [0x0a, 0x00] + EncodeFrom(x, GENESIS, OfGenesis(g), 1)
  {
    var r := OfGenesis(g);
    assert Encode(x, PARAMS, r.vals[0].ms[0]) == [];
    assert [0x0a] + EncodeVarint(0) == [0x0a, 0x00];
    RepeatedField(x, 1, PARAMS, r.vals[0].ms, [[]]);
    assert Repeated(0x0a, [[]]) == [0x0a, 0x00];
  }

  /** The parameters are always written, as an empty body; then come the corporations. */
  lemma GenesisLayout(x: External, g: GenesisState)
    ensures GenesisBytes(x, g) == [0x0a, 0x00] + (Repeated(0x12, CorporationsWire(x, g.corporations)) + [])
  {
    hide Fits; hide WellTyped; hide Repeated; hide EncodeVarint; hide EncodeSubs;
    var r := OfGenesis(g);
    ParamsLayout(x, g);
    RepeatedField(x, 2, CORPORATION, r.vals[1].ms, CorporationsWire(x, g.corporations));
    assert EncodeFrom(x, GENESIS, r, 2) == [];
    assert EncodeFrom(x, GENESIS, r, 1) == EncodeSubs(x, 2, CORPORATION, r.vals[1].ms) + [];
  }

  /** A flag is written as a key and a single 1, or not at all. */
  lemma GetLayout(x: External, q: QueryGetCorporationRequest)
    ensures GetBytes(x, q) ==
            NumField(0x08, q.corporationId) + ((if q.activeGfOnly then [0x10, 1] else []) + (Field(0x1a, q.preferredLanguage) + []))
  {
    var r := OfGet(q);
    assert EncodeFrom(x, GET_REQUEST, r, 3) == [];
    assert EncodeFrom(x, GET_REQUEST, r, 2) == Field(0x1a, q.preferredLanguage) + [];
    assert [0x10] + EncodeVarint(1) == [0x10, 1];
  }

  lemma ListLayout(x: External, q: QueryListCorporationsRequest)
    requires q.modifiedAfter.Some? ==> x.encTime(q.modifiedAfter.value).Some?
    ensures ListBytes(x, q) ==
            (if q.modifiedAfter.None? then []
             else var after := x.encTime(q.modifiedAfter.value).value; [0x0a] + (EncodeVarint(|after|) + after))
            + ((if q.activeGfOnly then [0x10, 1] else []) + (Field(0x1a, q.preferredLanguage) + (NumField(0x20, q.responseMaxSize) + [])))
  {
    hide Fits; hide WellTyped;
    var r := OfList(q);
    assert [0x10] + EncodeVarint(1) == [0x10, 1];
    hide EncodeVarint;
    assert EncodeFrom(x, LIST_REQUEST, r, 4) == [];
    assert EncodeFrom(x, LIST_REQUEST, r, 3) == NumField(0x20, q.responseMaxSize) + [];
    StringField(x, LIST_REQUEST, r, 2);
  }
}
