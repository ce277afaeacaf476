/**
 * The generated message codecs of x/co as functions. The code of every message
 * in tx.pb.go, types.pb.go, query.pb.go and genesis.pb.go is one template
 * applied to the message's list of fields; a `Schema` is that list.
 */
module Codec {
  import opened Basics
  import opened Varint
  import opened Skip

  // ---------- messages ----------

  datatype Any = Any(typeUrl: Bytes, value: Bytes)

  /** The Go type behind a field; field numbers are the positions 1, 2, 3, ... */
  datatype Kind =
    | U64Kind
    | U32Kind
    | BoolKind
    | StrKind
    | TimeKind(nullable: bool)
    | AnyKind
    | SubKind(sub: Schema, repeated: bool)

  datatype Schema = Schema(kinds: seq<Kind>)

  /** A field's content; pointers and embedded messages are sequences of at most one. */
  datatype Value = Num(n: nat) | Str(s: Bytes) | Times(ts: seq<int>) | Anys(anys: seq<Any>) | Subs(ms: seq<Message>)

  datatype Message = Message(vals: seq<Value>)

  const EMPTY_ANY := Any([], [])
  const ZERO_TIME: int := 0

  ghost predicate WellTyped(s: Schema, m: Message) {
    && |m.vals| == |s.kinds| <= 15
    && forall i :: 0 <= i < |s.kinds| ==> Fits(s.kinds[i], m.vals[i])
  }

  ghost predicate Fits(k: Kind, v: Value) {
    match k
    case U64Kind => v.Num? && v.n < U64
    case U32Kind => v.Num? && v.n < U32
    case BoolKind => v.Num? && v.n <= 1
    case StrKind => v.Str?
    case TimeKind(nullable) => v.Times? && (if nullable then |v.ts| <= 1 else |v.ts| == 1)
    case AnyKind => v.Anys? && |v.anys| <= 1
    case SubKind(sub, repeated) =>
      && v.Subs?
      && (repeated || |v.ms| == 1)
      && |sub.kinds| <= 15
      && forall i :: 0 <= i < |v.ms| ==> WellTyped(sub, v.ms[i])
  }

  ghost predicate GoodSchema(s: Schema) {
    && |s.kinds| <= 15
    && forall i :: 0 <= i < |s.kinds| ==> s.kinds[i].SubKind? ==> GoodSchema(s.kinds[i].sub)
  }

  /** The zero value of the Go struct. */
  function Zero(s: Schema): (m: Message)
    ensures GoodSchema(s) ==> WellTyped(s, m)
  {
    Message(seq(|s.kinds|, i requires 0 <= i < |s.kinds| => ZeroValue(s.kinds[i])))
  }

  function ZeroValue(k: Kind): (v: Value)
    ensures (k.SubKind? ==> GoodSchema(k.sub)) ==> Fits(k, v)
  {
    match k
    case U64Kind => Num(0)
    case U32Kind => Num(0)
    case BoolKind => Num(0)
    case StrKind => Str([])
    case TimeKind(nullable) => Times(if nullable then [] else [ZERO_TIME])
    case AnyKind => Anys([])
    case SubKind(sub, repeated) => if repeated then Subs([]) else Subs([Zero(sub)])
  }

  // ---------- the codecs this repository only calls ----------

  /** The standard-time and `Any` codecs. Encoding a time may fail (year out of range). */
  datatype External = External(
    encTime: int -> Option<Bytes>,
    decTime: Bytes -> Option<int>,
    encAny: Any -> Bytes,
    decAny: (Any, Bytes) -> Option<Any>)

  function MergeAny(a: Any, b: Any): Any {
    Any(if b.typeUrl == [] then a.typeUrl else b.typeUrl, if b.value == [] then a.value else b.value)
  }

  /** A time that has an encoding reads back. */
  ghost predicate LawfulTime(x: External) {
    forall t :: x.encTime(t).Some? ==> x.decTime(x.encTime(t).value) == Some(t)
  }

  /** An `Any` whose encoding fits a slice merges into the one already there. */
  ghost predicate LawfulAny(x: External) {
    forall a, b :: |x.encAny(b)| < I64 ==> x.decAny(a, x.encAny(b)) == Some(MergeAny(a, b))
  }

  /** What a schema needs of them: only of those it uses. */
  ghost predicate Lawful(x: External, s: Schema) {
    forall i :: 0 <= i < |s.kinds| ==> LawfulKind(x, s.kinds[i])
  }

  ghost predicate LawfulKind(x: External, k: Kind) {
    match k
    case TimeKind(_) => LawfulTime(x)
    case AnyKind => LawfulAny(x)
    case SubKind(sub, _) => Lawful(x, sub)
    case _ => true
  }

  function TimeBytes(x: External, t: int): Bytes {
    match x.encTime(t) case None => [] case Some(bs) => bs
  }

  // ---------- what Marshal writes, front to back ----------

  function Delimited(num: nat, body: Bytes): (r: Bytes)
    requires 1 <= num <= 15
    ensures |r| > |body|
  {
    [num * 8 + 2] + (EncodeVarint(|body|) + body)
  }

  function Scalar(num: nat, n: nat): Bytes
    requires 1 <= num <= 15
  {
    [num * 8] + EncodeVarint(n)
  }

  function Encode(x: External, s: Schema, m: Message): Bytes
    requires WellTyped(s, m)
    decreases s, 1
  {
    EncodeFrom(x, s, m, 0)
  }

  function EncodeFrom(x: External, s: Schema, m: Message, k: nat): Bytes
    requires WellTyped(s, m) && k <= |s.kinds|
    decreases s, 0, |s.kinds| - k
  {
    if k == |s.kinds| then []
    else EncodeValue(x, k + 1, s.kinds[k], m.vals[k]) + EncodeFrom(x, s, m, k + 1)
  }

  function EncodeValue(x: External, num: nat, k: Kind, v: Value): Bytes
    requires 1 <= num <= 15 && Fits(k, v)
    decreases k, 2, 0
  {
    match v
    case Num(n) => if n == 0 then [] else Scalar(num, n)
    case Str(s) => if s == [] then [] else Delimited(num, s)
    case Times(ts) => if ts == [] then [] else Delimited(num, TimeBytes(x, ts[0]))
    case Anys(anys) => if anys == [] then [] else Delimited(num, x.encAny(anys[0]))
    case Subs(ms) => EncodeSubs(x, num, k.sub, ms)
  }

  function EncodeSubs(x: External, num: nat, sub: Schema, ms: seq<Message>): Bytes
    requires 1 <= num <= 15 && forall i :: 0 <= i < |ms| ==> WellTyped(sub, ms[i])
    decreases sub, 2, |ms|
  {
    if ms == [] then [] else Delimited(num, Encode(x, sub, ms[0])) + EncodeSubs(x, num, sub, ms[1..])
  }

  /** Every time in the message has an encoding, so Marshal does not fail. */
  predicate Encodable(x: External, s: Schema, m: Message)
    requires WellTyped(s, m)
  {
    forall i :: 0 <= i < |s.kinds| ==> EncodableValue(x, s.kinds[i], m.vals[i])
  }

  predicate EncodableValue(x: External, k: Kind, v: Value)
    requires Fits(k, v)
  {
    match v
    case Times(ts) => ts == [] || x.encTime(ts[0]).Some?
    case Subs(ms) => forall i :: 0 <= i < |ms| ==> Encodable(x, k.sub, ms[i])
    case _ => true
  }

  // ---------- what Unmarshal reads ----------

  /** A length prefix at the head of `d` whose body lies inside `d`: where that body starts and ends. */
  function Extent(d: Bytes): (r: Option<(nat, nat)>)
    ensures r.Some? ==> 0 < r.value.0 <= r.value.1 <= |d|
  {
    match ReadVarint(d)
    case None => None
    case Some((len, n)) => if len >= I64 || n + len > |d| then None else Some((n, n + len))
  }

  /** Unmarshal into a message that already holds `m`. */
  function Decode(x: External, s: Schema, m: Message, d: Bytes): (r: Option<Message>)
    requires GoodSchema(s) && WellTyped(s, m)
    ensures r.Some? ==> WellTyped(s, r.value)
    decreases |d|, 3
  {
    if d == [] then Some(m)
    else match Step(x, s, m, d)
      case None => None
      case Some((m', n)) => Decode(x, s, m', d[n..])
  }

  /** One turn of Unmarshal's loop: the updated message and the bytes consumed. */
  function Step(x: External, s: Schema, m: Message, d: Bytes): (r: Option<(Message, nat)>)
    requires GoodSchema(s) && WellTyped(s, m)
    ensures r.Some? ==> WellTyped(s, r.value.0) && 0 < r.value.1 <= |d|
    decreases |d|, 2
  {
    match ReadVarint(d)
    case None => None
    case Some((wire, n)) =>
      var num, wireType := ToInt32(wire / 8), wire % 8;
      if wireType == 4 || num <= 0 then None
      else if num <= |s.kinds| then
        match FieldStep(x, s.kinds[num - 1], wireType, m.vals[num - 1], d[n..])
        case None => None
        case Some((v, k)) => Some((Message(m.vals[num - 1 := v]), n + k))
      else
        match SkipOne(d)
        case None => None
        case Some(k) => if k > |d| then None else Some((m, k))
  }

  /** The arm of the switch for a known field: its new content and the bytes consumed after the tag. */
  function FieldStep(x: External, k: Kind, wireType: nat, v: Value, d: Bytes): (r: Option<(Value, nat)>)
    requires Fits(k, v) && (k.SubKind? ==> GoodSchema(k.sub))
    ensures r.Some? ==> Fits(k, r.value.0) && r.value.1 <= |d|
    decreases |d|, 1
  {
    if k.U64Kind? || k.U32Kind? || k.BoolKind? then
      if wireType != 0 then None else
      match ReadVarint(d)
      case None => None
      case Some((n, e)) => Some((Num(Narrow(k, n)), e))
    else
      if wireType != 2 then None else
      match Extent(d)
      case None => None
      case Some((b, e)) =>
        match Apply(x, k, v, d[b..e])
        case None => None
        case Some(v') => Some((v', e))
  }

  /** A 64-bit reading stored in a uint64, uint32 or bool field. */
  function Narrow(k: Kind, n: nat): nat {
    if k.U32Kind? then n % U32 else if k.BoolKind? then (if n != 0 then 1 else 0) else n
  }

  /** A length-delimited body stored in its field. */
  function Apply(x: External, k: Kind, v: Value, body: Bytes): (r: Option<Value>)
    requires Fits(k, v) && (k.SubKind? ==> GoodSchema(k.sub))
    requires !k.U64Kind? && !k.U32Kind? && !k.BoolKind?
    ensures r.Some? ==> Fits(k, r.value)
    decreases |body|, 4
  {
    match v
    case Str(_) => Some(Str(body))
    case Times(_) => (match x.decTime(body) case None => None case Some(t) => Some(Times([t])))
    case Anys(anys) =>
      (match x.decAny(if anys == [] then EMPTY_ANY else anys[0], body) case None => None case Some(a) => Some(Anys([a])))
    case Subs(ms) =>
      if k.repeated then
        (match Decode(x, k.sub, Zero(k.sub), body) case None => None case Some(m) => Some(Subs(ms + [m])))
      else
        (match Decode(x, k.sub, ms[0], body) case None => None case Some(m) => Some(Subs([m])))
  }
}
