/**
 What the generated Go bindings do: for each Soroban type an encoder to `ScVal` and a decoder from it,
 as a denotation of the type. Named types are unfolded in place, so a type is a finite tree.
 */
module Codecs {
  import opened Wrappers
  import opened Bytes
  import opened Xdr
  import opened Sorting

  datatype Ty =
    | TyU32 | TyU64 | TyU128 | TyI128 | TyBool
    | TyAddress | TyOptAddress | TyBytes | TyString | TySymbol
    | TyBytesN(n: nat)
    | TyVec(elem: Ty)
    | TyStruct(fields: seq<Field>)
    | TyUnitEnum
    | TyUnion(variants: seq<Variant>)

  datatype Field = Field(name: string, ty: Ty)

  /** A variant with its payload types: none for a unit variant, positional or named otherwise. */
  datatype Variant = Variant(name: string, payload: seq<Ty>)

  /** The Go string of an address: the strkey of an account or contract id, or any other text. */
  datatype Address = AccountKey(id: Bytes32) | ContractKey(id: Bytes32) | NotAKey(text: string)

  datatype Val =
    | VNum(n: int)
    | VU128(parts: UInt128Parts)
    | VBool(b: bool)
    | VAddress(key: Address)
    | VOptAddress(opt: Option<Address>)
    | VBytes(bytes: seq<byte>)
    | VText(text: string)
    | VVec(items: seq<Val>)
    | VStruct(fields: seq<Val>)
    | VUnion(arms: seq<Arm>)

  /** The pointer of one variant of a union struct. */
  datatype Arm = Unset | Set(payload: seq<Val>)

  // ---- The types of the common fragment of encoder and decoder, and their Go values ----

  predicate VecElem(ty: Ty) {
    match ty
    case TyI128 => false
    case TyBool => false
    case TyOptAddress => false
    case TyString => false
    case TySymbol => false
    case TyVec(_) => false
    case _ => true
  }

  predicate PayloadElem(ty: Ty) {
    !ty.TyVec? && !ty.TyOptAddress?
  }

  predicate Supported(ty: Ty)
    decreases ty
  {
    match ty
    case TyBytesN(n) => n == 4 || n == 16 || n == 32
    case TyVec(e) => VecElem(e) && Supported(e)
    case TyStruct(fs) =>
      && (forall i, j :: 0 <= i < j < |fs| ==> fs[i].name != fs[j].name)
      && (forall i :: 0 <= i < |fs| ==> SupportedField(fs[i]))
    case TyUnion(vs) =>
      && (forall i, j :: 0 <= i < j < |vs| ==> vs[i].name != vs[j].name)
      && (forall i :: 0 <= i < |vs| ==> SupportedVariant(vs[i]))
    case _ => true
  }

  predicate SupportedField(f: Field)
    decreases f
  {
    Supported(f.ty)
  }

  predicate SupportedVariant(v: Variant)
    decreases v
  {
    forall i :: 0 <= i < |v.payload| ==> PayloadElem(v.payload[i]) && Supported(v.payload[i])
  }

  predicate HasType(ty: Ty, v: Val)
    decreases ty
  {
    match ty
    case TyU32 => v.VNum? && 0 <= v.n < 0x1_0000_0000
    case TyUnitEnum => v.VNum? && 0 <= v.n < 0x1_0000_0000
    case TyU64 => v.VNum? && 0 <= v.n < 0x1_0000_0000_0000_0000
    case TyI128 => v.VNum? && -0x8000_0000_0000_0000 <= v.n < 0x8000_0000_0000_0000
    case TyU128 => v.VU128?
    case TyBool => v.VBool?
    case TyAddress => v.VAddress?
    case TyOptAddress => v.VOptAddress?
    case TyBytes => v.VBytes?
    case TyString => v.VText?
    case TySymbol => v.VText?
    case TyBytesN(n) => v.VBytes? && |v.bytes| == n
    case TyVec(e) => v.VVec? && forall i :: 0 <= i < |v.items| ==> HasType(e, v.items[i])
    case TyStruct(fs) => v.VStruct? && |v.fields| == |fs| && forall i :: 0 <= i < |fs| ==> FieldHasType(fs[i], v.fields[i])
    case TyUnion(vs) => v.VUnion? && |v.arms| == |vs| && forall i :: 0 <= i < |vs| ==> ArmHasType(vs[i], v.arms[i])
  }

  predicate FieldHasType(f: Field, v: Val)
    decreases f
  {
    HasType(f.ty, v)
  }

  predicate ArmHasType(variant: Variant, arm: Arm)
    decreases variant
  {
    arm.Set? ==> PayloadHasType(variant.payload, arm.payload)
  }

  predicate PayloadHasType(tys: seq<Ty>, vals: seq<Val>)
    decreases tys
  {
    |vals| == |tys| && forall i :: 0 <= i < |tys| ==> HasType(tys[i], vals[i])
  }

  // ---- Scalars ----

  /** `I128ToScVal`: the low word is the two's complement of `v`, the high word its sign. */
  function I128ToParts(v: i64): Int128Parts {
    Int128Parts(if v < 0 then -1 else 0, if v < 0 then v + 0x1_0000_0000_0000_0000 else v)
  }

  /** `I128FromScVal`: the low word as a signed number, the high word ignored. */
  function I128FromParts(p: Int128Parts): i64 {
    if p.lo < 0x8000_0000_0000_0000 then p.lo else p.lo - 0x1_0000_0000_0000_0000
  }

  /** The number an i128 denotes, as the source reader computes it. */
  function I128Value(p: Int128Parts): int {
    p.hi * 0x1_0000_0000_0000_0000 + p.lo
  }

  lemma {:induction false} I128RoundTrip(v: i64)
    ensures I128FromParts(I128ToParts(v)) == v
    ensures I128Value(I128ToParts(v)) == v
  {
  }

  /** The truncating reader is right exactly for the numbers that fit, which is when the high word is the sign. */
  lemma {:induction false} I128FromPartsIsExactIffItFits(p: Int128Parts)
    ensures I128FromParts(p) == I128Value(p) <==> -0x8000_0000_0000_0000 <= I128Value(p) < 0x8000_0000_0000_0000
    ensures I128FromParts(p) == I128Value(p) <==> p.hi == (if p.lo < 0x8000_0000_0000_0000 then 0 else -1)
  {
  }

  /** `ParseAddress` and `AddressToScVal`: text that is no strkey leaves the arm nil. */
  function AddressToScVal(a: Address): ScVal {
    Blank(ScvAddress).(address :=
      match a
      case AccountKey(id) => Some(AccountAddress(id))
      case ContractKey(id) => Some(ContractAddress(id))
      case NotAKey(_) => None)
  }

  function AddressFromScVal(x: ScVal): Option<Address> {
    if !x.ty.ScvAddress? || x.address.None? then None else
    match x.address.value.ty
    case Account =>
      var id := x.address.value.accountId;
      if id.None? || id.value.None? then None else Some(AccountKey(id.value.value))
    case Contract =>
      var id := x.address.value.contractId;
      if id.None? then None else Some(ContractKey(id.value))
    case _ => None
  }

  function Symbol(s: string): ScVal {
    Blank(ScvSymbol).(sym := Some(s))
  }

  function Vector(items: seq<ScVal>): ScVal {
    Blank(ScvVec).(vec := VecOf(items))
  }

  // ---- Encoding ----

  /** A generated `ToScVal` returns a value or an error; a nested error makes the encoder panic. */
  datatype Enc = Done(x: ScVal) | Fails | Panics

  function SetCount(arms: seq<Arm>): nat {
    if arms == [] then 0 else (if arms[0].Set? then 1 else 0) + SetCount(arms[1..])
  }

  function FirstSet(arms: seq<Arm>): (i: nat)
    requires SetCount(arms) > 0
    ensures i < |arms| && arms[i].Set?
  {
    if arms[0].Set? then 0 else 1 + FirstSet(arms[1..])
  }

  predicate ByKey(a: MapEntry, b: MapEntry) {
    StringLeq(KeyOf(a), KeyOf(b))
  }

  function KeyOf(e: MapEntry): string {
    if e.key.ty.ScvSymbol? && e.key.sym.Some? then e.key.sym.value else ""
  }

  function Encode(ty: Ty, v: Val): Enc
    requires HasType(ty, v)
    decreases ty, 0, 0
  {
    match ty
    case TyU32 => Done(Blank(ScvU32).(u32 := Some(v.n)))
    case TyUnitEnum => Done(Blank(ScvU32).(u32 := Some(v.n)))
    case TyU64 => Done(Blank(ScvU64).(u64 := Some(v.n)))
    case TyI128 => Done(Blank(ScvI128).(i128 := Some(I128ToParts(v.n))))
    case TyU128 => Done(Blank(ScvU128).(u128 := Some(v.parts)))
    case TyBool => Done(Blank(ScvBool).(b := Some(v.b)))
    case TyAddress => Done(AddressToScVal(v.key))
    case TyOptAddress => Done(if v.opt.None? then Blank(ScvVoid) else AddressToScVal(v.opt.value))
    case TyBytes => Done(Blank(ScvBytes).(bytes := Some(v.bytes)))
    case TyBytesN(_) => Done(Blank(ScvBytes).(bytes := Some(v.bytes)))
    case TyString => Done(Blank(ScvString).(str := Some(v.text)))
    case TySymbol => Done(Symbol(v.text))
    case TyVec(e) =>
      var items := EncodeItems(e, v.items);
      if items.None? then Panics else Done(Vector(items.value))
    case TyStruct(fs) =>
      var entries := EncodeFields(fs, v.fields);
      if entries.None? then Panics
      else Done(Blank(ScvMap).(map_ := MapOf(Sort(entries.value, ByKey))))
    case TyUnion(vs) =>
      if SetCount(v.arms) != 1 then Fails
      else
        var i := FirstSet(v.arms);
        assert ArmHasType(vs[i], v.arms[i]);
        assert (ty decreases to vs[i]) && (vs[i] decreases to vs[i].payload);
        var payload := EncodePayload(vs[i].payload, v.arms[i].payload);
        if payload.None? then Panics else Done(Vector([Symbol(vs[i].name)] + payload.value))
  }

  function EncodeItems(ty: Ty, vals: seq<Val>): Option<seq<ScVal>>
    requires forall i :: 0 <= i < |vals| ==> HasType(ty, vals[i])
    decreases ty, 1, |vals|
  {
    if vals == [] then Some([])
    else
      var head, tail := Encode(ty, vals[0]), EncodeItems(ty, vals[1..]);
      if !head.Done? || tail.None? then None else Some([head.x] + tail.value)
  }

  function EncodePayload(tys: seq<Ty>, vals: seq<Val>): Option<seq<ScVal>>
    requires PayloadHasType(tys, vals)
    decreases tys, 0, 0
  {
    if tys == [] then Some([])
    else
      var head, tail := Encode(tys[0], vals[0]), EncodePayload(tys[1..], vals[1..]);
      if !head.Done? || tail.None? then None else Some([head.x] + tail.value)
  }

  function EncodeFields(fs: seq<Field>, vals: seq<Val>): (r: Option<seq<MapEntry>>)
    requires |vals| == |fs| && forall i :: 0 <= i < |fs| ==> FieldHasType(fs[i], vals[i])
    decreases fs, 0, 0
  {
    if fs == [] then Some([])
    else
      var head, tail := EncodeField(fs[0], vals[0]), EncodeFields(fs[1..], vals[1..]);
      if !head.Done? || tail.None? then None
      else Some([MapEntry(Symbol(fs[0].name), head.x)] + tail.value)
  }

  function EncodeField(f: Field, v: Val): Enc
    requires FieldHasType(f, v)
    decreases f, 0, 0
  {
    Encode(f.ty, v)
  }

  // ---- Decoding ----

  /** Go's zero value: what a struct field keeps when its key is absent. */
  function Zero(ty: Ty): Val
    decreases ty
  {
    match ty
    case TyU128 => VU128(UInt128Parts(0, 0))
    case TyBool => VBool(false)
    case TyAddress => VAddress(NotAKey(""))
    case TyOptAddress => VOptAddress(None)
    case TyBytes => VBytes([])
    case TyBytesN(n) => VBytes(Zeros(n))
    case TyString => VText("")
    case TySymbol => VText("")
    case TyVec(_) => VVec([])
    case TyStruct(fs) => VStruct(ZeroFields(fs))
    case TyUnion(vs) => VUnion(seq(|vs|, _ => Unset))
    case _ => VNum(0)
  }

  function ZeroFields(fs: seq<Field>): (r: seq<Val>)
    ensures |r| == |fs|
    decreases fs
  {
    if fs == [] then [] else [ZeroField(fs[0])] + ZeroFields(fs[1..])
  }

  function ZeroField(f: Field): Val
    decreases f
  {
    Zero(f.ty)
  }

  function FieldNames(fs: seq<Field>): (names: seq<string>)
    ensures |names| == |fs| && forall i :: 0 <= i < |fs| ==> names[i] == fs[i].name
  {
    seq(|fs|, i requires 0 <= i < |fs| => fs[i].name)
  }

  function VariantNames(vs: seq<Variant>): (names: seq<string>)
    ensures |names| == |vs| && forall i :: 0 <= i < |vs| ==> names[i] == vs[i].name
  {
    seq(|vs|, i requires 0 <= i < |vs| => vs[i].name)
  }

  /** The case of a generated `switch` over names that `name` selects. */
  function CaseOf(names: seq<string>, name: string): (i: Option<nat>)
    ensures i.Some? ==> i.value < |names| && names[i.value] == name
    ensures i.None? ==> forall j :: 0 <= j < |names| ==> names[j] != name
  {
    if names == [] then None
    else if names[0] == name then Some(0)
    else
      var i := CaseOf(names[1..], name);
      assert names == [names[0]] + names[1..];
      if i.None? then None else Some(i.value + 1)
  }

  function Decode(ty: Ty, x: ScVal): Option<Val>
    decreases ty, 2, 0
  {
    match ty
    case TyU32 => if x.ty.ScvU32? && x.u32.Some? then Some(VNum(x.u32.value)) else None
    case TyUnitEnum => if x.ty.ScvU32? && x.u32.Some? then Some(VNum(x.u32.value)) else None
    case TyU64 => if x.ty.ScvU64? && x.u64.Some? then Some(VNum(x.u64.value)) else None
    case TyI128 => if x.ty.ScvI128? && x.i128.Some? then Some(VNum(I128FromParts(x.i128.value))) else None
    case TyU128 => if x.ty.ScvU128? && x.u128.Some? then Some(VU128(x.u128.value)) else None
    case TyBool => if x.ty.ScvBool? && x.b.Some? then Some(VBool(x.b.value)) else None
    case TyAddress =>
      var a := AddressFromScVal(x);
      if a.None? then None else Some(VAddress(a.value))
    case TyOptAddress =>
      if x.ty.ScvVoid? then Some(VOptAddress(None)) else
      var a := AddressFromScVal(x);
      if a.None? then None else Some(VOptAddress(a))
    case TyBytes => if x.ty.ScvBytes? && x.bytes.Some? then Some(VBytes(x.bytes.value)) else None
    case TyBytesN(n) =>
      if x.ty.ScvBytes? && x.bytes.Some? && |x.bytes.value| == n then Some(VBytes(x.bytes.value)) else None
    case TyString => if x.ty.ScvString? && x.str.Some? then Some(VText(x.str.value)) else None
    case TySymbol => if x.ty.ScvSymbol? && x.sym.Some? then Some(VText(x.sym.value)) else None
    case TyVec(e) =>
      if !x.ty.ScvVec? || !x.vec.VecOf? then None else
      var items := DecodeItems(e, x.vec.items);
      if items.None? then None else Some(VVec(items.value))
    case TyStruct(fs) =>
      if !x.ty.ScvMap? || !x.map_.MapOf? then None else
      var fields := DecodeEntries(fs, x.map_.entries, ZeroFields(fs));
      if fields.None? then None else Some(VStruct(fields.value))
    case TyUnion(vs) =>
      if !x.ty.ScvVec? || !x.vec.VecOf? || x.vec.items == [] then None else
      var tag := x.vec.items[0];
      if !tag.ty.ScvSymbol? || tag.sym.None? then None else
      var i := CaseOf(VariantNames(vs), tag.sym.value);
      if i.None? || |x.vec.items| != 1 + |vs[i.value].payload| then None else
      assert (ty decreases to vs[i.value]) && (vs[i.value] decreases to vs[i.value].payload);
      var payload := DecodePayload(vs[i.value].payload, x.vec.items[1..]);
      if payload.None? then None
      else Some(VUnion(seq(|vs|, j => if j == i.value then Set(payload.value) else Unset)))
  }

  function DecodeItems(ty: Ty, items: seq<ScVal>): Option<seq<Val>>
    decreases ty, 3, |items|
  {
    if items == [] then Some([])
    else
      var head, tail := Decode(ty, items[0]), DecodeItems(ty, items[1..]);
      if head.None? || tail.None? then None else Some([head.value] + tail.value)
  }

  function DecodePayload(tys: seq<Ty>, items: seq<ScVal>): Option<seq<Val>>
    requires |items| == |tys|
    decreases tys, 0, 0
  {
    if tys == [] then Some([])
    else
      var head, tail := Decode(tys[0], items[0]), DecodePayload(tys[1..], items[1..]);
      if head.None? || tail.None? then None else Some([head.value] + tail.value)
  }

  /** The loop over map entries: later entries win, unknown and non-symbol keys are skipped. */
  function DecodeEntries(fs: seq<Field>, entries: seq<MapEntry>, result: seq<Val>): (r: Option<seq<Val>>)
    requires |result| == |fs|
    ensures r.Some? ==> |r.value| == |fs|
    decreases fs, 1, |entries|
  {
    if entries == [] then Some(result)
    else
      var key := entries[0].key;
      if !key.ty.ScvSymbol? || key.sym.None? then DecodeEntries(fs, entries[1..], result) else
      var i := CaseOf(FieldNames(fs), key.sym.value);
      if i.None? then DecodeEntries(fs, entries[1..], result) else
      var v := DecodeField(fs[i.value], entries[0].val);
      if v.None? then None else DecodeEntries(fs, entries[1..], result[i.value := v.value])
  }

  function DecodeField(f: Field, x: ScVal): Option<Val>
    decreases f, 0, 0
  {
    Decode(f.ty, x)
  }
}
