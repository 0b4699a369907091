/** Decoding undoes encoding, for every supported type; and struct maps do not depend on Go's map order. */
module CodecRoundTrip {
  import opened Wrappers
  import opened Xdr
  import opened Sorting
  import opened Codecs

  // ---- What can be sent, and what can be read back ----

  /** Every union inside the value has exactly one variant set. */
  predicate Sendable(ty: Ty, v: Val)
    requires HasType(ty, v)
    decreases ty, 0, 0
  {
    match ty
    case TyVec(e) => SendableItems(e, v.items)
    case TyStruct(fs) => SendableFields(fs, v.fields)
    case TyUnion(vs) => SetCount(v.arms) == 1 && SendableArm(vs[FirstSet(v.arms)], v.arms[FirstSet(v.arms)])
    case _ => true
  }

  predicate SendableItems(ty: Ty, vals: seq<Val>)
    requires forall i :: 0 <= i < |vals| ==> HasType(ty, vals[i])
    decreases ty, 1, |vals|
  {
    vals == [] || (Sendable(ty, vals[0]) && SendableItems(ty, vals[1..]))
  }

  predicate SendableFields(fs: seq<Field>, vals: seq<Val>)
    requires |vals| == |fs| && forall i :: 0 <= i < |fs| ==> FieldHasType(fs[i], vals[i])
    decreases fs, 0, 0
  {
    fs == [] || (SendableField(fs[0], vals[0]) && SendableFields(fs[1..], vals[1..]))
  }

  predicate SendableField(f: Field, v: Val)
    requires FieldHasType(f, v)
    decreases f, 0, 0
  {
    Sendable(f.ty, v)
  }

  predicate SendableArm(variant: Variant, arm: Arm)
    requires ArmHasType(variant, arm)
    decreases variant, 0, 0
  {
    arm.Set? ==> SendablePayload(variant.payload, arm.payload)
  }

  predicate SendablePayload(tys: seq<Ty>, vals: seq<Val>)
    requires PayloadHasType(tys, vals)
    decreases tys, 0, 0
  {
    tys == [] || (Sendable(tys[0], vals[0]) && SendablePayload(tys[1..], vals[1..]))
  }

  /** Every address inside the value is a strkey. */
  predicate KeysReal(ty: Ty, v: Val)
    requires HasType(ty, v)
    decreases ty, 0, 0
  {
    match ty
    case TyAddress => !v.key.NotAKey?
    case TyOptAddress => v.opt.Some? ==> !v.opt.value.NotAKey?
    case TyVec(e) => KeysRealItems(e, v.items)
    case TyStruct(fs) => forall i :: 0 <= i < |fs| ==> KeysRealField(fs[i], v.fields[i])
    case TyUnion(vs) => forall i :: 0 <= i < |vs| ==> KeysRealArm(vs[i], v.arms[i])
    case _ => true
  }

  predicate KeysRealItems(ty: Ty, vals: seq<Val>)
    requires forall i :: 0 <= i < |vals| ==> HasType(ty, vals[i])
    decreases ty, 1, |vals|
  {
    vals == [] || (KeysReal(ty, vals[0]) && KeysRealItems(ty, vals[1..]))
  }

  predicate KeysRealField(f: Field, v: Val)
    requires FieldHasType(f, v)
    decreases f, 0, 0
  {
    KeysReal(f.ty, v)
  }

  predicate KeysRealArm(variant: Variant, arm: Arm)
    requires ArmHasType(variant, arm)
    decreases variant, 0, 0
  {
    arm.Set? ==> KeysRealPayload(variant.payload, arm.payload)
  }

  predicate KeysRealPayload(tys: seq<Ty>, vals: seq<Val>)
    requires PayloadHasType(tys, vals)
    decreases tys, 0, 0
  {
    tys == [] || (KeysReal(tys[0], vals[0]) && KeysRealPayload(tys[1..], vals[1..]))
  }

  /** The codec law for one value: it encodes exactly when sendable, and then reads back exactly when its keys are real. */
  ghost predicate Law(ty: Ty, v: Val)
    requires HasType(ty, v)
  {
    && (Encode(ty, v).Done? <==> Sendable(ty, v))
    && (Encode(ty, v).Done? ==> Decode(ty, Encode(ty, v).x) == if KeysReal(ty, v) then Some(v) else None)
  }

  ghost predicate PayloadLaw(tys: seq<Ty>, vals: seq<Val>)
    requires PayloadHasType(tys, vals)
  {
    var sent := EncodePayload(tys, vals);
    && (sent.Some? <==> SendablePayload(tys, vals))
    && (sent.Some? ==>
          && |sent.value| == |tys|
          && DecodePayload(tys, sent.value) == if KeysRealPayload(tys, vals) then Some(vals) else None)
  }

  ghost predicate ItemsLaw(ty: Ty, vals: seq<Val>)
    requires forall i :: 0 <= i < |vals| ==> HasType(ty, vals[i])
  {
    var sent := EncodeItems(ty, vals);
    && (sent.Some? <==> SendableItems(ty, vals))
    && (sent.Some? ==>
          DecodeItems(ty, sent.value) == if KeysRealItems(ty, vals) then Some(vals) else None)
  }

  lemma {:induction false} DecodeItemsCons(ty: Ty, x: ScVal, xs: seq<ScVal>, vals: seq<Val>)
    requires vals != [] && forall i :: 0 <= i < |vals| ==> HasType(ty, vals[i])
    requires Decode(ty, x) == if KeysReal(ty, vals[0]) then Some(vals[0]) else None
    requires DecodeItems(ty, xs) == if KeysRealItems(ty, vals[1..]) then Some(vals[1..]) else None
    ensures DecodeItems(ty, [x] + xs) == if KeysRealItems(ty, vals) then Some(vals) else None
  {
    assert ([x] + xs)[1..] == xs && vals == [vals[0]] + vals[1..];
  }

  lemma {:induction false} EncodeItemsCons(ty: Ty, vals: seq<Val>)
    requires vals != [] && forall i :: 0 <= i < |vals| ==> HasType(ty, vals[i])
    ensures EncodeItems(ty, vals) ==
            var head, tail := Encode(ty, vals[0]), EncodeItems(ty, vals[1..]);
            if !head.Done? || tail.None? then None else Some([head.x] + tail.value)
  {
  }

  lemma {:induction false} ItemsLawStep(ty: Ty, vals: seq<Val>)
    requires vals != [] && forall i :: 0 <= i < |vals| ==> HasType(ty, vals[i])
    requires Law(ty, vals[0]) && ItemsLaw(ty, vals[1..])
    ensures ItemsLaw(ty, vals)
  {
    var head, tail := Encode(ty, vals[0]), EncodeItems(ty, vals[1..]);
    EncodeItemsCons(ty, vals);
    if head.Done? && tail.Some? {
      DecodeItemsCons(ty, head.x, tail.value, vals);
    }
  }

  // ---- Unions ----

  lemma {:induction false} NoneSet(arms: seq<Arm>)
    requires SetCount(arms) == 0
    ensures forall i :: 0 <= i < |arms| ==> arms[i].Unset?
  {
    if arms != [] {
      NoneSet(arms[1..]);
      assert forall i :: 0 < i < |arms| ==> arms[i] == arms[1..][i - 1];
    }
  }

  lemma {:induction false} OneSet(arms: seq<Arm>)
    requires SetCount(arms) == 1
    ensures forall i :: 0 <= i < |arms| ==> (arms[i].Set? <==> i == FirstSet(arms))
  {
    assert forall i :: 0 < i < |arms| ==> arms[i] == arms[1..][i - 1];
    if arms[0].Set? {
      NoneSet(arms[1..]);
    } else {
      OneSet(arms[1..]);
    }
  }

  lemma {:induction false} UnionFailsIff(ty: Ty, v: Val)
    requires HasType(ty, v)
    ensures Encode(ty, v).Fails? <==> ty.TyUnion? && SetCount(v.arms) != 1
  {
  }

  lemma {:induction false} UnionLaw(ty: Ty, v: Val)
    requires ty.TyUnion? && Supported(ty) && HasType(ty, v)
    requires SetCount(v.arms) == 1 ==>
               var k := FirstSet(v.arms);
               ArmHasType(ty.variants[k], v.arms[k]) && PayloadLaw(ty.variants[k].payload, v.arms[k].payload)
    ensures Law(ty, v)
  {
    if SetCount(v.arms) == 1 {
      OneSet(v.arms);
      var k := FirstSet(v.arms);
      var variant, payload := ty.variants[k], v.arms[k].payload;
      var sent := EncodePayload(variant.payload, payload);
      forall i | 0 <= i < |v.arms| && i != k ensures KeysRealArm(ty.variants[i], v.arms[i]) {
        assert v.arms[i].Unset?;
      }
      assert KeysReal(ty, v) <==> KeysRealPayload(variant.payload, payload) by {
        assert KeysRealArm(variant, v.arms[k]) <==> KeysRealPayload(variant.payload, payload);
      }
      if sent.Some? {
        var x := Vector([Symbol(variant.name)] + sent.value);
        assert Encode(ty, v) == Done(x);
        UnionDecodes(ty, k, x, sent.value);
        if KeysReal(ty, v) {
          assert v.arms == seq(|ty.variants|, j => if j == k then Set(payload) else Unset);
        }
      }
    }
  }

  lemma {:induction false} UnionDecodes(ty: Ty, k: nat, x: ScVal, items: seq<ScVal>)
    requires ty.TyUnion? && Supported(ty) && k < |ty.variants| && |items| == |ty.variants[k].payload|
    requires x == Vector([Symbol(ty.variants[k].name)] + items)
    ensures Decode(ty, x) ==
            var payload := DecodePayload(ty.variants[k].payload, items);
            if payload.None? then None
            else Some(VUnion(seq(|ty.variants|, j => if j == k then Set(payload.value) else Unset)))
  {
    assert x.vec.items[1..] == items;
    assert CaseOf(VariantNames(ty.variants), ty.variants[k].name) == Some(k);
  }

  // ---- Structs ----

  /** Fields, their encoded entries in declaration order, and what each entry's value decodes to. */
  ghost predicate Encoded(fs: seq<Field>, entries: seq<MapEntry>, decoded: seq<Option<Val>>) {
    && |entries| == |decoded| == |fs|
    && (forall i, j :: 0 <= i < j < |fs| ==> fs[i].name != fs[j].name)
    && (forall i :: 0 <= i < |fs| ==>
          entries[i].key == Symbol(fs[i].name) && DecodeField(fs[i], entries[i].val) == decoded[i])
  }

  /** Whatever the order of the entries, every field present is set to what its entry decodes to. */
  lemma {:induction false} EntriesInAnyOrder(
      fs: seq<Field>, entries: seq<MapEntry>, decoded: seq<Option<Val>>, es: seq<MapEntry>, acc: seq<Val>)
    requires Encoded(fs, entries, decoded) && |acc| == |fs|
    requires forall e :: e in es ==> e in entries
    ensures var r := DecodeEntries(fs, es, acc);
            && (r.None? <==> exists i :: 0 <= i < |fs| && entries[i] in es && decoded[i].None?)
            && (r.Some? ==>
                  && |r.value| == |fs|
                  && forall i :: 0 <= i < |fs| ==> r.value[i] == if entries[i] in es then decoded[i].value else acc[i])
    decreases es
  {
    if es != [] {
      assert es == [es[0]] + es[1..];
      assert es[0] in entries;
      var k :| 0 <= k < |entries| && entries[k] == es[0];
      assert CaseOf(FieldNames(fs), fs[k].name) == Some(k);
      forall i | 0 <= i < |fs| && entries[i] == es[0] ensures i == k {
        assert Symbol(fs[i].name) == Symbol(fs[k].name);
      }
      if decoded[k].Some? {
        EntriesInAnyOrder(fs, entries, decoded, es[1..], acc[k := decoded[k].value]);
      }
    }
  }

  ghost predicate FieldsLaw(fs: seq<Field>, vals: seq<Val>)
    requires |vals| == |fs| && forall i :: 0 <= i < |fs| ==> FieldHasType(fs[i], vals[i])
  {
    var sent := EncodeFields(fs, vals);
    && (sent.Some? <==> SendableFields(fs, vals))
    && (sent.Some? ==>
          && |sent.value| == |fs|
          && forall i :: 0 <= i < |fs| ==>
               && sent.value[i].key == Symbol(fs[i].name)
               && DecodeField(fs[i], sent.value[i].val) == if KeysRealField(fs[i], vals[i]) then Some(vals[i]) else None)
  }

  /** All fields' entries, in any order, decode to the fields' values, or fail if one of them does. */
  lemma {:induction false} AllEntriesDecode(fs: seq<Field>, entries: seq<MapEntry>, vals: seq<Val>, es: seq<MapEntry>)
    requires |vals| == |entries| == |fs| && forall i :: 0 <= i < |fs| ==> FieldHasType(fs[i], vals[i])
    requires forall i, j :: 0 <= i < j < |fs| ==> fs[i].name != fs[j].name
    requires forall i :: 0 <= i < |fs| ==>
               && entries[i].key == Symbol(fs[i].name)
               && DecodeField(fs[i], entries[i].val) == if KeysRealField(fs[i], vals[i]) then Some(vals[i]) else None
    requires forall e :: e in es <==> e in entries
    ensures DecodeEntries(fs, es, ZeroFields(fs)) ==
            if forall i :: 0 <= i < |fs| ==> KeysRealField(fs[i], vals[i]) then Some(vals) else None
  {
    var decoded := seq(|fs|, i requires 0 <= i < |fs| => DecodeField(fs[i], entries[i].val));
    EntriesInAnyOrder(fs, entries, decoded, es, ZeroFields(fs));
    assert forall i :: 0 <= i < |fs| ==> entries[i] in entries;
    if forall i :: 0 <= i < |fs| ==> KeysRealField(fs[i], vals[i]) {
      assert DecodeEntries(fs, es, ZeroFields(fs)).value == vals;
    } else {
      var i :| 0 <= i < |fs| && !KeysRealField(fs[i], vals[i]);
      assert decoded[i].None?;
    }
  }

  function MapValue(entries: seq<MapEntry>): ScVal {
    Blank(ScvMap).(map_ := MapOf(entries))
  }

  lemma {:induction false} EncodeStruct(ty: Ty, v: Val)
    requires ty.TyStruct? && HasType(ty, v)
    ensures Encode(ty, v) ==
            var entries := EncodeFields(ty.fields, v.fields);
            if entries.None? then Panics else Done(MapValue(Sort(entries.value, ByKey)))
  {
  }

  lemma {:induction false} DecodeStruct(ty: Ty, entries: seq<MapEntry>)
    requires ty.TyStruct?
    ensures Decode(ty, MapValue(entries)) ==
            var fields := DecodeEntries(ty.fields, entries, ZeroFields(ty.fields));
            if fields.None? then None else Some(VStruct(fields.value))
  {
  }

  lemma {:induction false} StructDecodesBack(ty: Ty, v: Val)
    requires ty.TyStruct? && Supported(ty) && HasType(ty, v)
    requires FieldsLaw(ty.fields, v.fields) && EncodeFields(ty.fields, v.fields).Some?
    ensures var sorted := Sort(EncodeFields(ty.fields, v.fields).value, ByKey);
            DecodeEntries(ty.fields, sorted, ZeroFields(ty.fields)) == if KeysReal(ty, v) then Some(v.fields) else None
  {
    var sent := EncodeFields(ty.fields, v.fields).value;
    SortPermutes(sent, ByKey);
    AllEntriesDecode(ty.fields, sent, v.fields, Sort(sent, ByKey));
  }

  lemma {:induction false} StructLaw(ty: Ty, v: Val)
    requires ty.TyStruct? && Supported(ty) && HasType(ty, v)
    requires FieldsLaw(ty.fields, v.fields)
    ensures Law(ty, v)
  {
    var sent := EncodeFields(ty.fields, v.fields);
    EncodeStruct(ty, v);
    if sent.Some? {
      StructDecodesBack(ty, v);
      DecodeStruct(ty, Sort(sent.value, ByKey));
    }
  }

  // ---- The law, by induction on types ----

  lemma {:induction false} NumberLaw(ty: Ty, v: Val)
    requires HasType(ty, v) && (ty.TyU32? || ty.TyUnitEnum? || ty.TyU64? || ty.TyI128? || ty.TyU128? || ty.TyBool?)
    ensures Law(ty, v)
  {
    if ty.TyI128? {
      I128RoundTrip(v.n);
    }
  }

  lemma {:induction false} AddressLaw(ty: Ty, v: Val)
    requires HasType(ty, v) && (ty.TyAddress? || ty.TyOptAddress?)
    ensures Law(ty, v)
  {
  }

  lemma {:induction false} TextLaw(ty: Ty, v: Val)
    requires HasType(ty, v) && (ty.TyBytes? || ty.TyBytesN? || ty.TyString? || ty.TySymbol?)
    ensures Law(ty, v)
  {
  }

  lemma {:induction false} ScalarLaw(ty: Ty, v: Val)
    requires HasType(ty, v) && !ty.TyVec? && !ty.TyStruct? && !ty.TyUnion?
    ensures Law(ty, v)
  {
    match ty
    case TyAddress => AddressLaw(ty, v);
    case TyOptAddress => AddressLaw(ty, v);
    case TyBytes => TextLaw(ty, v);
    case TyBytesN(_) => TextLaw(ty, v);
    case TyString => TextLaw(ty, v);
    case TySymbol => TextLaw(ty, v);
    case _ => NumberLaw(ty, v);
  }

  lemma {:induction false} VecLaw(ty: Ty, v: Val)
    requires ty.TyVec? && HasType(ty, v) && ItemsLaw(ty.elem, v.items)
    ensures Law(ty, v)
  {
  }

  lemma {:induction false} LawHolds(ty: Ty, v: Val)
    requires Supported(ty) && HasType(ty, v)
    ensures Law(ty, v)
    decreases ty, 0, 0
  {
    match ty
    case TyVec(e) =>
      ItemsLawHolds(e, v.items);
      VecLaw(ty, v);
    case TyStruct(fs) =>
      FieldsLawHolds(fs, v.fields);
      StructLaw(ty, v);
    case TyUnion(vs) =>
      if SetCount(v.arms) == 1 {
        var k := FirstSet(v.arms);
        assert ArmHasType(vs[k], v.arms[k]) && SupportedVariant(vs[k]);
        assert (ty decreases to vs[k]) && (vs[k] decreases to vs[k].payload);
        PayloadLawHolds(vs[k].payload, v.arms[k].payload);
      }
      UnionLaw(ty, v);
    case _ => ScalarLaw(ty, v);
  }

  lemma {:induction false} ItemsLawHolds(ty: Ty, vals: seq<Val>)
    requires Supported(ty) && forall i :: 0 <= i < |vals| ==> HasType(ty, vals[i])
    ensures ItemsLaw(ty, vals)
    decreases ty, 1, |vals|
  {
    if vals != [] {
      LawHolds(ty, vals[0]);
      ItemsLawHolds(ty, vals[1..]);
      ItemsLawStep(ty, vals);
    }
  }

  lemma {:induction false} PayloadLawHolds(tys: seq<Ty>, vals: seq<Val>)
    requires PayloadHasType(tys, vals) && forall i :: 0 <= i < |tys| ==> Supported(tys[i])
    ensures PayloadLaw(tys, vals)
    decreases tys, 0, 0
  {
    if tys != [] {
      LawHolds(tys[0], vals[0]);
      PayloadLawHolds(tys[1..], vals[1..]);
      assert vals == [vals[0]] + vals[1..];
      if EncodePayload(tys, vals).Some? {
        assert EncodePayload(tys, vals).value[1..] == EncodePayload(tys[1..], vals[1..]).value;
      }
    }
  }

  lemma {:induction false} FieldsLawHolds(fs: seq<Field>, vals: seq<Val>)
    requires |vals| == |fs| && forall i :: 0 <= i < |fs| ==> FieldHasType(fs[i], vals[i])
    requires forall i :: 0 <= i < |fs| ==> SupportedField(fs[i])
    ensures FieldsLaw(fs, vals)
    decreases fs, 0, 0
  {
    if fs != [] {
      FieldLawHolds(fs[0], vals[0]);
      FieldsLawHolds(fs[1..], vals[1..]);
      if EncodeFields(fs, vals).Some? {
        var sent, rest := EncodeFields(fs, vals).value, EncodeFields(fs[1..], vals[1..]).value;
        assert sent[1..] == rest;
        forall i | 0 < i < |fs|
          ensures sent[i] == rest[i - 1] && fs[i] == fs[1..][i - 1] && vals[i] == vals[1..][i - 1]
        {
        }
      }
    }
  }

  lemma {:induction false} FieldLawHolds(f: Field, v: Val)
    requires SupportedField(f) && FieldHasType(f, v)
    ensures Law(f.ty, v)
    ensures EncodeField(f, v) == Encode(f.ty, v)
    decreases f, 0, 0
  {
    LawHolds(f.ty, v);
  }

  /** For every supported type and every Go value of it: when encoding succeeds, and what decoding then gives. */
  lemma {:induction false} CodecLaw(ty: Ty, v: Val)
    requires Supported(ty) && HasType(ty, v)
    ensures Encode(ty, v).Done? <==> Sendable(ty, v)
    ensures Encode(ty, v).Done? ==> Decode(ty, Encode(ty, v).x) == if KeysReal(ty, v) then Some(v) else None
  {
    LawHolds(ty, v);
  }

  /**
   A wrong number of variants set is reported as an error only for the value itself; anywhere deeper inside
   it the encoder panics instead.
   */
  lemma {:induction false} EncoderOutcomes(ty: Ty, v: Val)
    requires Supported(ty) && HasType(ty, v)
    ensures Encode(ty, v).Fails? <==> ty.TyUnion? && SetCount(v.arms) != 1
    ensures Encode(ty, v).Panics? <==> !Sendable(ty, v) && (ty.TyUnion? ==> SetCount(v.arms) == 1)
  {
    LawHolds(ty, v);
    UnionFailsIff(ty, v);
  }

  // ---- `BuildStructScVal` ----

  /** The entries of a struct value: one for each field, strictly sorted by key. */
  ghost predicate IsStructOf(fields: map<string, ScVal>, entries: seq<MapEntry>) {
    && StrictlySorted(entries, ByKey)
    && (forall e :: e in entries ==> KeyOf(e) in fields && e == MapEntry(Symbol(KeyOf(e)), fields[KeyOf(e)]))
    && (forall k :: k in fields ==> MapEntry(Symbol(k), fields[k]) in entries)
  }

  lemma {:induction false} NoTieWithNew(keys: seq<string>, k: string)
    requires NoTies(keys, StringLeq) && k !in keys
    ensures NoTies(keys + [k], StringLeq)
  {
    forall j | 0 <= j < |keys| ensures !StringLeq(keys[j], k) || !StringLeq(k, keys[j]) {
      StringLeqTotal(keys[j], k);
    }
  }

  lemma {:induction false} KeysInOrderMakeStruct(fields: map<string, ScVal>, keys: seq<string>, entries: seq<MapEntry>)
    requires StrictlySorted(keys, StringLeq) && forall k :: k in keys <==> k in fields
    requires |entries| == |keys|
    requires forall i :: 0 <= i < |keys| ==> keys[i] in keys && entries[i] == MapEntry(Symbol(keys[i]), fields[keys[i]])
    ensures IsStructOf(fields, entries)
  {
    forall i | 0 <= i < |entries| ensures KeyOf(entries[i]) == keys[i] {
    }
    forall k | k in fields ensures MapEntry(Symbol(k), fields[k]) in entries {
      assert k in keys;
      var i :| 0 <= i < |keys| && keys[i] == k;
      assert entries[i] == MapEntry(Symbol(k), fields[k]);
    }
  }

  method SortedKeys(fields: map<string, ScVal>) returns (sorted: seq<string>)
    ensures StrictlySorted(sorted, StringLeq) && forall k :: k in sorted <==> k in fields
    // ascending: a proper prefix comes first, and else the first difference decides
    ensures forall i, j :: 0 <= i < j < |sorted| ==>
              || sorted[i] < sorted[j]
              || exists k :: 0 <= k < |sorted[i]| && k < |sorted[j]| &&
                   sorted[i][..k] == sorted[j][..k] && sorted[i][k] < sorted[j][k]
  {
    var keys: seq<string> := [];
    var rest := fields.Keys;
    while rest != {}
      invariant rest <= fields.Keys
      invariant forall k :: k in keys <==> k in fields.Keys && k !in rest
      invariant NoTies(keys, StringLeq)
    {
      var k :| k in rest;
      NoTieWithNew(keys, k);
      rest := rest - {k};
      keys := keys + [k];
    }
    StringLeqIsTotalPreorder();
    SortIsStrict(keys, StringLeq);
    sorted := Sort(keys, StringLeq);
    forall i, j | 0 <= i < j < |sorted|
      ensures || sorted[i] < sorted[j]
              || exists k :: 0 <= k < |sorted[i]| && k < |sorted[j]| &&
                   sorted[i][..k] == sorted[j][..k] && sorted[i][k] < sorted[j][k]
    {
      StringLeqTotal(sorted[i], sorted[j]);
      StrictlyBeforeIsLexicographic(sorted[i], sorted[j]);
    }
  }

  method BuildStructScVal(fields: map<string, ScVal>) returns (x: ScVal)
    ensures x == Blank(ScvMap).(map_ := x.map_) && x.map_.MapOf? && IsStructOf(fields, x.map_.entries)
    // one entry for each field: a symbol with its name, and its value
    ensures forall name :: name in fields ==> exists e :: e in x.map_.entries && e.key.sym == Some(name)
    ensures forall e :: e in x.map_.entries ==>
              && e.key.ty == ScvSymbol && e.key.sym.Some? && e.key.sym.value in fields
              && e.val == fields[e.key.sym.value]
    // in ascending order of the names: a proper prefix comes first, and else the first difference decides
    ensures forall i, j :: 0 <= i < j < |x.map_.entries| ==>
              var a, b := x.map_.entries[i].key.sym.value, x.map_.entries[j].key.sym.value;
              a < b || exists k :: 0 <= k < |a| && k < |b| && a[..k] == b[..k] && a[k] < b[k]
  {
    var keys := SortedKeys(fields);
    var entries: seq<MapEntry> := [];
    for i := 0 to |keys|
      invariant |entries| == i
      invariant forall j :: 0 <= j < i ==> keys[j] in keys && entries[j] == MapEntry(Symbol(keys[j]), fields[keys[j]])
    {
      assert keys[i] in keys;
      var v := fields[keys[i]];
      entries := entries + [MapEntry(Symbol(keys[i]), v)];
    }
    KeysInOrderMakeStruct(fields, keys, entries);
    forall name | name in fields ensures exists e :: e in entries && e.key.sym == Some(name) {
      assert MapEntry(Symbol(name), fields[name]) in entries;
    }
    x := Blank(ScvMap).(map_ := MapOf(entries));
  }

  /** A generated struct encoder yields the strictly sorted entries of its field map, whatever order the map was walked in. */
  lemma {:induction false} StructEncodingIsOrderFree(ty: Ty, v: Val, fields: map<string, ScVal>, built: seq<MapEntry>)
    requires ty.TyStruct? && Supported(ty) && HasType(ty, v) && Encode(ty, v).Done?
    requires fields.Keys == set i | 0 <= i < |ty.fields| :: ty.fields[i].name
    requires forall i :: 0 <= i < |ty.fields| ==> EncodeField(ty.fields[i], v.fields[i]) == Done(fields[ty.fields[i].name])
    requires IsStructOf(fields, built)
    ensures Encode(ty, v).x == Blank(ScvMap).(map_ := MapOf(built))
  {
    var fs := ty.fields;
    FieldEntries(fs, v.fields);
    var entries := EncodeFields(fs, v.fields).value;
    SortedEntriesAreStruct(fs, entries, fields);
    StructIsUnique(fields, Sort(entries, ByKey), built);
  }

  lemma {:induction false} StructIsUnique(fields: map<string, ScVal>, a: seq<MapEntry>, b: seq<MapEntry>)
    requires IsStructOf(fields, a) && IsStructOf(fields, b)
    ensures a == b
  {
    forall u ensures u in a <==> u in b {
      if u in a { assert MapEntry(Symbol(KeyOf(u)), fields[KeyOf(u)]) in b; }
      if u in b { assert MapEntry(Symbol(KeyOf(u)), fields[KeyOf(u)]) in a; }
    }
    StrictListIsUnique(a, b, ByKey);
  }

  lemma {:induction false} ByKeyIsTotalPreorder()
    ensures TotalPreorder(ByKey)
    ensures forall a, b :: ByKey(a, b) && ByKey(b, a) ==> KeyOf(a) == KeyOf(b)
  {
    StringLeqIsTotalPreorder();
    forall a, b, c | ByKey(a, b) && ByKey(b, c) ensures ByKey(a, c) {
      StringLeqTransitive(KeyOf(a), KeyOf(b), KeyOf(c));
    }
    forall a, b ensures ByKey(a, b) || ByKey(b, a) {
      StringLeqTotal(KeyOf(a), KeyOf(b));
    }
  }

  lemma {:induction false} SortedEntriesAreStruct(fs: seq<Field>, entries: seq<MapEntry>, fields: map<string, ScVal>)
    requires |entries| == |fs| && forall i, j :: 0 <= i < j < |fs| ==> fs[i].name != fs[j].name
    requires fields.Keys == set i | 0 <= i < |fs| :: fs[i].name
    requires forall i :: 0 <= i < |fs| ==> entries[i] == MapEntry(Symbol(fs[i].name), fields[fs[i].name])
    ensures IsStructOf(fields, Sort(entries, ByKey))
  {
    ByKeyIsTotalPreorder();
    forall i, j | 0 <= i < j < |entries| ensures !ByKey(entries[i], entries[j]) || !ByKey(entries[j], entries[i]) {
      assert KeyOf(entries[i]) == fs[i].name && KeyOf(entries[j]) == fs[j].name;
    }
    SortIsStrict(entries, ByKey);
    forall k | k in fields ensures MapEntry(Symbol(k), fields[k]) in Sort(entries, ByKey) {
      var i :| 0 <= i < |fs| && fs[i].name == k;
      assert entries[i] in entries;
    }
  }

  lemma {:induction false} FieldEntries(fs: seq<Field>, vals: seq<Val>)
    requires |vals| == |fs| && forall i :: 0 <= i < |fs| ==> FieldHasType(fs[i], vals[i])
    requires EncodeFields(fs, vals).Some?
    ensures var r := EncodeFields(fs, vals).value;
            && |r| == |fs|
            && forall i :: 0 <= i < |fs| ==>
                 r[i].key == Symbol(fs[i].name) && EncodeField(fs[i], vals[i]) == Done(r[i].val)
  {
    if fs != [] {
      FieldEntries(fs[1..], vals[1..]);
      var r, rest := EncodeFields(fs, vals).value, EncodeFields(fs[1..], vals[1..]).value;
      forall i | 0 < i < |fs|
        ensures r[i] == rest[i - 1] && fs[i] == fs[1..][i - 1] && vals[i] == vals[1..][i - 1]
      {
      }
    }
  }
}
