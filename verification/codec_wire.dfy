/** What the generated encoders put on the wire, said by the arms of the value they produce. */
module CodecWire {
  import opened Wrappers
  import opened Xdr
  import opened Sorting
  import opened Codecs
  import opened CodecRoundTrip

  /** The address arm spells the key; text that is no key leaves it nil. */
  predicate SpellsAddress(key: Address, arm: Option<ScAddress>) {
    match key
    case AccountKey(id) => arm.Some? && arm.value.ty == Account && arm.value.accountId == Some(Some(id))
    case ContractKey(id) => arm.Some? && arm.value.ty == Contract && arm.value.contractId == Some(id)
    case NotAKey(_) => arm.None?
  }

  predicate IsSymbol(x: ScVal, name: string) {
    x.ty == ScvSymbol && x.sym == Some(name)
  }

  /** Names ascend: a proper prefix comes first, and else the first difference decides. */
  ghost predicate NamesAscend(entries: seq<MapEntry>) {
    forall i, j :: 0 <= i < j < |entries| && entries[i].key.sym.Some? && entries[j].key.sym.Some? ==>
      var a, b := entries[i].key.sym.value, entries[j].key.sym.value;
      a < b || exists k :: 0 <= k < |a| && k < |b| && a[..k] == b[..k] && a[k] < b[k]
  }

  /** `x` carries the Go value `v` of type `ty` in the form Soroban gives that type. */
  ghost predicate Carries(ty: Ty, v: Val, x: ScVal)
    requires HasType(ty, v)
    decreases ty, 0
  {
    match ty
    case TyU32 => x.ty == ScvU32 && x.u32 == Some(v.n)
    case TyUnitEnum => x.ty == ScvU32 && x.u32 == Some(v.n)
    case TyU64 => x.ty == ScvU64 && x.u64 == Some(v.n)
    case TyI128 => x.ty == ScvI128 && x.i128.Some? && x.i128.value.hi * 0x1_0000_0000_0000_0000 + x.i128.value.lo == v.n
    case TyU128 => x.ty == ScvU128 && x.u128 == Some(v.parts)
    case TyBool => x.ty == ScvBool && x.b == Some(v.b)
    case TyAddress => x.ty == ScvAddress && SpellsAddress(v.key, x.address)
    case TyOptAddress =>
      if v.opt.None? then x.ty == ScvVoid else x.ty == ScvAddress && SpellsAddress(v.opt.value, x.address)
    case TyBytes => x.ty == ScvBytes && x.bytes == Some(v.bytes)
    case TyBytesN(_) => x.ty == ScvBytes && x.bytes == Some(v.bytes)
    case TyString => x.ty == ScvString && x.str == Some(v.text)
    case TySymbol => x.ty == ScvSymbol && x.sym == Some(v.text)
    case TyVec(e) =>
      && x.ty == ScvVec && x.vec.VecOf? && |x.vec.items| == |v.items|
      && forall i :: 0 <= i < |v.items| ==> Carries(e, v.items[i], x.vec.items[i])
    case TyStruct(fs) =>
      && x.ty == ScvMap && x.map_.MapOf? && |x.map_.entries| == |fs|
      && NamesAscend(x.map_.entries)
      && forall i :: 0 <= i < |fs| ==> CarriesField(fs[i], v.fields[i], x.map_.entries)
    case TyUnion(vs) =>
      && x.ty == ScvVec && x.vec.VecOf?
      && exists i :: 0 <= i < |vs| && CarriesArm(vs[i], v.arms[i], x.vec.items)
  }

  /** One of the entries is the field's. */
  ghost predicate CarriesField(f: Field, v: Val, entries: seq<MapEntry>)
    requires FieldHasType(f, v)
    decreases f, 0
  {
    exists j :: 0 <= j < |entries| && IsSymbol(entries[j].key, f.name) && Carries(f.ty, v, entries[j].val)
  }

  /** The variant's name, then its payload. */
  ghost predicate CarriesArm(variant: Variant, arm: Arm, items: seq<ScVal>)
    requires ArmHasType(variant, arm)
    decreases variant, 1
  {
    && arm.Set? && items != [] && IsSymbol(items[0], variant.name)
    && CarriesPayload(variant.payload, arm.payload, items[1..])
  }

  ghost predicate CarriesPayload(tys: seq<Ty>, vals: seq<Val>, items: seq<ScVal>)
    requires PayloadHasType(tys, vals)
    decreases tys, 0
  {
    |items| == |tys| && forall i :: 0 <= i < |tys| ==> Carries(tys[i], vals[i], items[i])
  }

  lemma {:induction false} ScalarIsCarried(ty: Ty, v: Val)
    requires HasType(ty, v) && !ty.TyVec? && !ty.TyStruct? && !ty.TyUnion?
    ensures Encode(ty, v).Done? && Carries(ty, v, Encode(ty, v).x)
  {
    if ty.TyI128? {
      I128RoundTrip(v.n);
    }
  }

  ghost predicate CarriesItems(ty: Ty, vals: seq<Val>, items: seq<ScVal>)
    requires forall i :: 0 <= i < |vals| ==> HasType(ty, vals[i])
  {
    |items| == |vals| && forall i :: 0 <= i < |vals| ==> Carries(ty, vals[i], items[i])
  }

  lemma {:induction false} CarriesItemsCons(ty: Ty, vals: seq<Val>, x: ScVal, xs: seq<ScVal>)
    requires vals != [] && forall i :: 0 <= i < |vals| ==> HasType(ty, vals[i])
    requires Carries(ty, vals[0], x) && CarriesItems(ty, vals[1..], xs)
    ensures CarriesItems(ty, vals, [x] + xs)
  {
    forall i | 0 < i < |vals| ensures Carries(ty, vals[i], ([x] + xs)[i]) {
      assert vals[i] == vals[1..][i - 1] && ([x] + xs)[i] == xs[i - 1];
    }
  }

  lemma {:induction false} ItemsAreCarried(ty: Ty, vals: seq<Val>)
    requires Supported(ty) && forall i :: 0 <= i < |vals| ==> HasType(ty, vals[i])
    requires EncodeItems(ty, vals).Some?
    ensures CarriesItems(ty, vals, EncodeItems(ty, vals).value)
    decreases ty, 1, |vals|
  {
    if vals != [] {
      EncodeItemsCons(ty, vals);
      ValueIsCarried(ty, vals[0]);
      ItemsAreCarried(ty, vals[1..]);
      CarriesItemsCons(ty, vals, Encode(ty, vals[0]).x, EncodeItems(ty, vals[1..]).value);
    }
  }

  lemma {:induction false} PayloadIsCarried(tys: seq<Ty>, vals: seq<Val>)
    requires PayloadHasType(tys, vals) && forall i :: 0 <= i < |tys| ==> Supported(tys[i])
    requires EncodePayload(tys, vals).Some?
    ensures CarriesPayload(tys, vals, EncodePayload(tys, vals).value)
    decreases tys, 0, 0
  {
    if tys != [] {
      ValueIsCarried(tys[0], vals[0]);
      PayloadIsCarried(tys[1..], vals[1..]);
    }
  }

  lemma {:induction false} FieldIsCarried(f: Field, v: Val, entries: seq<MapEntry>, entry: MapEntry)
    requires SupportedField(f) && FieldHasType(f, v) && entry in entries
    requires entry.key == Symbol(f.name) && EncodeField(f, v) == Done(entry.val)
    ensures CarriesField(f, v, entries)
    decreases f, 0, 0
  {
    ValueIsCarried(f.ty, v);
    var j :| 0 <= j < |entries| && entries[j] == entry;
    assert IsSymbol(entries[j].key, f.name);
  }

  lemma {:induction false} StrictNamesAscend(entries: seq<MapEntry>)
    requires StrictlySorted(entries, ByKey) && forall e :: e in entries ==> e.key.ty == ScvSymbol
    ensures NamesAscend(entries)
  {
    forall i, j | 0 <= i < j < |entries| && entries[i].key.sym.Some? && entries[j].key.sym.Some?
      ensures var a, b := entries[i].key.sym.value, entries[j].key.sym.value;
              a < b || exists k :: 0 <= k < |a| && k < |b| && a[..k] == b[..k] && a[k] < b[k]
    {
      assert entries[i] in entries && entries[j] in entries;
      StrictlyBeforeIsLexicographic(KeyOf(entries[i]), KeyOf(entries[j]));
      StringLeqTotal(KeyOf(entries[i]), KeyOf(entries[j]));
    }
  }

  lemma {:induction false} SortedNamesAscend(fs: seq<Field>, entries: seq<MapEntry>)
    requires |entries| == |fs| && forall i, j :: 0 <= i < j < |fs| ==> fs[i].name != fs[j].name
    requires forall i :: 0 <= i < |fs| ==> entries[i].key == Symbol(fs[i].name)
    ensures NamesAscend(Sort(entries, ByKey))
  {
    ByKeyIsTotalPreorder();
    forall i, j | 0 <= i < j < |entries| ensures !ByKey(entries[i], entries[j]) || !ByKey(entries[j], entries[i]) {
      assert KeyOf(entries[i]) == fs[i].name && KeyOf(entries[j]) == fs[j].name;
    }
    SortIsStrict(entries, ByKey);
    forall e | e in Sort(entries, ByKey) ensures e.key.ty == ScvSymbol {
      assert e in entries;
    }
    StrictNamesAscend(Sort(entries, ByKey));
  }

  lemma {:induction false} StructIsCarried(ty: Ty, v: Val)
    requires ty.TyStruct? && Supported(ty) && HasType(ty, v) && Encode(ty, v).Done?
    ensures Carries(ty, v, Encode(ty, v).x)
    decreases ty, 0, 0
  {
    var fs := ty.fields;
    EncodeStruct(ty, v);
    FieldEntries(fs, v.fields);
    var entries := EncodeFields(fs, v.fields).value;
    var sorted := Sort(entries, ByKey);
    SortPermutes(entries, ByKey);
    SortedNamesAscend(fs, entries);
    forall i | 0 <= i < |fs| ensures CarriesField(fs[i], v.fields[i], sorted) {
      assert entries[i] in entries;
      FieldIsCarried(fs[i], v.fields[i], sorted, entries[i]);
    }
  }

  lemma {:induction false} UnionIsCarried(ty: Ty, v: Val)
    requires ty.TyUnion? && Supported(ty) && HasType(ty, v) && Encode(ty, v).Done?
    ensures Carries(ty, v, Encode(ty, v).x)
    decreases ty, 0, 0
  {
    var k := FirstSet(v.arms);
    var variant, arm := ty.variants[k], v.arms[k];
    assert ArmHasType(variant, arm) && SupportedVariant(variant);
    assert (ty decreases to variant) && (variant decreases to variant.payload);
    PayloadIsCarried(variant.payload, arm.payload);
    var items := Encode(ty, v).x.vec.items;
    assert items[1..] == EncodePayload(variant.payload, arm.payload).value;
    assert CarriesArm(variant, arm, items);
  }

  lemma {:induction false} ValueIsCarried(ty: Ty, v: Val)
    requires Supported(ty) && HasType(ty, v) && Encode(ty, v).Done?
    ensures Carries(ty, v, Encode(ty, v).x)
    decreases ty, 0, 1
  {
    match ty
    case TyVec(e) => ItemsAreCarried(e, v.items);
    case TyStruct(_) => StructIsCarried(ty, v);
    case TyUnion(_) => UnionIsCarried(ty, v);
    case _ => ScalarIsCarried(ty, v);
  }

  /** For every supported type: what the encoder produces carries the value in Soroban's form for the type. */
  lemma {:induction false} EncodingIsTheWireForm(ty: Ty, v: Val)
    requires Supported(ty) && HasType(ty, v) && Encode(ty, v).Done?
    ensures Carries(ty, v, Encode(ty, v).x)
  {
    ValueIsCarried(ty, v);
  }

  lemma {:induction false} NumbersDecodeExactly(ty: Ty, v: Val, x: ScVal)
    requires ty.TyU32? || ty.TyUnitEnum? || ty.TyU64? || ty.TyU128? || ty.TyBool?
    ensures Decode(ty, x) == Some(v) <==> HasType(ty, v) && KeysReal(ty, v) && Carries(ty, v, x)
  {
  }

  lemma {:induction false} AddressesDecodeExactly(ty: Ty, v: Val, x: ScVal)
    requires ty.TyAddress? || ty.TyOptAddress?
    ensures Decode(ty, x) == Some(v) <==> HasType(ty, v) && KeysReal(ty, v) && Carries(ty, v, x)
  {
  }

  lemma {:induction false} TextsDecodeExactly(ty: Ty, v: Val, x: ScVal)
    requires ty.TyBytes? || ty.TyBytesN? || ty.TyString? || ty.TySymbol?
    ensures Decode(ty, x) == Some(v) <==> HasType(ty, v) && KeysReal(ty, v) && Carries(ty, v, x)
  {
  }

  /** A scalar decodes from exactly the values that carry it, whoever encoded them. */
  lemma {:induction false} ScalarsDecodeExactly(ty: Ty, v: Val, x: ScVal)
    requires !ty.TyVec? && !ty.TyStruct? && !ty.TyUnion? && !ty.TyI128?
    ensures Decode(ty, x) == Some(v) <==> HasType(ty, v) && KeysReal(ty, v) && Carries(ty, v, x)
  {
    match ty
    case TyAddress => AddressesDecodeExactly(ty, v, x);
    case TyOptAddress => AddressesDecodeExactly(ty, v, x);
    case TyBytes => TextsDecodeExactly(ty, v, x);
    case TyBytesN(_) => TextsDecodeExactly(ty, v, x);
    case TyString => TextsDecodeExactly(ty, v, x);
    case TySymbol => TextsDecodeExactly(ty, v, x);
    case _ => NumbersDecodeExactly(ty, v, x);
  }

  /** An i128 decodes from every i128, to the 64-bit number congruent to it. */
  lemma {:induction false} I128DecodesExactly(n: int, x: ScVal)
    ensures Decode(TyI128, x) == Some(VNum(n)) <==>
            && x.ty == ScvI128 && x.i128.Some?
            && -0x8000_0000_0000_0000 <= n < 0x8000_0000_0000_0000
            && (n == x.i128.value.lo || n == x.i128.value.lo - 0x1_0000_0000_0000_0000)
  {
  }

  // ---- Decoding what may come from anyone ----

  lemma {:induction false} ItemsDecodeElementwise(ty: Ty, items: seq<ScVal>, vals: seq<Val>)
    ensures DecodeItems(ty, items) == Some(vals) <==>
            |vals| == |items| && forall i :: 0 <= i < |items| ==> Decode(ty, items[i]) == Some(vals[i])
    decreases |items|
  {
    if items != [] {
      if vals != [] {
        ItemsDecodeElementwise(ty, items[1..], vals[1..]);
        assert vals == [vals[0]] + vals[1..];
        assert forall i :: 0 < i < |items| ==> items[i] == items[1..][i - 1];
        assert forall i :: 0 < i < |vals| ==> vals[i] == vals[1..][i - 1];
      }
    }
  }

  lemma {:induction false} PayloadDecodesElementwise(tys: seq<Ty>, items: seq<ScVal>, vals: seq<Val>)
    requires |items| == |tys|
    ensures DecodePayload(tys, items) == Some(vals) <==>
            |vals| == |items| && forall i :: 0 <= i < |items| ==> Decode(tys[i], items[i]) == Some(vals[i])
    decreases |items|
  {
    if items != [] {
      if vals != [] {
        PayloadDecodesElementwise(tys[1..], items[1..], vals[1..]);
        assert vals == [vals[0]] + vals[1..];
        assert forall i :: 0 < i < |items| ==> items[i] == items[1..][i - 1] && tys[i] == tys[1..][i - 1];
        assert forall i :: 0 < i < |vals| ==> vals[i] == vals[1..][i - 1];
      }
    }
  }

  /** A vector decodes exactly if each of its items does, and then to what they decode to, in order. */
  lemma {:induction false} VecsDecodeExactly(e: Ty, v: Val, x: ScVal)
    ensures Decode(TyVec(e), x) == Some(v) <==>
            && x.ty == ScvVec && x.vec.VecOf? && v.VVec? && |v.items| == |x.vec.items|
            && forall i :: 0 <= i < |v.items| ==> Decode(e, x.vec.items[i]) == Some(v.items[i])
  {
    if x.vec.VecOf? {
      ItemsDecodeElementwise(e, x.vec.items, if v.VVec? then v.items else []);
    }
  }

  /** A union decodes only from the name of one of its variants and as many payload items as that has. */
  lemma {:induction false} UnionsDecodeOnlyFromVariants(ty: Ty, x: ScVal)
    requires ty.TyUnion? && Decode(ty, x).Some?
    ensures x.ty == ScvVec && x.vec.VecOf? && x.vec.items != []
    ensures exists i :: 0 <= i < |ty.variants| &&
              IsSymbol(x.vec.items[0], ty.variants[i].name) && |x.vec.items| == 1 + |ty.variants[i].payload|
  {
    var i := CaseOf(VariantNames(ty.variants), x.vec.items[0].sym.value).value;
    assert IsSymbol(x.vec.items[0], ty.variants[i].name);
  }

  /** An entry of none of the fields. */
  ghost predicate Foreign(fs: seq<Field>, e: MapEntry) {
    forall i :: 0 <= i < |fs| ==> !IsSymbol(e.key, fs[i].name)
  }

  /** Struct decoding passes over foreign entries, wherever they are. */
  lemma {:induction false} ForeignEntriesAreSkipped(
      fs: seq<Field>, front: seq<MapEntry>, e: MapEntry, back: seq<MapEntry>, acc: seq<Val>)
    requires |acc| == |fs| && Foreign(fs, e)
    ensures DecodeEntries(fs, front + [e] + back, acc) == DecodeEntries(fs, front + back, acc)
    decreases |front|
  {
    if front == [] {
      assert [] + [e] + back == [e] + back && [] + back == back;
      assert ([e] + back)[1..] == back;
    } else {
      var all, kept := front + [e] + back, front + back;
      assert all[0] == kept[0] == front[0];
      assert all[1..] == front[1..] + [e] + back && kept[1..] == front[1..] + back;
      var key := front[0].key;
      if key.ty.ScvSymbol? && key.sym.Some? && CaseOf(FieldNames(fs), key.sym.value).Some? {
        var i := CaseOf(FieldNames(fs), key.sym.value).value;
        var v := DecodeField(fs[i], front[0].val);
        if v.Some? {
          ForeignEntriesAreSkipped(fs, front[1..], e, back, acc[i := v.value]);
        }
      } else {
        ForeignEntriesAreSkipped(fs, front[1..], e, back, acc);
      }
    }
  }

  /** A later entry of a field overrides earlier ones. */
  lemma {:induction false} LastEntryWins(fs: seq<Field>, es: seq<MapEntry>, e: MapEntry, i: nat, acc: seq<Val>)
    requires |acc| == |fs| && i < |fs| && IsSymbol(e.key, fs[i].name)
    requires forall j, k :: 0 <= j < k < |fs| ==> fs[j].name != fs[k].name
    ensures var before, v := DecodeEntries(fs, es, acc), DecodeField(fs[i], e.val);
            DecodeEntries(fs, es + [e], acc) ==
            if before.None? || v.None? then None else Some(before.value[i := v.value])
    decreases |es|
  {
    assert CaseOf(FieldNames(fs), fs[i].name) == Some(i);
    if es == [] {
      assert [] + [e] == [e] && [e][1..] == [];
    } else {
      assert (es + [e])[0] == es[0] && (es + [e])[1..] == es[1..] + [e];
      var key := es[0].key;
      if key.ty.ScvSymbol? && key.sym.Some? && CaseOf(FieldNames(fs), key.sym.value).Some? {
        var k := CaseOf(FieldNames(fs), key.sym.value).value;
        var v := DecodeField(fs[k], es[0].val);
        if v.Some? {
          LastEntryWins(fs, es[1..], e, i, acc[k := v.value]);
        }
      } else {
        LastEntryWins(fs, es[1..], e, i, acc);
      }
    }
  }
}
