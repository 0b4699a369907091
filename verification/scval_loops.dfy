/** The converters' recursive procedures with their loops over vectors, maps and argument lists. */
module ScValLoops {
  import opened Wrappers
  import opened Xdr
  import opened Domain
  import opened ScValConvert

  // ---- The recursive functions, element by element ----

  lemma {:induction false} VecFromDomainByElement(ps: seq<Pointer>, i: nat, out: seq<ScVal>)
    requires i == |out| <= |ps| && forall j :: 0 <= j < i ==> PointerFromDomain(ps[j]) == Some(out[j])
    ensures i == |ps| ==> VecFromDomain(ps) == Some(out)
    ensures i < |ps| && PointerFromDomain(ps[i]).None? ==> VecFromDomain(ps).None?
  {
    if i > 0 {
      VecFromDomainByElement(ps[1..], i - 1, out[1..]);
      assert out == [out[0]] + out[1..];
    }
  }

  lemma {:induction false} MapFromDomainByElement(es: seq<DomainEntry>, i: nat, out: seq<MapEntry>)
    requires i == |out| <= |es| && forall j :: 0 <= j < i ==> EntryFromDomain(es[j]) == Some(out[j])
    ensures i == |es| ==> MapFromDomain(es) == Some(out)
    ensures i < |es| && EntryFromDomain(es[i]).None? ==> MapFromDomain(es).None?
  {
    if i > 0 {
      MapFromDomainByElement(es[1..], i - 1, out[1..]);
      assert out == [out[0]] + out[1..];
    }
  }

  lemma {:induction false} VecToDomainByElement(xs: seq<ScVal>, i: nat, out: seq<Pointer>)
    requires i == |out| <= |xs| && forall j :: 0 <= j < i ==> out[j].To? && ToDomain(xs[j]) == Some(out[j].val)
    ensures i == |xs| ==> VecToDomain(xs) == Some(out)
    ensures i < |xs| && ToDomain(xs[i]).None? ==> VecToDomain(xs).None?
  {
    if i > 0 {
      VecToDomainByElement(xs[1..], i - 1, out[1..]);
      assert out == [out[0]] + out[1..];
    }
  }

  lemma {:induction false} MapToDomainByElement(es: seq<MapEntry>, i: nat, out: seq<DomainEntry>)
    requires i == |out| <= |es| && forall j :: 0 <= j < i ==> EntryToDomain(es[j]) == Some(out[j])
    ensures i == |es| ==> MapToDomain(es) == Some(out)
    ensures i < |es| && EntryToDomain(es[i]).None? ==> MapToDomain(es).None?
  {
    if i > 0 {
      MapToDomainByElement(es[1..], i - 1, out[1..]);
      assert out == [out[0]] + out[1..];
    }
  }

  // ---- The procedures ----

  method ConvertFromDomain(d: DomainVal) returns (r: Option<ScVal>)
    ensures r == FromDomain(d)
    decreases d, 1
  {
    match d.ty
    case TVec =>
      if d.vec.NilVecField? {
        return None;
      }
      var items := ConvertItemsFromDomain(d.vec.values);
      r := if items.None? then None else Some(Blank(ScvVec).(vec := VecOf(items.value)));
    case TMap =>
      if d.map_.NilMapField? {
        return None;
      }
      var entries := ConvertEntriesFromDomain(d.map_.entries);
      r := if entries.None? then None else Some(Blank(ScvMap).(map_ := MapOf(entries.value)));
    case _ => r := LeafFromDomain(d);
  }

  method ConvertItemsFromDomain(values: seq<Pointer>) returns (r: Option<seq<ScVal>>)
    ensures r == VecFromDomain(values)
    decreases values, 0
  {
    var items := [];
    for i := 0 to |values|
      invariant |items| == i && forall j :: 0 <= j < i ==> PointerFromDomain(values[j]) == Some(items[j])
    {
      VecFromDomainByElement(values, i, items);
      var e := values[i];
      if e.Null? {
        return None;
      }
      assert e decreases to e.val;
      var c := ConvertFromDomain(e.val);
      if c.None? {
        return None;
      }
      items := items + [c.value];
    }
    VecFromDomainByElement(values, |values|, items);
    r := Some(items);
  }

  method ConvertEntriesFromDomain(es: seq<DomainEntry>) returns (r: Option<seq<MapEntry>>)
    ensures r == MapFromDomain(es)
    decreases es, 0
  {
    var entries := [];
    for i := 0 to |es|
      invariant |entries| == i && forall j :: 0 <= j < i ==> EntryFromDomain(es[j]) == Some(entries[j])
    {
      MapFromDomainByElement(es, i, entries);
      var e := es[i];
      if e.key.Null? || e.val.Null? {
        assert PointerFromDomain(Null).None?;
        assert EntryFromDomain(e).None?;
        return None;
      }
      assert (e decreases to e.key) && (e.key decreases to e.key.val);
      var k := ConvertFromDomain(e.key.val);
      assert PointerFromDomain(e.key) == k;
      if k.None? {
        assert EntryFromDomain(e).None?;
        return None;
      }
      assert (e decreases to e.val) && (e.val decreases to e.val.val);
      var v := ConvertFromDomain(e.val.val);
      assert PointerFromDomain(e.val) == v;
      assert EntryFromDomain(e) == if k.None? || v.None? then None else Some(MapEntry(k.value, v.value));
      if v.None? {
        return None;
      }
      entries := entries + [MapEntry(k.value, v.value)];
    }
    MapFromDomainByElement(es, |es|, entries);
    r := Some(entries);
  }

  /** `convertScValsToDomain`: contract arguments, none of them converted if one cannot be. */
  method ConvertArguments(vals: seq<DomainVal>) returns (out: Option<seq<ScVal>>)
    ensures out.Some? <==> forall i :: 0 <= i < |vals| ==> FromDomain(vals[i]).Some?
    ensures out.Some? ==> |out.value| == |vals| && forall i :: 0 <= i < |vals| ==> Some(out.value[i]) == FromDomain(vals[i])
  {
    var converted := [];
    for i := 0 to |vals|
      invariant |converted| == i && forall j :: 0 <= j < i ==> Some(converted[j]) == FromDomain(vals[j])
    {
      var x := ConvertFromDomain(vals[i]);
      if x.None? {
        return None;
      }
      converted := converted + [x.value];
    }
    out := Some(converted);
  }

  method ConvertToDomain(x: ScVal) returns (r: Option<DomainVal>)
    ensures r == ToDomain(x)
    decreases x, 1
  {
    match x.ty
    case ScvVec =>
      if x.vec.NoVec? {
        return None;
      }
      var values := [];
      if x.vec.VecOf? {
        var items := ConvertItemsToDomain(x.vec.items);
        if items.None? {
          return None;
        }
        values := items.value;
      }
      r := Some(Empty(TVec).(vec := VecField(values)));
    case ScvMap =>
      if x.map_.NoMap? {
        return None;
      }
      var entries := [];
      if x.map_.MapOf? {
        var converted := ConvertEntriesToDomain(x.map_.entries);
        if converted.None? {
          return None;
        }
        entries := converted.value;
      }
      r := Some(Empty(TMap).(map_ := MapField(entries)));
    case ScvContractInstance =>
      if x.instance.NoInstance? {
        return None;
      }
      var exe := ExecutableToDomain(x.instance.executable);
      if exe.None? {
        return None;
      }
      var storage := [];
      if x.instance.storage.MapOf? {
        var converted := ConvertEntriesToDomain(x.instance.storage.entries);
        if converted.None? {
          return None;
        }
        storage := converted.value;
      }
      r := Some(Empty(TContractInstance).(contractInstance := InstanceField(exe.value, storage)));
    case _ => r := LeafToDomain(x);
  }

  method ConvertItemsToDomain(items: seq<ScVal>) returns (r: Option<seq<Pointer>>)
    ensures r == VecToDomain(items)
    decreases items, 0
  {
    var values: seq<Pointer> := [];
    for i := 0 to |items|
      invariant |values| == i && forall j :: 0 <= j < i ==> values[j].To? && ToDomain(items[j]) == Some(values[j].val)
    {
      VecToDomainByElement(items, i, values);
      var converted := ConvertToDomain(items[i]);
      if converted.None? {
        return None;
      }
      values := values + [To(converted.value)];
    }
    VecToDomainByElement(items, |items|, values);
    r := Some(values);
  }

  /** `convertScMapToDomain`. */
  method ConvertEntriesToDomain(m: seq<MapEntry>) returns (r: Option<seq<DomainEntry>>)
    ensures r == MapToDomain(m)
    decreases m, 0
  {
    var entries := [];
    for i := 0 to |m|
      invariant |entries| == i && forall j :: 0 <= j < i ==> EntryToDomain(m[j]) == Some(entries[j])
    {
      MapToDomainByElement(m, i, entries);
      var entry := m[i];
      assert (entry decreases to entry.key) && (entry decreases to entry.val);
      var key := ConvertToDomain(entry.key);
      if key.None? {
        return None;
      }
      var val := ConvertToDomain(entry.val);
      if val.None? {
        return None;
      }
      entries := entries + [DomainEntry(To(key.value), To(val.value))];
    }
    MapToDomainByElement(m, |m|, entries);
    r := Some(entries);
  }
}
