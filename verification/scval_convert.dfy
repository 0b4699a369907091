/** The relayer's two translators between its own Soroban values and the XDR library's. */
module ScValConvert {
  import opened Wrappers
  import opened Xdr
  import opened Domain

  // ---- XDR to domain ----

  function ErrorTypeToDomain(e: ErrorType): Option<DomainErrorType> {
    match e
    case SceContract => Some(EContract)
    case SceWasmVm => Some(EWasmVM)
    case SceContext => Some(EContext)
    case SceStorage => Some(EStorage)
    case SceObject => Some(EObject)
    case SceCrypto => Some(ECrypto)
    case SceEvents => Some(EEvents)
    case SceBudget => Some(EBudget)
    case SceValue => Some(EValue)
    case SceAuth => Some(EAuth)
    case SceOther(_) => None
  }

  function ErrorToDomain(e: ScError): Option<DomainError> {
    var ty := ErrorTypeToDomain(e.ty);
    if ty.None? then None
    else if e.ty == SceContract then
      if e.contractCode.None? then None else Some(DomainError(ty.value, e.contractCode, None))
    else if e.code.None? then None
    else Some(DomainError(ty.value, None, e.code))
  }

  function AddressToDomain(a: ScAddress): Option<DomainAddress> {
    match a.ty
    case Account =>
      if a.accountId.None? || a.accountId.value.None? then None
      else Some(EmptyAddress(AAccountID).(accountID := a.accountId.value.value))
    case Contract =>
      if a.contractId.None? then None else Some(EmptyAddress(AContractID).(contractID := a.contractId.value))
    case MuxedAccount =>
      if a.muxed.None? then None
      else Some(EmptyAddress(AMuxedAccount).(muxedAccount := Some((a.muxed.value.id, a.muxed.value.ed25519))))
    case ClaimableBalance =>
      if a.claimableBalance.None? || a.claimableBalance.value.None? then None
      else Some(EmptyAddress(AClaimableBalanceID).(claimableBalance := a.claimableBalance.value))
    case LiquidityPool =>
      if a.liquidityPool.None? then None else Some(EmptyAddress(ALiquidityPoolID).(liquidityPoolID := a.liquidityPool.value))
    case OtherAddress(_) => None
  }

  function ExecutableToDomain(e: Executable): Option<DomainExecutable> {
    match e
    case Wasm(hash) => if hash.None? then None else Some(WasmHash(hash.value))
    case StellarAsset => Some(StellarAssetExecutable)
    case OtherExecutable(_) => None
  }

  /** The arms of `convertScValToDomain` that hold no further values. */
  function LeafToDomain(x: ScVal): Option<DomainVal> {
    if !DeclaredArmSet(x) then None else
    match x.ty
    case ScvBool => Some(Empty(TBool).(bool_ := x.b))
    case ScvVoid => Some(Empty(TVoid).(void := true))
    case ScvError =>
      var e := ErrorToDomain(x.error.value);
      if e.None? then None else Some(Empty(TError).(error := e))
    case ScvU32 => Some(Empty(TU32).(u32 := x.u32))
    case ScvI32 => Some(Empty(TI32).(i32 := x.i32))
    case ScvU64 => Some(Empty(TU64).(u64 := x.u64))
    case ScvI64 => Some(Empty(TI64).(i64 := x.i64))
    case ScvTimepoint => Some(Empty(TTimepoint).(timepoint := x.timepoint))
    case ScvDuration => Some(Empty(TDuration).(duration := x.duration))
    case ScvU128 => Some(Empty(TU128).(u128 := x.u128))
    case ScvI128 => Some(Empty(TI128).(i128 := x.i128))
    case ScvU256 => Some(Empty(TU256).(u256 := x.u256))
    case ScvI256 => Some(Empty(TI256).(i256 := x.i256))
    case ScvBytes => Some(Empty(TBytes).(bytes := x.bytes.value))
    case ScvString => Some(Empty(TString).(string_ := x.str))
    case ScvSymbol => Some(Empty(TSymbol).(symbol := x.sym))
    case ScvAddress =>
      var a := AddressToDomain(x.address.value);
      if a.None? then None else Some(Empty(TAddress).(address := a))
    case ScvLedgerKeyContractInstance =>
      Some(Empty(TLedgerKeyContractInstance).(ledgerKeyContractInstance := true))
    case ScvLedgerKeyNonce => Some(Empty(TNonceKey).(nonceKey := x.nonceKey))
    case _ => None
  }

  /** `convertScValToDomain`. */
  function ToDomain(x: ScVal): Option<DomainVal>
    decreases x
  {
    if !DeclaredArmSet(x) then None else
    match x.ty
    case ScvVec =>
      var values := if x.vec.VecOf? then VecToDomain(x.vec.items) else Some([]);
      if values.None? then None else Some(Empty(TVec).(vec := VecField(values.value)))
    case ScvMap =>
      var entries := if x.map_.MapOf? then MapToDomain(x.map_.entries) else Some([]);
      if entries.None? then None else Some(Empty(TMap).(map_ := MapField(entries.value)))
    case ScvContractInstance =>
      var exe := ExecutableToDomain(x.instance.executable);
      var storage := if x.instance.storage.MapOf? then MapToDomain(x.instance.storage.entries) else Some([]);
      if exe.None? || storage.None? then None
      else Some(Empty(TContractInstance).(contractInstance := InstanceField(exe.value, storage.value)))
    case _ => LeafToDomain(x)
  }

  function VecToDomain(items: seq<ScVal>): Option<seq<Pointer>>
    decreases items
  {
    if items == [] then Some([])
    else
      var head, tail := ToDomain(items[0]), VecToDomain(items[1..]);
      if head.None? || tail.None? then None else Some([To(head.value)] + tail.value)
  }

  function MapToDomain(entries: seq<MapEntry>): Option<seq<DomainEntry>>
    decreases entries
  {
    if entries == [] then Some([])
    else
      var head, tail := EntryToDomain(entries[0]), MapToDomain(entries[1..]);
      if head.None? || tail.None? then None else Some([head.value] + tail.value)
  }

  function EntryToDomain(entry: MapEntry): Option<DomainEntry>
    decreases entry
  {
    var key, val := ToDomain(entry.key), ToDomain(entry.val);
    if key.None? || val.None? then None else Some(DomainEntry(To(key.value), To(val.value)))
  }

  // ---- Domain to XDR ----

  /** `convertAddressToDomain`, which despite its name builds the XDR address. */
  function AddressFromDomain(a: DomainAddress): Option<ScAddress> {
    match a.ty
    case AAccountID => if |a.accountID| != 32 then None else Some(AccountAddress(a.accountID))
    case AContractID => if |a.contractID| != 32 then None else Some(ContractAddress(a.contractID))
    case _ => None
  }

  /** The arms of `convertScValFromDomain` that hold no further values. */
  function LeafFromDomain(d: DomainVal): Option<ScVal> {
    match d.ty
    case TBool => if d.bool_.None? then None else Some(Blank(ScvBool).(b := d.bool_))
    case TVoid => Some(Blank(ScvVoid))
    case TU32 => if d.u32.None? then None else Some(Blank(ScvU32).(u32 := d.u32))
    case TI32 => if d.i32.None? then None else Some(Blank(ScvI32).(i32 := d.i32))
    case TU64 => if d.u64.None? then None else Some(Blank(ScvU64).(u64 := d.u64))
    case TI64 => if d.i64.None? then None else Some(Blank(ScvI64).(i64 := d.i64))
    case TTimepoint => if d.timepoint.None? then None else Some(Blank(ScvTimepoint).(timepoint := d.timepoint))
    case TDuration => if d.duration.None? then None else Some(Blank(ScvDuration).(duration := d.duration))
    case TU128 => if d.u128.None? then None else Some(Blank(ScvU128).(u128 := d.u128))
    case TI128 => if d.i128.None? then None else Some(Blank(ScvI128).(i128 := d.i128))
    case TU256 => if d.u256.None? then None else Some(Blank(ScvU256).(u256 := d.u256))
    case TI256 => if d.i256.None? then None else Some(Blank(ScvI256).(i256 := d.i256))
    case TBytes => Some(Blank(ScvBytes).(bytes := Some(d.bytes)))
    case TString => if d.string_.None? then None else Some(Blank(ScvString).(str := d.string_))
    case TSymbol => if d.symbol.None? then None else Some(Blank(ScvSymbol).(sym := d.symbol))
    case TAddress =>
      if d.address.None? then None else
      var a := AddressFromDomain(d.address.value);
      if a.None? then None else Some(Blank(ScvAddress).(address := a))
    case _ => None
  }

  /** `convertScValFromDomain`. */
  function FromDomain(d: DomainVal): Option<ScVal>
    decreases d
  {
    match d.ty
    case TVec =>
      if d.vec.NilVecField? then None else
      var items := VecFromDomain(d.vec.values);
      if items.None? then None else Some(Blank(ScvVec).(vec := VecOf(items.value)))
    case TMap =>
      if d.map_.NilMapField? then None else
      var entries := MapFromDomain(d.map_.entries);
      if entries.None? then None else Some(Blank(ScvMap).(map_ := MapOf(entries.value)))
    case _ => LeafFromDomain(d)
  }

  function PointerFromDomain(p: Pointer): Option<ScVal>
    decreases p
  {
    match p
    case Null => None
    case To(d) => FromDomain(d)
  }

  function VecFromDomain(ps: seq<Pointer>): Option<seq<ScVal>>
    decreases ps
  {
    if ps == [] then Some([])
    else
      var head, tail := PointerFromDomain(ps[0]), VecFromDomain(ps[1..]);
      if head.None? || tail.None? then None else Some([head.value] + tail.value)
  }

  function MapFromDomain(es: seq<DomainEntry>): Option<seq<MapEntry>>
    decreases es
  {
    if es == [] then Some([])
    else
      var head, tail := EntryFromDomain(es[0]), MapFromDomain(es[1..]);
      if head.None? || tail.None? then None else Some([head.value] + tail.value)
  }

  function EntryFromDomain(e: DomainEntry): Option<MapEntry>
    decreases e
  {
    var key, val := PointerFromDomain(e.key), PointerFromDomain(e.val);
    if key.None? || val.None? then None else Some(MapEntry(key.value, val.value))
  }

  // ---- Round trips ----

  /** Everywhere a constructor that may be a contract argument; addresses only of accounts and contracts. */
  predicate Representable(x: ScVal)
    decreases x
  {
    match x.ty
    case ScvError => false
    case ScvContractInstance => false
    case ScvLedgerKeyContractInstance => false
    case ScvLedgerKeyNonce => false
    case ScvAddress => x.address.Some? && (x.address.value.ty == Account || x.address.value.ty == Contract)
    case ScvVec => x.vec.VecOf? ==> RepresentableAll(x.vec.items)
    case ScvMap => x.map_.MapOf? ==> RepresentableEntries(x.map_.entries)
    case _ => true
  }

  predicate RepresentableAll(xs: seq<ScVal>)
    decreases xs
  {
    xs == [] || (Representable(xs[0]) && RepresentableAll(xs[1..]))
  }

  predicate RepresentableEntries(es: seq<MapEntry>)
    decreases es
  {
    es == [] || (RepresentableEntry(es[0]) && RepresentableEntries(es[1..]))
  }

  predicate RepresentableEntry(e: MapEntry)
    decreases e
  {
    Representable(e.key) && Representable(e.val)
  }

  /** `x` with nil inner vectors and maps, and an instance's nil storage, replaced by empty ones, at every level. */
  function FillNil(x: ScVal): ScVal
    decreases x
  {
    match x.ty
    case ScvVec => x.(vec := if x.vec.VecOf? then VecOf(FillAll(x.vec.items)) else VecOf([]))
    case ScvMap => x.(map_ := if x.map_.MapOf? then MapOf(FillEntries(x.map_.entries)) else MapOf([]))
    case ScvContractInstance =>
      if x.instance.NoInstance? then x
      else
        var storage := if x.instance.storage.MapOf? then FillEntries(x.instance.storage.entries) else [];
        x.(instance := InstanceOf(x.instance.executable, MapOf(storage)))
    case _ => x
  }

  function FillAll(xs: seq<ScVal>): seq<ScVal>
    decreases xs
  {
    if xs == [] then [] else [FillNil(xs[0])] + FillAll(xs[1..])
  }

  function FillEntries(es: seq<MapEntry>): seq<MapEntry>
    decreases es
  {
    if es == [] then [] else [FillEntry(es[0])] + FillEntries(es[1..])
  }

  function FillEntry(e: MapEntry): MapEntry
    decreases e
  {
    MapEntry(FillNil(e.key), FillNil(e.val))
  }

  /** What the round trip from XDR promises of one value. */
  ghost predicate ComesBack(x: ScVal) {
    && ToDomain(x).Some?
    && FromDomain(ToDomain(x).value) == if Representable(x) then Some(FillNil(x)) else None
  }

  lemma {:induction false} AddressComesBack(x: ScVal)
    requires WellFormed(x) && x.ty.ScvAddress?
    ensures ComesBack(x)
  {
  }

  lemma {:induction false} ErrorComesBack(x: ScVal)
    requires WellFormed(x) && x.ty.ScvError?
    ensures ComesBack(x)
  {
  }

  lemma {:induction false} SmallLeafComesBack(x: ScVal)
    requires WellFormed(x) && (x.ty.ScvBool? || x.ty.ScvVoid? || x.ty.ScvU32? || x.ty.ScvI32?)
    ensures ComesBack(x)
  {
  }

  lemma {:induction false} WordLeafComesBack(x: ScVal)
    requires WellFormed(x) && (x.ty.ScvU64? || x.ty.ScvI64? || x.ty.ScvTimepoint? || x.ty.ScvDuration?)
    ensures ComesBack(x)
  {
  }

  lemma {:induction false} WideLeafComesBack(x: ScVal)
    requires WellFormed(x) && (x.ty.ScvU128? || x.ty.ScvI128? || x.ty.ScvU256? || x.ty.ScvI256?)
    ensures ComesBack(x)
  {
  }

  lemma {:induction false} TextLeafComesBack(x: ScVal)
    requires WellFormed(x) && (x.ty.ScvBytes? || x.ty.ScvString? || x.ty.ScvSymbol?)
    ensures ComesBack(x)
  {
  }

  lemma {:induction false} KeyLeafComesBack(x: ScVal)
    requires WellFormed(x) && (x.ty.ScvLedgerKeyContractInstance? || x.ty.ScvLedgerKeyNonce?)
    ensures ComesBack(x)
  {
  }

  lemma {:induction false} LeafComesBack(x: ScVal)
    requires WellFormed(x) && !x.ty.ScvVec? && !x.ty.ScvMap? && !x.ty.ScvContractInstance?
    ensures ComesBack(x)
  {
    match x.ty
    case ScvAddress => AddressComesBack(x);
    case ScvError => ErrorComesBack(x);
    case ScvBool => SmallLeafComesBack(x);
    case ScvVoid => SmallLeafComesBack(x);
    case ScvU32 => SmallLeafComesBack(x);
    case ScvI32 => SmallLeafComesBack(x);
    case ScvU64 => WordLeafComesBack(x);
    case ScvI64 => WordLeafComesBack(x);
    case ScvTimepoint => WordLeafComesBack(x);
    case ScvDuration => WordLeafComesBack(x);
    case ScvU128 => WideLeafComesBack(x);
    case ScvI128 => WideLeafComesBack(x);
    case ScvU256 => WideLeafComesBack(x);
    case ScvI256 => WideLeafComesBack(x);
    case ScvBytes => TextLeafComesBack(x);
    case ScvString => TextLeafComesBack(x);
    case ScvSymbol => TextLeafComesBack(x);
    case ScvLedgerKeyContractInstance => KeyLeafComesBack(x);
    case ScvLedgerKeyNonce => KeyLeafComesBack(x);
  }

  ghost predicate AllComeBack(xs: seq<ScVal>) {
    && VecToDomain(xs).Some?
    && VecFromDomain(VecToDomain(xs).value) == if RepresentableAll(xs) then Some(FillAll(xs)) else None
  }

  ghost predicate EntriesComeBack(es: seq<MapEntry>) {
    && MapToDomain(es).Some?
    && MapFromDomain(MapToDomain(es).value) == if RepresentableEntries(es) then Some(FillEntries(es)) else None
  }

  ghost predicate EntryComesBack(e: MapEntry) {
    && EntryToDomain(e).Some?
    && EntryFromDomain(EntryToDomain(e).value) == if RepresentableEntry(e) then Some(FillEntry(e)) else None
  }

  lemma {:induction false} VecComesBack(x: ScVal)
    requires WellFormed(x) && x.ty.ScvVec? && (x.vec.VecOf? ==> AllComeBack(x.vec.items))
    ensures ComesBack(x)
  {
  }

  lemma {:induction false} MapComesBack(x: ScVal)
    requires WellFormed(x) && x.ty.ScvMap? && (x.map_.MapOf? ==> EntriesComeBack(x.map_.entries))
    ensures ComesBack(x)
  {
  }

  lemma {:induction false} InstanceComesBack(x: ScVal)
    requires WellFormed(x) && x.ty.ScvContractInstance?
    requires x.instance.storage.MapOf? ==> EntriesComeBack(x.instance.storage.entries)
    ensures ComesBack(x)
  {
  }

  lemma {:induction false} ValueComesBack(x: ScVal)
    requires WellFormed(x)
    ensures ComesBack(x)
    decreases x
  {
    match x.ty
    case ScvVec =>
      if x.vec.VecOf? {
        ItemsComeBack(x.vec.items);
      }
      VecComesBack(x);
    case ScvMap =>
      if x.map_.MapOf? {
        MapEntriesComeBack(x.map_.entries);
      }
      MapComesBack(x);
    case ScvContractInstance =>
      if x.instance.storage.MapOf? {
        MapEntriesComeBack(x.instance.storage.entries);
      }
      InstanceComesBack(x);
    case _ => LeafComesBack(x);
  }

  lemma {:induction false} ItemsComeBack(xs: seq<ScVal>)
    requires forall i :: 0 <= i < |xs| ==> WellFormed(xs[i])
    ensures AllComeBack(xs)
    decreases xs
  {
    if xs != [] {
      ValueComesBack(xs[0]);
      ItemsComeBack(xs[1..]);
      assert VecToDomain(xs).value[1..] == VecToDomain(xs[1..]).value;
    }
  }

  lemma {:induction false} MapEntriesComeBack(es: seq<MapEntry>)
    requires WellFormedEntries(es)
    ensures EntriesComeBack(es)
    decreases es
  {
    if es != [] {
      OneEntryComesBack(es[0]);
      MapEntriesComeBack(es[1..]);
      assert MapToDomain(es).value[1..] == MapToDomain(es[1..]).value;
    }
  }

  lemma {:induction false} OneEntryComesBack(e: MapEntry)
    requires WellFormedEntry(e)
    ensures EntryComesBack(e)
    decreases e
  {
    ValueComesBack(e.key);
    ValueComesBack(e.val);
    var d := EntryToDomain(e).value;
    assert PointerFromDomain(d.key) == FromDomain(ToDomain(e.key).value);
    assert PointerFromDomain(d.val) == FromDomain(ToDomain(e.val).value);
  }

  /** XDR to domain and back: total on decoded values, and the way back works exactly on contract arguments. */
  lemma {:induction false} XdrRoundTrip(x: ScVal)
    requires WellFormed(x)
    ensures ToDomain(x).Some?
    ensures FromDomain(ToDomain(x).value) == if Representable(x) then Some(FillNil(x)) else None
  {
    ValueComesBack(x);
  }

  /** What the round trip from the domain promises of one value. */
  ghost predicate Returns(d: DomainVal) {
    FromDomain(d).Some? ==>
      WellFormed(FromDomain(d).value) && ToDomain(FromDomain(d).value) == Some(DeclaredOnly(d))
  }

  lemma {:induction false} SmallReturns(d: DomainVal)
    requires d.ty.TBool? || d.ty.TVoid? || d.ty.TU32? || d.ty.TI32?
    ensures Returns(d)
  {
  }

  lemma {:induction false} WordReturns(d: DomainVal)
    requires d.ty.TU64? || d.ty.TI64?
    ensures Returns(d)
  {
  }

  lemma {:induction false} TimeReturns(d: DomainVal)
    requires d.ty.TTimepoint? || d.ty.TDuration?
    ensures Returns(d)
  {
  }

  lemma {:induction false} U128Returns(d: DomainVal)
    requires d.ty.TU128?
    ensures Returns(d)
  {
  }

  lemma {:induction false} U256Returns(d: DomainVal)
    requires d.ty.TU256?
    ensures Returns(d)
  {
  }

  lemma {:induction false} I128Returns(d: DomainVal)
    requires d.ty.TI128?
    ensures Returns(d)
  {
  }

  lemma {:induction false} I256Returns(d: DomainVal)
    requires d.ty.TI256?
    ensures Returns(d)
  {
  }

  lemma {:induction false} BytesReturns(d: DomainVal)
    requires d.ty.TBytes?
    ensures Returns(d)
  {
  }

  lemma {:induction false} StringReturns(d: DomainVal)
    requires d.ty.TString?
    ensures Returns(d)
  {
  }

  lemma {:induction false} SymbolReturns(d: DomainVal)
    requires d.ty.TSymbol?
    ensures Returns(d)
  {
  }

  lemma {:induction false} AddressReturns(d: DomainVal)
    requires d.ty.TAddress?
    ensures Returns(d)
  {
  }

  lemma {:induction false} LeafReturns(d: DomainVal)
    requires !d.ty.TVec? && !d.ty.TMap?
    ensures Returns(d)
  {
    match d.ty
    case TBool => SmallReturns(d);
    case TVoid => SmallReturns(d);
    case TU32 => SmallReturns(d);
    case TI32 => SmallReturns(d);
    case TU64 => WordReturns(d);
    case TI64 => WordReturns(d);
    case TTimepoint => TimeReturns(d);
    case TDuration => TimeReturns(d);
    case TU128 => U128Returns(d);
    case TI128 => I128Returns(d);
    case TU256 => U256Returns(d);
    case TI256 => I256Returns(d);
    case TBytes => BytesReturns(d);
    case TString => StringReturns(d);
    case TSymbol => SymbolReturns(d);
    case TAddress => AddressReturns(d);
    case _ =>
  }

  /**
   A value that may be sent as an argument: of an argument type, its declared field set, addresses 32-byte
   account or contract ids, and no nil pointer, everywhere.
   */
  predicate Sendable(d: DomainVal)
    decreases d
  {
    match d.ty
    case TBool => d.bool_.Some?
    case TU32 => d.u32.Some?
    case TI32 => d.i32.Some?
    case TU64 => d.u64.Some?
    case TI64 => d.i64.Some?
    case TTimepoint => d.timepoint.Some?
    case TDuration => d.duration.Some?
    case TU128 => d.u128.Some?
    case TI128 => d.i128.Some?
    case TU256 => d.u256.Some?
    case TI256 => d.i256.Some?
    case TString => d.string_.Some?
    case TSymbol => d.symbol.Some?
    case TVec => d.vec.VecField? && forall i :: 0 <= i < |d.vec.values| ==> SendablePointer(d.vec.values[i])
    case TMap => d.map_.MapField? && forall i :: 0 <= i < |d.map_.entries| ==> SendableEntry(d.map_.entries[i])
    case TAddress =>
      && d.address.Some?
      && ((d.address.value.ty == AAccountID && |d.address.value.accountID| == 32)
          || (d.address.value.ty == AContractID && |d.address.value.contractID| == 32))
    case _ => d.ty == TVoid || d.ty == TBytes
  }

  predicate SendablePointer(p: Pointer)
    decreases p
  {
    p.To? && Sendable(p.val)
  }

  predicate SendableEntry(e: DomainEntry)
    decreases e
  {
    SendablePointer(e.key) && SendablePointer(e.val)
  }

  lemma {:induction false} LeafAcceptsExactly(d: DomainVal)
    requires !d.ty.TVec? && !d.ty.TMap?
    ensures LeafFromDomain(d).Some? <==> Sendable(d)
  {
  }

  /** The converter accepts exactly the sendable values. */
  lemma {:induction false} AcceptsExactlyTheSendable(d: DomainVal)
    ensures FromDomain(d).Some? <==> Sendable(d)
    decreases d
  {
    match d.ty
    case TVec =>
      if d.vec.VecField? {
        VecAcceptsExactly(d.vec.values);
      }
    case TMap =>
      if d.map_.MapField? {
        MapAcceptsExactly(d.map_.entries);
      }
    case _ => LeafAcceptsExactly(d);
  }

  lemma {:induction false} PointerAcceptsExactly(p: Pointer)
    ensures PointerFromDomain(p).Some? <==> SendablePointer(p)
    decreases p
  {
    if p.To? {
      AcceptsExactlyTheSendable(p.val);
    }
  }

  lemma {:induction false} VecAcceptsExactly(ps: seq<Pointer>)
    ensures VecFromDomain(ps).Some? <==> forall i :: 0 <= i < |ps| ==> SendablePointer(ps[i])
    decreases ps
  {
    if ps != [] {
      PointerAcceptsExactly(ps[0]);
      VecAcceptsExactly(ps[1..]);
      assert forall i :: 0 < i < |ps| ==> ps[i] == ps[1..][i - 1];
    }
  }

  lemma {:induction false} MapAcceptsExactly(es: seq<DomainEntry>)
    ensures MapFromDomain(es).Some? <==> forall i :: 0 <= i < |es| ==> SendableEntry(es[i])
    decreases es
  {
    if es != [] {
      EntryAcceptsExactly(es[0]);
      MapAcceptsExactly(es[1..]);
      assert forall i :: 0 < i < |es| ==> es[i] == es[1..][i - 1];
    }
  }

  lemma {:induction false} EntryAcceptsExactly(e: DomainEntry)
    ensures EntryFromDomain(e).Some? <==> SendableEntry(e)
    decreases e
  {
    PointerAcceptsExactly(e.key);
    PointerAcceptsExactly(e.val);
  }

  /** Domain to XDR and back: an accepted value comes back with its declared fields only. */
  lemma {:induction false} DomainRoundTrip(d: DomainVal)
    requires FromDomain(d).Some?
    ensures WellFormed(FromDomain(d).value)
    ensures ToDomain(FromDomain(d).value) == Some(DeclaredOnly(d))
    decreases d
  {
    match d.ty
    case TVec => DomainRoundTripVec(d.vec.values);
    case TMap => DomainRoundTripMap(d.map_.entries);
    case _ => LeafReturns(d);
  }

  lemma {:induction false} DomainRoundTripPointer(p: Pointer)
    requires PointerFromDomain(p).Some?
    ensures WellFormed(PointerFromDomain(p).value)
    ensures ToDomain(PointerFromDomain(p).value).Some?
    ensures To(ToDomain(PointerFromDomain(p).value).value) == DeclaredOnlyPointer(p)
    decreases p
  {
    DomainRoundTrip(p.val);
  }

  lemma {:induction false} DomainRoundTripVec(ps: seq<Pointer>)
    requires VecFromDomain(ps).Some?
    ensures forall i :: 0 <= i < |VecFromDomain(ps).value| ==> WellFormed(VecFromDomain(ps).value[i])
    ensures VecToDomain(VecFromDomain(ps).value) == Some(DeclaredOnlyAll(ps))
    decreases ps
  {
    if ps != [] {
      DomainRoundTripPointer(ps[0]);
      DomainRoundTripVec(ps[1..]);
      assert VecFromDomain(ps).value[1..] == VecFromDomain(ps[1..]).value;
    }
  }

  lemma {:induction false} DomainRoundTripMap(es: seq<DomainEntry>)
    requires MapFromDomain(es).Some?
    ensures WellFormedEntries(MapFromDomain(es).value)
    ensures MapToDomain(MapFromDomain(es).value) == Some(DeclaredOnlyEntries(es))
    decreases es
  {
    if es != [] {
      DomainRoundTripEntry(es[0]);
      DomainRoundTripMap(es[1..]);
      assert MapFromDomain(es).value[1..] == MapFromDomain(es[1..]).value;
    }
  }

  lemma {:induction false} DomainRoundTripEntry(e: DomainEntry)
    requires EntryFromDomain(e).Some?
    ensures WellFormedEntry(EntryFromDomain(e).value)
    ensures EntryToDomain(EntryFromDomain(e).value) == Some(DeclaredOnlyEntry(e))
    decreases e
  {
    DomainRoundTripPointer(e.key);
    DomainRoundTripPointer(e.val);
  }
}
