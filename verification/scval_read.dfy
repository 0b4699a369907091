/** Reading the relayer's values back: what the translation from XDR tells, said from its results alone. */
module ScValRead {
  import opened Wrappers
  import opened Xdr
  import opened Domain
  import opened ScValConvert

  /** The XDR error kind a domain error kind stands for. */
  function ReadErrorType(e: DomainErrorType): ErrorType {
    match e
    case EContract => SceContract
    case EWasmVM => SceWasmVm
    case EContext => SceContext
    case EStorage => SceStorage
    case EObject => SceObject
    case ECrypto => SceCrypto
    case EEvents => SceEvents
    case EBudget => SceBudget
    case EValue => SceValue
    case EAuth => SceAuth
  }

  function ReadError(e: DomainError): ScError {
    ScError(ReadErrorType(e.ty), e.contractCode, e.code)
  }

  /** The address a domain address spells by the arm of its type, if that arm is the only one it sets. */
  function ReadAddress(a: DomainAddress): Option<ScAddress> {
    match a.ty
    case AAccountID =>
      if |a.accountID| != 32 || a != DomainAddress(a.ty, a.accountID, [], None, None, []) then None
      else Some(ScAddress(Account, Some(Some(a.accountID)), None, None, None, None))
    case AContractID =>
      if |a.contractID| != 32 || a != DomainAddress(a.ty, [], a.contractID, None, None, []) then None
      else Some(ScAddress(Contract, None, Some(a.contractID), None, None, None))
    case AMuxedAccount =>
      if a.muxedAccount.None? || a != DomainAddress(a.ty, [], [], a.muxedAccount, None, []) then None
      else
        var (id, key) := a.muxedAccount.value;
        if |key| != 32 then None else Some(ScAddress(MuxedAccount, None, None, Some(Muxed(id, key)), None, None))
    case AClaimableBalanceID =>
      if a.claimableBalance.None? || a != DomainAddress(a.ty, [], [], None, a.claimableBalance, []) then None
      else
        var id := a.claimableBalance.value;
        if |id| != 32 then None else Some(ScAddress(ClaimableBalance, None, None, None, Some(Some(id)), None))
    case ALiquidityPoolID =>
      if |a.liquidityPoolID| != 32 || a != DomainAddress(a.ty, [], [], None, None, a.liquidityPoolID) then None
      else Some(ScAddress(LiquidityPool, None, None, None, None, Some(a.liquidityPoolID)))
    case AOther(_) => None
  }

  function ReadExecutable(e: DomainExecutable): Option<Executable> {
    match e
    case WasmHash(hash) => if |hash| != 32 then None else Some(Wasm(Some(hash)))
    case StellarAssetExecutable => Some(StellarAsset)
  }

  /** The value a domain value spells by the field of its type. */
  function Read(d: DomainVal): Option<ScVal>
    decreases d
  {
    match d.ty
    case TBool => if d.bool_.None? then None else Some(Blank(ScvBool).(b := d.bool_))
    case TU32 => if d.u32.None? then None else Some(Blank(ScvU32).(u32 := d.u32))
    case TI32 => if d.i32.None? then None else Some(Blank(ScvI32).(i32 := d.i32))
    case TU64 => if d.u64.None? then None else Some(Blank(ScvU64).(u64 := d.u64))
    case TI64 => if d.i64.None? then None else Some(Blank(ScvI64).(i64 := d.i64))
    case TTimepoint => if d.timepoint.None? then None else Some(Blank(ScvTimepoint).(timepoint := d.timepoint))
    case TDuration => if d.duration.None? then None else Some(Blank(ScvDuration).(duration := d.duration))
    case TU128 => if d.u128.None? then None else Some(Blank(ScvU128).(u128 := d.u128))
    case TI128 => if d.i128.None? then None else Some(Blank(ScvI128).(i128 := d.i128))
    case TU256 => if d.u256.None? then None else Some(Blank(ScvU256).(u256 := d.u256))
    case TI256 => if d.i256.None? then None else Some(Blank(ScvI256).(i256 := d.i256))
    case TString => if d.string_.None? then None else Some(Blank(ScvString).(str := d.string_))
    case TSymbol => if d.symbol.None? then None else Some(Blank(ScvSymbol).(sym := d.symbol))
    case TNonceKey => if d.nonceKey.None? then None else Some(Blank(ScvLedgerKeyNonce).(nonceKey := d.nonceKey))
    case TVoid => if !d.void then None else Some(Blank(ScvVoid))
    case TBytes => Some(Blank(ScvBytes).(bytes := Some(d.bytes)))
    case TError =>
      if d.error.None? then None else Some(Blank(ScvError).(error := Some(ReadError(d.error.value))))
    case TAddress =>
      if d.address.None? then None else
      var a := ReadAddress(d.address.value);
      if a.None? then None else Some(Blank(ScvAddress).(address := a))
    case TVec =>
      if d.vec.NilVecField? then None else
      var items := ReadAll(d.vec.values);
      if items.None? then None else Some(Blank(ScvVec).(vec := VecOf(items.value)))
    case TMap =>
      if d.map_.NilMapField? then None else
      var entries := ReadEntries(d.map_.entries);
      if entries.None? then None else Some(Blank(ScvMap).(map_ := MapOf(entries.value)))
    case TContractInstance =>
      if d.contractInstance.NilInstanceField? then None else
      var exe, storage := ReadExecutable(d.contractInstance.executable), ReadEntries(d.contractInstance.storage);
      if exe.None? || storage.None? then None
      else Some(Blank(ScvContractInstance).(instance := InstanceOf(exe.value, MapOf(storage.value))))
    case TLedgerKeyContractInstance =>
      if !d.ledgerKeyContractInstance then None else Some(Blank(ScvLedgerKeyContractInstance))
    case TOther(_) => None
  }

  function ReadPointer(p: Pointer): Option<ScVal>
    decreases p
  {
    match p
    case Null => None
    case To(d) => Read(d)
  }

  function ReadAll(ps: seq<Pointer>): Option<seq<ScVal>>
    decreases ps
  {
    if ps == [] then Some([])
    else
      var head, tail := ReadPointer(ps[0]), ReadAll(ps[1..]);
      if head.None? || tail.None? then None else Some([head.value] + tail.value)
  }

  function ReadEntries(es: seq<DomainEntry>): Option<seq<MapEntry>>
    decreases es
  {
    if es == [] then Some([])
    else
      var head, tail := ReadEntry(es[0]), ReadEntries(es[1..]);
      if head.None? || tail.None? then None else Some([head.value] + tail.value)
  }

  function ReadEntry(e: DomainEntry): Option<MapEntry>
    decreases e
  {
    var key, val := ReadPointer(e.key), ReadPointer(e.val);
    if key.None? || val.None? then None else Some(MapEntry(key.value, val.value))
  }

  /** Every field but the declared one is as a Go composite literal leaves it. */
  predicate OnlyDeclared(d: DomainVal) {
    var rest := match d.ty
    case TBool => d.(bool_ := None)
    case TU32 => d.(u32 := None)
    case TI32 => d.(i32 := None)
    case TU64 => d.(u64 := None)
    case TI64 => d.(i64 := None)
    case TTimepoint => d.(timepoint := None)
    case TDuration => d.(duration := None)
    case TU128 => d.(u128 := None)
    case TI128 => d.(i128 := None)
    case TU256 => d.(u256 := None)
    case TI256 => d.(i256 := None)
    case TString => d.(string_ := None)
    case TSymbol => d.(symbol := None)
    case TNonceKey => d.(nonceKey := None)
    case TVoid => d.(void := false)
    case TBytes => d.(bytes := [])
    case TError => d.(error := None)
    case TAddress => d.(address := None)
    case TVec => d.(vec := NilVecField)
    case TMap => d.(map_ := NilMapField)
    case TContractInstance => d.(contractInstance := NilInstanceField)
    case TLedgerKeyContractInstance => d.(ledgerKeyContractInstance := false)
    case TOther(_) => d;
    rest == Empty(d.ty)
  }

  lemma {:induction false} SmallSetsDeclaredOnly(x: ScVal)
    requires LeafToDomain(x).Some? && (x.ty.ScvBool? || x.ty.ScvVoid? || x.ty.ScvU32? || x.ty.ScvI32? || x.ty.ScvU64?)
    ensures OnlyDeclared(LeafToDomain(x).value)
  {
  }

  lemma {:induction false} WordSetsDeclaredOnly(x: ScVal)
    requires LeafToDomain(x).Some? && (x.ty.ScvI64? || x.ty.ScvTimepoint? || x.ty.ScvDuration? || x.ty.ScvU128?)
    ensures OnlyDeclared(LeafToDomain(x).value)
  {
  }

  lemma {:induction false} WideSetsDeclaredOnly(x: ScVal)
    requires LeafToDomain(x).Some? && (x.ty.ScvI128? || x.ty.ScvU256? || x.ty.ScvI256? || x.ty.ScvBytes?)
    ensures OnlyDeclared(LeafToDomain(x).value)
  {
  }

  lemma {:induction false} TextSetsDeclaredOnly(x: ScVal)
    requires LeafToDomain(x).Some? && (x.ty.ScvString? || x.ty.ScvSymbol? || x.ty.ScvError?)
    ensures OnlyDeclared(LeafToDomain(x).value)
  {
  }

  lemma {:induction false} KeySetsDeclaredOnly(x: ScVal)
    requires LeafToDomain(x).Some? && (x.ty.ScvAddress? || x.ty.ScvLedgerKeyContractInstance? || x.ty.ScvLedgerKeyNonce?)
    ensures OnlyDeclared(LeafToDomain(x).value)
  {
  }

  lemma {:induction false} LeafSetsDeclaredOnly(x: ScVal)
    requires LeafToDomain(x).Some?
    ensures OnlyDeclared(LeafToDomain(x).value)
  {
    match x.ty
    case ScvBool => SmallSetsDeclaredOnly(x);
    case ScvVoid => SmallSetsDeclaredOnly(x);
    case ScvU32 => SmallSetsDeclaredOnly(x);
    case ScvI32 => SmallSetsDeclaredOnly(x);
    case ScvU64 => SmallSetsDeclaredOnly(x);
    case ScvI64 => WordSetsDeclaredOnly(x);
    case ScvTimepoint => WordSetsDeclaredOnly(x);
    case ScvDuration => WordSetsDeclaredOnly(x);
    case ScvU128 => WordSetsDeclaredOnly(x);
    case ScvI128 => WideSetsDeclaredOnly(x);
    case ScvU256 => WideSetsDeclaredOnly(x);
    case ScvI256 => WideSetsDeclaredOnly(x);
    case ScvBytes => WideSetsDeclaredOnly(x);
    case ScvString => TextSetsDeclaredOnly(x);
    case ScvSymbol => TextSetsDeclaredOnly(x);
    case ScvError => TextSetsDeclaredOnly(x);
    case ScvAddress => KeySetsDeclaredOnly(x);
    case ScvLedgerKeyContractInstance => KeySetsDeclaredOnly(x);
    case ScvLedgerKeyNonce => KeySetsDeclaredOnly(x);
    case _ =>
  }

  lemma {:induction false} SetsDeclaredOnly(x: ScVal)
    requires ToDomain(x).Some?
    ensures OnlyDeclared(ToDomain(x).value)
  {
    if !x.ty.ScvVec? && !x.ty.ScvMap? && !x.ty.ScvContractInstance? {
      LeafSetsDeclaredOnly(x);
    }
  }

  /** What reading promises of one value: nothing of it is lost or relabelled. */
  ghost predicate Told(x: ScVal) {
    ToDomain(x).Some? && Read(ToDomain(x).value) == Some(FillNil(x))
  }

  lemma {:induction false} AddressRead(a: ScAddress)
    requires WellFormedAddress(a)
    ensures AddressToDomain(a).Some? && ReadAddress(AddressToDomain(a).value) == Some(a)
  {
  }

  lemma {:induction false} ErrorRead(e: ScError)
    requires WellFormedError(e)
    ensures ErrorToDomain(e).Some? && ReadError(ErrorToDomain(e).value) == e
  {
  }

  lemma {:induction false} ExecutableRead(e: Executable)
    requires WellFormedExecutable(e)
    ensures ExecutableToDomain(e).Some? && ReadExecutable(ExecutableToDomain(e).value) == Some(e)
  {
  }

  lemma {:induction false} SmallTold(x: ScVal)
    requires WellFormed(x) && (x.ty.ScvBool? || x.ty.ScvVoid? || x.ty.ScvU32? || x.ty.ScvI32?)
    ensures Told(x)
  {
  }

  lemma {:induction false} WordTold(x: ScVal)
    requires WellFormed(x) && (x.ty.ScvU64? || x.ty.ScvI64?)
    ensures Told(x)
  {
  }

  lemma {:induction false} TimeTold(x: ScVal)
    requires WellFormed(x) && (x.ty.ScvTimepoint? || x.ty.ScvDuration?)
    ensures Told(x)
  {
  }

  lemma {:induction false} UnsignedTold(x: ScVal)
    requires WellFormed(x) && (x.ty.ScvU128? || x.ty.ScvU256?)
    ensures Told(x)
  {
  }

  lemma {:induction false} SignedTold(x: ScVal)
    requires WellFormed(x) && (x.ty.ScvI128? || x.ty.ScvI256?)
    ensures Told(x)
  {
  }

  lemma {:induction false} StringTold(x: ScVal)
    requires WellFormed(x) && x.ty.ScvString?
    ensures Told(x)
  {
  }

  lemma {:induction false} SymbolTold(x: ScVal)
    requires WellFormed(x) && x.ty.ScvSymbol?
    ensures Told(x)
  {
  }

  lemma {:induction false} BytesTold(x: ScVal)
    requires WellFormed(x) && (x.ty.ScvBytes?)
    ensures Told(x)
  {
  }

  lemma {:induction false} InstanceKeyTold(x: ScVal)
    requires WellFormed(x) && x.ty.ScvLedgerKeyContractInstance?
    ensures Told(x)
  {
  }

  lemma {:induction false} NonceKeyTold(x: ScVal)
    requires WellFormed(x) && x.ty.ScvLedgerKeyNonce?
    ensures Told(x)
  {
  }

  lemma {:induction false} ErrorTold(x: ScVal)
    requires WellFormed(x) && x.ty.ScvError?
    ensures Told(x)
  {
    ErrorRead(x.error.value);
  }

  lemma {:induction false} AddressTold(x: ScVal)
    requires WellFormed(x) && x.ty.ScvAddress?
    ensures Told(x)
  {
    AddressRead(x.address.value);
  }

  lemma {:induction false} LeafTold(x: ScVal)
    requires WellFormed(x) && !x.ty.ScvVec? && !x.ty.ScvMap? && !x.ty.ScvContractInstance?
    ensures Told(x)
  {
    match x.ty
    case ScvBool => SmallTold(x);
    case ScvVoid => SmallTold(x);
    case ScvU32 => SmallTold(x);
    case ScvI32 => SmallTold(x);
    case ScvU64 => WordTold(x);
    case ScvI64 => WordTold(x);
    case ScvTimepoint => TimeTold(x);
    case ScvDuration => TimeTold(x);
    case ScvU128 => UnsignedTold(x);
    case ScvU256 => UnsignedTold(x);
    case ScvI128 => SignedTold(x);
    case ScvI256 => SignedTold(x);
    case ScvString => StringTold(x);
    case ScvSymbol => SymbolTold(x);
    case ScvBytes => BytesTold(x);
    case ScvLedgerKeyContractInstance => InstanceKeyTold(x);
    case ScvLedgerKeyNonce => NonceKeyTold(x);
    case ScvError => ErrorTold(x);
    case ScvAddress => AddressTold(x);
  }

  ghost predicate AllTold(xs: seq<ScVal>) {
    VecToDomain(xs).Some? && ReadAll(VecToDomain(xs).value) == Some(FillAll(xs))
  }

  ghost predicate EntriesTold(es: seq<MapEntry>) {
    MapToDomain(es).Some? && ReadEntries(MapToDomain(es).value) == Some(FillEntries(es))
  }

  lemma {:induction false} VecTold(x: ScVal)
    requires WellFormed(x) && x.ty.ScvVec? && (x.vec.VecOf? ==> AllTold(x.vec.items))
    ensures Told(x)
  {
  }

  lemma {:induction false} MapTold(x: ScVal)
    requires WellFormed(x) && x.ty.ScvMap? && (x.map_.MapOf? ==> EntriesTold(x.map_.entries))
    ensures Told(x)
  {
  }

  lemma {:induction false} InstanceTold(x: ScVal)
    requires WellFormed(x) && x.ty.ScvContractInstance?
    requires x.instance.storage.MapOf? ==> EntriesTold(x.instance.storage.entries)
    ensures Told(x)
  {
    ExecutableRead(x.instance.executable);
  }

  lemma {:induction false} ValueTold(x: ScVal)
    requires WellFormed(x)
    ensures Told(x)
    decreases x
  {
    match x.ty
    case ScvVec =>
      if x.vec.VecOf? {
        ItemsTold(x.vec.items);
      }
      VecTold(x);
    case ScvMap =>
      if x.map_.MapOf? {
        MapEntriesTold(x.map_.entries);
      }
      MapTold(x);
    case ScvContractInstance =>
      if x.instance.storage.MapOf? {
        MapEntriesTold(x.instance.storage.entries);
      }
      InstanceTold(x);
    case _ => LeafTold(x);
  }

  /** Of a list of decoded values, each is told, in order. */
  lemma {:induction false} ItemsTold(xs: seq<ScVal>)
    requires forall i :: 0 <= i < |xs| ==> WellFormed(xs[i])
    ensures AllTold(xs)
    decreases xs
  {
    if xs != [] {
      ValueTold(xs[0]);
      ItemsTold(xs[1..]);
      assert VecToDomain(xs).value[1..] == VecToDomain(xs[1..]).value;
    }
  }

  lemma {:induction false} MapEntriesTold(es: seq<MapEntry>)
    requires WellFormedEntries(es)
    ensures EntriesTold(es)
    decreases es
  {
    if es != [] {
      OneEntryTold(es[0]);
      MapEntriesTold(es[1..]);
      assert MapToDomain(es).value[1..] == MapToDomain(es[1..]).value;
    }
  }

  lemma {:induction false} OneEntryTold(e: MapEntry)
    requires WellFormedEntry(e)
    ensures EntryToDomain(e).Some? && ReadEntry(EntryToDomain(e).value) == Some(FillEntry(e))
    decreases e
  {
    ValueTold(e.key);
    ValueTold(e.val);
    var d := EntryToDomain(e).value;
    assert ReadPointer(d.key) == Read(ToDomain(e.key).value) && ReadPointer(d.val) == Read(ToDomain(e.val).value);
  }

  /**
   Every decoded XDR value, of all kinds and at every level, can be read off its translation: it comes back
   whole, with nil vectors, maps and storage made empty, and the translation sets its declared field alone.
   */
  lemma {:induction false} TranslationTellsTheValue(x: ScVal)
    requires WellFormed(x)
    ensures ToDomain(x).Some? && OnlyDeclared(ToDomain(x).value)
    ensures Read(ToDomain(x).value) == Some(FillNil(x))
  {
    ValueTold(x);
    SetsDeclaredOnly(x);
  }

  // ---- Filling changes nothing but nil ----

  /** No inner vector, map or storage is nil. */
  predicate NoNil(x: ScVal)
    decreases x
  {
    match x.ty
    case ScvVec => x.vec.VecOf? && forall i :: 0 <= i < |x.vec.items| ==> NoNil(x.vec.items[i])
    case ScvMap => x.map_.MapOf? && NoNilEntries(x.map_.entries)
    case ScvContractInstance => x.instance.InstanceOf? && x.instance.storage.MapOf? && NoNilEntries(x.instance.storage.entries)
    case _ => true
  }

  predicate NoNilEntries(es: seq<MapEntry>)
    decreases es
  {
    forall i :: 0 <= i < |es| ==> NoNilEntry(es[i])
  }

  predicate NoNilEntry(e: MapEntry)
    decreases e
  {
    NoNil(e.key) && NoNil(e.val)
  }

  /** A value without nil is its own filling. */
  lemma {:induction false} FillingKeepsFilled(x: ScVal)
    requires NoNil(x)
    ensures FillNil(x) == x
    decreases x
  {
    match x.ty
    case ScvVec => FillingKeepsItems(x.vec.items);
    case ScvMap => FillingKeepsEntries(x.map_.entries);
    case ScvContractInstance => FillingKeepsEntries(x.instance.storage.entries);
    case _ =>
  }

  lemma {:induction false} FillingKeepsItems(xs: seq<ScVal>)
    requires forall i :: 0 <= i < |xs| ==> NoNil(xs[i])
    ensures FillAll(xs) == xs
    decreases xs
  {
    if xs != [] {
      FillingKeepsFilled(xs[0]);
      FillingKeepsItems(xs[1..]);
    }
  }

  lemma {:induction false} FillingKeepsEntries(es: seq<MapEntry>)
    requires NoNilEntries(es)
    ensures FillEntries(es) == es
    decreases es
  {
    if es != [] {
      FillingKeepsEntry(es[0]);
      FillingKeepsEntries(es[1..]);
    }
  }

  lemma {:induction false} FillingKeepsEntry(e: MapEntry)
    requires NoNilEntry(e)
    ensures FillEntry(e) == e
    decreases e
  {
    FillingKeepsFilled(e.key);
    FillingKeepsFilled(e.val);
  }

  // ---- What can be translated ----

  predicate ReadableError(e: ScError) {
    match e.ty
    case SceOther(_) => false
    case SceContract => e.contractCode.Some?
    case _ => e.code.Some?
  }

  predicate ReadableAddress(a: ScAddress) {
    match a.ty
    case Account => a.accountId.Some? && a.accountId.value.Some?
    case Contract => a.contractId.Some?
    case MuxedAccount => a.muxed.Some?
    case ClaimableBalance => a.claimableBalance.Some? && a.claimableBalance.value.Some?
    case LiquidityPool => a.liquidityPool.Some?
    case OtherAddress(_) => false
  }

  /** Everywhere the declared arm is set and of a known kind, whatever the other arms hold. */
  predicate Readable(x: ScVal)
    decreases x
  {
    match x.ty
    case ScvError => x.error.Some? && ReadableError(x.error.value)
    case ScvAddress => x.address.Some? && ReadableAddress(x.address.value)
    case ScvVec => !x.vec.NoVec? && (x.vec.VecOf? ==> forall i :: 0 <= i < |x.vec.items| ==> Readable(x.vec.items[i]))
    case ScvMap => !x.map_.NoMap? && (x.map_.MapOf? ==> ReadableEntries(x.map_.entries))
    case ScvContractInstance =>
      && x.instance.InstanceOf?
      && (x.instance.executable.StellarAsset? || (x.instance.executable.Wasm? && x.instance.executable.hash.Some?))
      && (x.instance.storage.MapOf? ==> ReadableEntries(x.instance.storage.entries))
    case _ => DeclaredArmSet(x)
  }

  predicate ReadableEntries(es: seq<MapEntry>)
    decreases es
  {
    forall i :: 0 <= i < |es| ==> ReadableEntry(es[i])
  }

  predicate ReadableEntry(e: MapEntry)
    decreases e
  {
    Readable(e.key) && Readable(e.val)
  }

  lemma {:induction false} LeafTranslatesExactly(x: ScVal)
    requires !x.ty.ScvVec? && !x.ty.ScvMap? && !x.ty.ScvContractInstance?
    ensures LeafToDomain(x).Some? <==> Readable(x)
  {
  }

  /** The translation succeeds on exactly the readable values. */
  lemma {:induction false} TranslatesExactlyTheReadable(x: ScVal)
    ensures ToDomain(x).Some? <==> Readable(x)
    decreases x
  {
    match x.ty
    case ScvVec =>
      if x.vec.VecOf? {
        VecTranslatesExactly(x.vec.items);
      }
    case ScvMap =>
      if x.map_.MapOf? {
        EntriesTranslateExactly(x.map_.entries);
      }
    case ScvContractInstance =>
      if x.instance.InstanceOf? && x.instance.storage.MapOf? {
        EntriesTranslateExactly(x.instance.storage.entries);
      }
    case _ => LeafTranslatesExactly(x);
  }

  lemma {:induction false} VecTranslatesExactly(xs: seq<ScVal>)
    ensures VecToDomain(xs).Some? <==> forall i :: 0 <= i < |xs| ==> Readable(xs[i])
    decreases xs
  {
    if xs != [] {
      TranslatesExactlyTheReadable(xs[0]);
      VecTranslatesExactly(xs[1..]);
      assert forall i :: 0 < i < |xs| ==> xs[i] == xs[1..][i - 1];
    }
  }

  lemma {:induction false} EntriesTranslateExactly(es: seq<MapEntry>)
    ensures MapToDomain(es).Some? <==> ReadableEntries(es)
    decreases es
  {
    if es != [] {
      EntryTranslatesExactly(es[0]);
      EntriesTranslateExactly(es[1..]);
      assert forall i :: 0 < i < |es| ==> es[i] == es[1..][i - 1];
    }
  }

  lemma {:induction false} EntryTranslatesExactly(e: MapEntry)
    ensures EntryToDomain(e).Some? <==> ReadableEntry(e)
    decreases e
  {
    TranslatesExactlyTheReadable(e.key);
    TranslatesExactlyTheReadable(e.val);
  }
}
