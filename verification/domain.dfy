/** The relayer's own mirror of Soroban values: a declared type and one optional field per arm. */
module Domain {
  import opened Wrappers
  import opened Bytes
  import opened Xdr

  datatype DomainType =
    | TBool | TVoid | TError | TU32 | TI32 | TU64 | TI64 | TTimepoint | TDuration | TU128 | TI128 | TU256 | TI256
    | TBytes | TString | TSymbol | TVec | TMap | TAddress
    | TContractInstance | TLedgerKeyContractInstance | TNonceKey | TOther(code: int)

  datatype DomainErrorType =
    | EContract | EWasmVM | EContext | EStorage | EObject | ECrypto | EEvents | EBudget | EValue | EAuth
  datatype DomainError = DomainError(ty: DomainErrorType, contractCode: Option<u32>, code: Option<int>)

  datatype DomainAddressType = AAccountID | AContractID | AMuxedAccount | AClaimableBalanceID | ALiquidityPoolID | AOther(code: int)
  datatype DomainAddress = DomainAddress(
    ty: DomainAddressType,
    accountID: seq<byte>,
    contractID: seq<byte>,
    muxedAccount: Option<(u64, seq<byte>)>,
    claimableBalance: Option<seq<byte>>,
    liquidityPoolID: seq<byte>)

  datatype DomainExecutable = WasmHash(hash: seq<byte>) | StellarAssetExecutable

  /** `*ScVal`. */
  datatype Pointer = Null | To(val: DomainVal)
  datatype DomainEntry = DomainEntry(key: Pointer, val: Pointer)
  datatype VecField = NilVecField | VecField(values: seq<Pointer>)
  datatype MapField = NilMapField | MapField(entries: seq<DomainEntry>)
  datatype InstanceField = NilInstanceField | InstanceField(executable: DomainExecutable, storage: seq<DomainEntry>)

  datatype DomainVal = DomainVal(
    ty: DomainType,
    bool_: Option<bool>,
    void: bool,
    error: Option<DomainError>,
    u32: Option<u32>,
    i32: Option<i32>,
    u64: Option<u64>,
    i64: Option<i64>,
    timepoint: Option<u64>,
    duration: Option<u64>,
    u128: Option<UInt128Parts>,
    i128: Option<Int128Parts>,
    u256: Option<UInt256Parts>,
    i256: Option<Int256Parts>,
    bytes: seq<byte>,
    string_: Option<string>,
    symbol: Option<string>,
    vec: VecField,
    map_: MapField,
    address: Option<DomainAddress>,
    contractInstance: InstanceField,
    ledgerKeyContractInstance: bool,
    nonceKey: Option<i64>)

  function Empty(ty: DomainType): DomainVal {
    DomainVal(ty, None, false, None, None, None, None, None, None, None, None, None, None, None, [], None, None,
              NilVecField, NilMapField, None, NilInstanceField, false, None)
  }

  function EmptyAddress(ty: DomainAddressType): DomainAddress {
    DomainAddress(ty, [], [], None, None, [])
  }

  /** `d` with only its declared field kept, at every level; a void value has its marker set. */
  function DeclaredOnly(d: DomainVal): DomainVal
    decreases d
  {
    var o := Empty(d.ty);
    match d.ty
    case TBool => o.(bool_ := d.bool_)
    case TVoid => o.(void := true)
    case TU32 => o.(u32 := d.u32)
    case TI32 => o.(i32 := d.i32)
    case TU64 => o.(u64 := d.u64)
    case TI64 => o.(i64 := d.i64)
    case TTimepoint => o.(timepoint := d.timepoint)
    case TDuration => o.(duration := d.duration)
    case TU128 => o.(u128 := d.u128)
    case TI128 => o.(i128 := d.i128)
    case TU256 => o.(u256 := d.u256)
    case TI256 => o.(i256 := d.i256)
    case TBytes => o.(bytes := d.bytes)
    case TString => o.(string_ := d.string_)
    case TSymbol => o.(symbol := d.symbol)
    case TVec => o.(vec := if d.vec.VecField? then VecField(DeclaredOnlyAll(d.vec.values)) else NilVecField)
    case TMap => o.(map_ := if d.map_.MapField? then MapField(DeclaredOnlyEntries(d.map_.entries)) else NilMapField)
    case TAddress => o.(address := if d.address.Some? then Some(DeclaredOnlyAddress(d.address.value)) else None)
    case _ => o
  }

  function DeclaredOnlyPointer(p: Pointer): Pointer
    decreases p
  {
    match p
    case Null => Null
    case To(d) => To(DeclaredOnly(d))
  }

  function DeclaredOnlyAll(ps: seq<Pointer>): (r: seq<Pointer>)
    decreases ps
  {
    if ps == [] then [] else [DeclaredOnlyPointer(ps[0])] + DeclaredOnlyAll(ps[1..])
  }

  function DeclaredOnlyEntries(es: seq<DomainEntry>): seq<DomainEntry>
    decreases es
  {
    if es == [] then []
    else [DeclaredOnlyEntry(es[0])] + DeclaredOnlyEntries(es[1..])
  }

  function DeclaredOnlyEntry(e: DomainEntry): DomainEntry
    decreases e
  {
    DomainEntry(DeclaredOnlyPointer(e.key), DeclaredOnlyPointer(e.val))
  }

  function DeclaredOnlyAddress(a: DomainAddress): DomainAddress {
    match a.ty
    case AAccountID => EmptyAddress(a.ty).(accountID := a.accountID)
    case AContractID => EmptyAddress(a.ty).(contractID := a.contractID)
    case _ => EmptyAddress(a.ty)
  }
}
