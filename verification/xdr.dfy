/**
 Soroban values as the XDR library's structs: a type tag and one pointer per arm, any of which
 may be nil whatever the tag says.
 */
module Xdr {
  import opened Wrappers
  import opened Bytes

  type u32 = x: int | 0 <= x < 0x1_0000_0000
  type u64 = x: int | 0 <= x < 0x1_0000_0000_0000_0000
  type i32 = x: int | -0x8000_0000 <= x < 0x8000_0000
  type i64 = x: int | -0x8000_0000_0000_0000 <= x < 0x8000_0000_0000_0000
  type Bytes32 = b: seq<byte> | |b| == 32 witness Zeros(32)

  datatype UInt128Parts = UInt128Parts(hi: u64, lo: u64)
  datatype Int128Parts = Int128Parts(hi: i64, lo: u64)
  datatype UInt256Parts = UInt256Parts(hiHi: u64, hiLo: u64, loHi: u64, loLo: u64)
  datatype Int256Parts = Int256Parts(hiHi: i64, hiLo: u64, loHi: u64, loLo: u64)

  datatype ErrorType =
    | SceContract | SceWasmVm | SceContext | SceStorage | SceObject | SceCrypto
    | SceEvents | SceBudget | SceValue | SceAuth | SceOther(code: int)

  datatype ScError = ScError(ty: ErrorType, contractCode: Option<u32>, code: Option<int>)

  datatype AddressType = Account | Contract | MuxedAccount | ClaimableBalance | LiquidityPool | OtherAddress(code: int)
  datatype Muxed = Muxed(id: u64, ed25519: Bytes32)

  /** An account id or claimable balance id is itself a union: its inner option is the one arm it may set. */
  datatype ScAddress = ScAddress(
    ty: AddressType,
    accountId: Option<Option<Bytes32>>,
    contractId: Option<Bytes32>,
    muxed: Option<Muxed>,
    claimableBalance: Option<Option<Bytes32>>,
    liquidityPool: Option<Bytes32>)

  datatype Executable = Wasm(hash: Option<Bytes32>) | StellarAsset | OtherExecutable(code: int)

  datatype ScValType =
    | ScvBool | ScvVoid | ScvError | ScvU32 | ScvI32 | ScvU64 | ScvI64 | ScvTimepoint | ScvDuration
    | ScvU128 | ScvI128 | ScvU256 | ScvI256 | ScvBytes | ScvString | ScvSymbol | ScvVec | ScvMap | ScvAddress
    | ScvContractInstance | ScvLedgerKeyContractInstance | ScvLedgerKeyNonce | ScvOther(code: int)

  /** `**ScVec`: a nil pointer, a pointer to a nil pointer, or a vector. */
  datatype VecArm = NoVec | NilVec | VecOf(items: seq<ScVal>)
  datatype MapArm = NoMap | NilMap | MapOf(entries: seq<MapEntry>)
  datatype MapEntry = MapEntry(key: ScVal, val: ScVal)
  datatype InstanceArm = NoInstance | InstanceOf(executable: Executable, storage: MapArm)

  datatype ScVal = ScVal(
    ty: ScValType,
    b: Option<bool>,
    error: Option<ScError>,
    u32: Option<u32>,
    i32: Option<i32>,
    u64: Option<u64>,
    i64: Option<i64>,
    timepoint: Option<u64>,
    duration: Option<u64>,
    u128: Option<UInt128Parts>,
    i128: Option<Int128Parts>,
    u256: Option<UInt256Parts>,
    i256: Option<Int256Parts>,
    bytes: Option<seq<byte>>,
    str: Option<string>,
    sym: Option<string>,
    vec: VecArm,
    map_: MapArm,
    address: Option<ScAddress>,
    instance: InstanceArm,
    nonceKey: Option<i64>)

  /** A value with no arm set, as a Go composite literal leaves it. */
  function Blank(ty: ScValType): ScVal {
    ScVal(ty, None, None, None, None, None, None, None, None, None, None, None, None, None, None, None,
          NoVec, NoMap, None, NoInstance, None)
  }

  function BlankAddress(ty: AddressType): ScAddress {
    ScAddress(ty, None, None, None, None, None)
  }

  function AccountAddress(id: Bytes32): ScAddress {
    BlankAddress(Account).(accountId := Some(Some(id)))
  }

  function ContractAddress(id: Bytes32): ScAddress {
    BlankAddress(Contract).(contractId := Some(id))
  }

  /** The arm the tag declares is set. */
  predicate DeclaredArmSet(x: ScVal) {
    match x.ty
    case ScvBool => x.b.Some?
    case ScvVoid => true
    case ScvError => x.error.Some?
    case ScvU32 => x.u32.Some?
    case ScvI32 => x.i32.Some?
    case ScvU64 => x.u64.Some?
    case ScvI64 => x.i64.Some?
    case ScvTimepoint => x.timepoint.Some?
    case ScvDuration => x.duration.Some?
    case ScvU128 => x.u128.Some?
    case ScvI128 => x.i128.Some?
    case ScvU256 => x.u256.Some?
    case ScvI256 => x.i256.Some?
    case ScvBytes => x.bytes.Some?
    case ScvString => x.str.Some?
    case ScvSymbol => x.sym.Some?
    case ScvVec => !x.vec.NoVec?
    case ScvMap => !x.map_.NoMap?
    case ScvAddress => x.address.Some?
    case ScvContractInstance => x.instance.InstanceOf?
    case ScvLedgerKeyContractInstance => true
    case ScvLedgerKeyNonce => x.nonceKey.Some?
    case ScvOther(_) => false
  }

  /** `x` with every arm but the declared one cleared. */
  function DeclaredArmOnly(x: ScVal): ScVal {
    var o := Blank(x.ty);
    match x.ty
    case ScvBool => o.(b := x.b)
    case ScvVoid => o
    case ScvError => o.(error := x.error)
    case ScvU32 => o.(u32 := x.u32)
    case ScvI32 => o.(i32 := x.i32)
    case ScvU64 => o.(u64 := x.u64)
    case ScvI64 => o.(i64 := x.i64)
    case ScvTimepoint => o.(timepoint := x.timepoint)
    case ScvDuration => o.(duration := x.duration)
    case ScvU128 => o.(u128 := x.u128)
    case ScvI128 => o.(i128 := x.i128)
    case ScvU256 => o.(u256 := x.u256)
    case ScvI256 => o.(i256 := x.i256)
    case ScvBytes => o.(bytes := x.bytes)
    case ScvString => o.(str := x.str)
    case ScvSymbol => o.(sym := x.sym)
    case ScvVec => o.(vec := x.vec)
    case ScvMap => o.(map_ := x.map_)
    case ScvAddress => o.(address := x.address)
    case ScvContractInstance => o.(instance := x.instance)
    case ScvLedgerKeyContractInstance => o
    case ScvLedgerKeyNonce => o.(nonceKey := x.nonceKey)
    case ScvOther(_) => o
  }

  predicate WellFormedAddress(a: ScAddress) {
    match a.ty
    case Account => a.accountId.Some? && a.accountId.value.Some? && a == AccountAddress(a.accountId.value.value)
    case Contract => a.contractId.Some? && a == ContractAddress(a.contractId.value)
    case MuxedAccount => a.muxed.Some? && a == BlankAddress(MuxedAccount).(muxed := a.muxed)
    case ClaimableBalance =>
      && a.claimableBalance.Some? && a.claimableBalance.value.Some?
      && a == BlankAddress(ClaimableBalance).(claimableBalance := a.claimableBalance)
    case LiquidityPool =>
      a.liquidityPool.Some? && a == BlankAddress(LiquidityPool).(liquidityPool := a.liquidityPool)
    case OtherAddress(_) => false
  }

  predicate WellFormedError(e: ScError) {
    match e.ty
    case SceOther(_) => false
    case SceContract => e.contractCode.Some? && e.code.None?
    case _ => e.code.Some? && e.contractCode.None?
  }

  predicate WellFormedExecutable(e: Executable) {
    (e.Wasm? && e.hash.Some?) || e.StellarAsset?
  }

  /** A value as the XDR decoder produces it: everywhere the declared arm is set, and no other. */
  predicate WellFormed(x: ScVal)
    decreases x
  {
    && DeclaredArmSet(x)
    && x == DeclaredArmOnly(x)
    && (x.error.Some? ==> WellFormedError(x.error.value))
    && (x.address.Some? ==> WellFormedAddress(x.address.value))
    && (x.vec.VecOf? ==> forall i :: 0 <= i < |x.vec.items| ==> WellFormed(x.vec.items[i]))
    && (x.map_.MapOf? ==> WellFormedEntries(x.map_.entries))
    && (x.instance.InstanceOf? ==>
          && WellFormedExecutable(x.instance.executable)
          && !x.instance.storage.NilMap?
          && (x.instance.storage.MapOf? ==> WellFormedEntries(x.instance.storage.entries)))
  }

  predicate WellFormedEntries(entries: seq<MapEntry>)
    decreases entries
  {
    forall i :: 0 <= i < |entries| ==> WellFormedEntry(entries[i])
  }

  predicate WellFormedEntry(entry: MapEntry)
    decreases entry
  {
    WellFormed(entry.key) && WellFormed(entry.val)
  }
}
