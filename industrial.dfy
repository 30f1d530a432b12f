/**
 * The bridge to the generic industrial-device interface: the translation of
 * the access layer's errors into the consumer's smaller taxonomy, and of
 * register values into the consumer's value type.
 */
module Industrial {
  import opened Wrappers
  import opened Register
  import opened Errors
  import opened Types
  import opened Transport

  /** The boxed error an industrial error carries as its cause. */
  datatype Cause =
    | ExceptionCause(exc: Exception)
    | IoCause(io: IoError)
    | TokioCause(tokio: TokioError)
    | SliceCause(slice: TryFromSliceError)
    | AccessCause(err: ModbusError)

  /** The consumer's four error kinds. */
  datatype IndustrialDeviceError =
    | RequestError(cause: Cause)
    | DeviceNotAccessibleError(cause: Cause)
    | ConversionError(cause: Cause)
    | DeviceNotConnectedError(cause: Cause)

  /**
   * `From<ModbusError> for IndustrialDeviceError`. The match has no arm for
   * `RegisterDoesNotExistError` and no wildcard, so as written it is not
   * exhaustive and the crate does not compile. The model gives that case no
   * translation (`None`) and translates every other variant as its arm does.
   */
  function ToIndustrial(e: ModbusError): (r: Option<IndustrialDeviceError>)
    ensures r.None? <==> e.RegisterDoesNotExistError?
  {
    match e
    case Exception(exc) => Some(IndustrialDeviceError.RequestError(ExceptionCause(exc)))
    case ModbusError(err) =>
      (match err
       case Transport(io) =>
         if io.kind == BrokenPipe then Some(IndustrialDeviceError.DeviceNotAccessibleError(IoCause(io)))
         else Some(IndustrialDeviceError.RequestError(IoCause(io)))
       case Protocol(_) => Some(IndustrialDeviceError.RequestError(TokioCause(err))))
    case IOerror(io) => Some(IndustrialDeviceError.DeviceNotAccessibleError(IoCause(io)))
    case TryFromSliceError(x) => Some(IndustrialDeviceError.ConversionError(SliceCause(x)))
    case ConversionError => Some(IndustrialDeviceError.ConversionError(AccessCause(e)))
    case DeviceNotConnectedError => Some(IndustrialDeviceError.DeviceNotConnectedError(AccessCause(e)))
    case RegisterDoesNotExistError(_) => None
  }

  /** The error kinds the translation is made of, one per source variant. */
  lemma ToIndustrialKinds(e: ModbusError)
    ensures e.Exception? ==> ToIndustrial(e).value.RequestError?
    ensures e.ModbusError? && e.tokioErr.Transport? && e.tokioErr.io.kind == BrokenPipe ==>
      ToIndustrial(e).value.DeviceNotAccessibleError?
    ensures e.ModbusError? && !(e.tokioErr.Transport? && e.tokioErr.io.kind == BrokenPipe) ==>
      ToIndustrial(e).value.RequestError?
    ensures e.IOerror? ==> ToIndustrial(e).value.DeviceNotAccessibleError?
    ensures e.TryFromSliceError? || e.ConversionError? ==> ToIndustrial(e).value.ConversionError?
    ensures e.DeviceNotConnectedError? ==> ToIndustrial(e).value.DeviceNotConnectedError?
  {
  }

  /**
   * The translation forgets only one distinction: a broken-pipe transport
   * error of the Modbus client and the same I/O error reported directly
   * become the same industrial error. Any two other errors stay apart.
   */
  lemma ToIndustrialInjective(e1: ModbusError, e2: ModbusError)
    requires ToIndustrial(e1).Some? && ToIndustrial(e1) == ToIndustrial(e2)
    ensures e1 == e2
      || (e1.IOerror? && e2 == ModbusError(Transport(e1.ioErr)) && e1.ioErr.kind == BrokenPipe)
      || (e2.IOerror? && e1 == ModbusError(Transport(e2.ioErr)) && e2.ioErr.kind == BrokenPipe)
  {
  }

  /** The broken-pipe collision, on a concrete error. */
  lemma BrokenPipeCollision()
    ensures ToIndustrial(IOerror(IoError(BrokenPipe))) == ToIndustrial(ModbusError(BrokenLink))
  {
  }

  /** The consumer's value type: the same nine variants with the same payloads. */
  datatype Value =
    | U16(val16: u16)
    | U32(val32: u32)
    | U64(val64: u64)
    | U128(val128: u128)
    | S32(sval: i32)
    | Enum16(code: u16)
    | Sized(bytes: Blob66)
    | Float32(bits: u32)
    | Boolean(flag: bool)

  /** `From<RegisterValue> for Value`. */
  function ToValue(v: RegisterValue): Value
  {
    match v
    case U16(x) => Value.U16(x)
    case U32(x) => Value.U32(x)
    case U64(x) => Value.U64(x)
    case U128(x) => Value.U128(x)
    case S32(x) => Value.S32(x)
    case Enum16(x) => Value.Enum16(x)
    case Sized(b) => Value.Sized(b)
    case Float32(x) => Value.Float32(x)
    case Boolean(b) => Value.Boolean(b)
  }

  /** The way back from the consumer's values. */
  function FromValue(v: Value): RegisterValue
  {
    match v
    case U16(x) => RegisterValue.U16(x)
    case U32(x) => RegisterValue.U32(x)
    case U64(x) => RegisterValue.U64(x)
    case U128(x) => RegisterValue.U128(x)
    case S32(x) => RegisterValue.S32(x)
    case Enum16(x) => RegisterValue.Enum16(x)
    case Sized(b) => RegisterValue.Sized(b)
    case Float32(x) => RegisterValue.Float32(x)
    case Boolean(b) => RegisterValue.Boolean(b)
  }

  /** The value conversion keeps variant and payload: it is a bijection whose inverse is `FromValue`. */
  lemma ValueBijection(v: RegisterValue, w: Value)
    ensures FromValue(ToValue(v)) == v
    ensures ToValue(FromValue(w)) == w
  {
  }
}
