/**
 * The error taxonomy of the access layer. The payloads of the foreign error
 * types (Modbus exception codes, I/O errors, the transport library's error)
 * are kept only as far as the translation into the consumer's taxonomy looks
 * at them.
 */
module Errors {

  /** Exception codes a Modbus server can reply with. */
  datatype Exception =
    | IllegalFunction
    | IllegalDataAddress
    | IllegalDataValue
    | ServerDeviceFailure
    | Acknowledge
    | ServerDeviceBusy
    | MemoryParityError
    | GatewayPathUnavailable
    | GatewayTargetDevice

  /** The kind of an I/O error; only BrokenPipe is told apart by the code. */
  datatype IoErrorKind = BrokenPipe | OtherKind(code: nat)

  datatype IoError = IoError(kind: IoErrorKind)

  /** The transport library's own error: a transport (I/O) failure or a protocol violation. */
  datatype TokioError = Transport(io: IoError) | Protocol(detail: nat)

  /** A slice whose length does not fit a fixed-size array. */
  datatype TryFromSliceError = TryFromSliceError

  /** The seven error variants of the access layer; only RegisterDoesNotExistError carries a name. */
  datatype ModbusError =
    | Exception(exc: Exception)
    | IOerror(ioErr: IoError)
    | ModbusError(tokioErr: TokioError)
    | TryFromSliceError(sliceErr: TryFromSliceError)
    | ConversionError
    | DeviceNotConnectedError
    | RegisterDoesNotExistError(name: string)

  /** `From<Exception>`: a server exception reply. */
  function FromException(value: Exception): ModbusError
  {
    ModbusError.Exception(value)
  }

  /** `From<std::io::Error>`. */
  function FromIoError(value: IoError): ModbusError
  {
    IOerror(value)
  }

  /** `From<tokio_modbus::Error>`. */
  function FromTokioError(value: TokioError): ModbusError
  {
    ModbusError.ModbusError(value)
  }

  /** `From<TryFromSliceError>`. */
  function FromSliceError(value: TryFromSliceError): ModbusError
  {
    ModbusError.TryFromSliceError(value)
  }

  /**
   * The conversions lose nothing: each is injective, no two of them give the
   * same error, and none gives an error the access layer raises on its own
   * (ConversionError, DeviceNotConnectedError, RegisterDoesNotExistError).
   * The translation into the consumer's taxonomy relies on this to tell
   * the causes apart.
   */
  lemma FromConversionsDistinct(e1: Exception, e2: Exception, i1: IoError, i2: IoError,
                                t1: TokioError, t2: TokioError, x: TryFromSliceError)
    ensures FromException(e1) == FromException(e2) <==> e1 == e2
    ensures FromIoError(i1) == FromIoError(i2) <==> i1 == i2
    ensures FromTokioError(t1) == FromTokioError(t2) <==> t1 == t2
    ensures FromException(e1) != FromIoError(i1) && FromException(e1) != FromTokioError(t1)
    ensures FromIoError(i1) != FromTokioError(t1)
    ensures FromSliceError(x) != FromException(e1) && FromSliceError(x) != FromIoError(i1)
    ensures FromSliceError(x) != FromTokioError(t1)
    ensures forall e :: e in [FromException(e1), FromIoError(i1), FromTokioError(t1), FromSliceError(x)] ==>
      !e.ConversionError? && !e.DeviceNotConnectedError? && !e.RegisterDoesNotExistError?
  {
  }
}
