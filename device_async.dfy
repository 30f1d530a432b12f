/**
 * The asynchronous device (`ModbusDeviceAsync`): an optional connection,
 * the input and holding catalogs, and the device at the other end of the
 * link. Every operation is proved to do what the specification functions of
 * `Batch` and `Access` say, request by request.
 */
module DeviceAsync {
  import opened Wrappers
  import opened Register
  import opened Errors
  import opened Types
  import opened Transport
  import opened Planner
  import opened Batch
  import opened Access
  import Industrial

  /** How the device is reached: over TCP, or over a serial line (RTU). */
  datatype ModBusContext = TCP | RTU

  class ModbusDeviceAsync {
    /** Whether `ctx` holds a connection. */
    var connected: bool
    /** The device at the other end of the link. */
    var remote: Remote
    /** The requests put on the link so far, in order. */
    ghost var log: seq<Request>
    const inputRegisters: Catalog
    const holdingRegisters: Catalog
    const device: ModBusContext

    /** The catalog of an address space. */
    function CatalogOf(space: ModBusRegisters): Catalog
    {
      match space
      case Input => inputRegisters
      case Holding => holdingRegisters
    }

    /** Every descriptor of both catalogs can be read without a panic. */
    predicate CatalogsReadable()
    {
      CatalogReadable(inputRegisters) && CatalogReadable(holdingRegisters)
    }

    /** `new`: a device starts without a connection. */
    constructor (context: ModBusContext, input: Catalog, holding: Catalog, other: Remote)
      ensures !connected && log == [] && remote == other
      ensures inputRegisters == input && holdingRegisters == holding && device == context
    {
      connected := false;
      remote := other;
      log := [];
      inputRegisters := input;
      holdingRegisters := holding;
      device := context;
    }

    /**
     * `connect`: a TCP connection attempt may fail with an I/O error, which
     * leaves the device as it was; attaching to a serial line always yields
     * a connection.
     */
    method Connect(tcpError: Option<IoError>) returns (r: Result<(), ModbusError>)
      modifies this`connected
      ensures device.TCP? && tcpError.Some? ==> r == Failure(FromIoError(tcpError.value)) && connected == old(connected)
      ensures !(device.TCP? && tcpError.Some?) ==> r == Success(()) && connected
    {
      if device.TCP? && tcpError.Some? {
        return Failure(FromIoError(tcpError.value));
      }
      connected := true;
      return Success(());
    }

    /** `IndustrialDevice::connect`: `connect`, its error translated into the consumer's taxonomy. */
    method IndustrialConnect(tcpError: Option<IoError>) returns (r: Result<(), Industrial.IndustrialDeviceError>)
      modifies this`connected
      ensures device.TCP? && tcpError.Some? ==>
        r == Failure(Industrial.DeviceNotAccessibleError(Industrial.IoCause(tcpError.value))) && connected == old(connected)
      ensures !(device.TCP? && tcpError.Some?) ==> r == Success(()) && connected
    {
      var c := Connect(tcpError);
      match c
      case Failure(err) =>
        r := Failure(Industrial.ToIndustrial(err).value);
      case Success(_) =>
        r := Success(());
    }

    /** `read_raw_registers`: the raw read, and its request when connected. */
    method ReadRawRegisters(addr: nat, nb: nat, space: ModBusRegisters) returns (r: Result<seq<u16>, ModbusError>)
      modifies this`log
      ensures r == RawRead(connected, remote, space, addr, nb)
      ensures log == old(log) + RawRequests(connected, space, addr, nb)
    {
      if !connected {
        return Failure(DeviceNotConnectedError);
      }
      log := log + [ReadRequest(space, addr, nb)];
      var reply := ReadReply(remote, space, addr, nb);
      match reply
      case Failure(err) =>
        r := Failure(FromTokioError(err));
      case Success(Failure(exc)) =>
        r := Failure(FromException(exc));
      case Success(Success(words)) =>
        r := Success(words);
    }

    /** `write_raw_holding_registers`: the raw write, its request when connected, and the device's new state on success. */
    method WriteRawHoldingRegisters(addr: nat, data: seq<u16>) returns (r: Result<(), ModbusError>)
      modifies this`log, this`remote
      ensures var w := RawWriteRun(connected, old(remote), addr, data);
        && r == w.result && remote == w.remote && log == old(log) + w.requests
    {
      if !connected {
        return Failure(DeviceNotConnectedError);
      }
      log := log + [WriteRequest(addr, data)];
      var reply := WriteReply(remote, addr, data);
      match reply
      case Failure(err) =>
        r := Failure(FromTokioError(err));
      case Success(Failure(exc)) =>
        r := Failure(FromException(exc));
      case Success(Success(after)) =>
        remote := after;
        r := Success(());
    }

    /** `read_range`: one raw read over the registers' extent, then each register decoded from its slice of the buffer. */
    method ReadRange(regs: seq<Register>, space: ModBusRegisters) returns (r: Result<Values, ModbusError>)
      requires Spanned(regs) && AllReadable(regs)
      modifies this`log
      ensures r == RangeRead(connected, remote, space, regs).result
      ensures log == old(log) + RangeRead(connected, remote, space, regs).requests
    {
      var start := regs[0].addr;
      var count := End(regs[|regs| - 1]) - start;
      var buf := ReadRawRegisters(start, count, space);
      if buf.Failure? {
        return Failure(buf.error);
      }
      r := Success(WindowValues(buf.value, regs));
    }

    /**
     * `read_registers`: sort by address, then read window by window; a
     * window closes when the next register does not start where the previous
     * one ends or starts more than 125 words after the window's first
     * register, and the last window is read after the loop.
     */
    method ReadRegisters(regs: seq<Register>, space: ModBusRegisters) returns (r: Result<Values, ModbusError>)
      requires AllReadable(regs)
      modifies this`log
      ensures r == ReadRegistersRun(connected, remote, space, regs).result
      ensures log == old(log) + ReadRegistersRun(connected, remote, space, regs).requests
    {
      var s := SortByAddr(regs);
      SortedReadable(regs);
      if |s| == 0 {
        ReadRegistersGuards(connected, remote, space, regs);
        return Success(map[]);
      }
      if |s| == 1 {
        SingleSorted(regs);
        r := ReadSingle(s[0], space);
        return;
      }
      PlanOfWindows(s);
      r := ReadWindows(s, space);
    }

    /** The one-register case of `read_registers`: a range read of that register alone. */
    method ReadSingle(reg: Register, space: ModBusRegisters) returns (r: Result<Values, ModbusError>)
      requires Readable(reg)
      modifies this`log
      ensures r == ReadRegistersRun(connected, remote, space, [reg]).result
      ensures log == old(log) + ReadRegistersRun(connected, remote, space, [reg]).requests
    {
      ReadRegistersSingle(connected, remote, space, reg);
      r := ReadRange([reg], space);
    }

    /**
     * One iteration of the loop of `read_registers` at position `i`: a
     * register that does not join the open window closes it with a range
     * read, after which the next window opens at `i`.
     */
    method Advance(s: seq<Register>, space: ModBusRegisters, i: nat, start: nat, ghost closed: seq<Window>,
                   result: Values, ghost reqs: seq<Request>, ghost log0: seq<Request>)
      returns (failed: Option<ModbusError>, start': nat, ghost closed': seq<Window>, result': Values, ghost reqs': seq<Request>)
      requires Progress(connected, remote, space, s, i, start, closed, result, reqs) && i < |s|
      requires log == log0 + reqs
      modifies this`log
      ensures log == log0 + reqs'
      ensures failed.None? ==> Progress(connected, remote, space, s, i + 1, start', closed', result', reqs')
      ensures failed.Some? ==>
        (Planned(s, Windows(s)) && RunWindows(connected, remote, space, s, Windows(s)) == Run(reqs', Failure(failed.value)))
    {
      ProgressStep(connected, remote, space, s, i, start, closed, result, reqs);
      if Joins(s, start, i) {
        return None, start, closed, result, reqs;
      }
      ghost var o := RangeRead(connected, remote, space, s[start..i]);
      var m := ReadRange(s[start..i], space);
      AppendAssoc(log0, reqs, o.requests);
      if m.Failure? {
        return Some(m.error), start, closed, result, reqs + o.requests;
      }
      return None, i, closed + [Window(start, i)], result + m.value, reqs + o.requests;
    }

    /** The loop of `read_registers` and the read after it, over a sorted list of two registers or more. */
    method ReadWindows(s: seq<Register>, space: ModBusRegisters) returns (r: Result<Values, ModbusError>)
      requires AllReadable(s) && |s| >= 2
      modifies this`log
      ensures Planned(s, Windows(s))
      ensures r == RunWindows(connected, remote, space, s, Windows(s)).result
      ensures log == old(log) + RunWindows(connected, remote, space, s, Windows(s)).requests
    {
      ghost var closed: seq<Window> := [];
      ghost var reqs: seq<Request> := [];
      var start: nat := 0;
      var result: Values := map[];
      var i: nat := 1;
      ProgressStart(connected, remote, space, s);
      while i < |s|
        invariant Progress(connected, remote, space, s, i, start, closed, result, reqs)
        invariant log == old(log) + reqs
      {
        var failed;
        failed, start, closed, result, reqs := Advance(s, space, i, start, closed, result, reqs, old(log));
        if failed.Some? {
          return Failure(failed.value);
        }
        i := i + 1;
      }
      r := FinishWindows(s, space, start, closed, result, reqs, old(log));
    }

    /** The read after the loop of `read_registers`: the open window is the plan's last. */
    method FinishWindows(s: seq<Register>, space: ModBusRegisters, start: nat, ghost closed: seq<Window>,
                         result: Values, ghost reqs: seq<Request>, ghost log0: seq<Request>) returns (r: Result<Values, ModbusError>)
      requires Progress(connected, remote, space, s, |s|, start, closed, result, reqs)
      requires log == log0 + reqs
      modifies this`log
      ensures Planned(s, Windows(s))
      ensures r == RunWindows(connected, remote, space, s, Windows(s)).result
      ensures log == log0 + RunWindows(connected, remote, space, s, Windows(s)).requests
    {
      ProgressLast(connected, remote, space, s, start, closed, result, reqs);
      ghost var o := RangeRead(connected, remote, space, s[start..|s|]);
      var m := ReadRange(s[start..|s|], space);
      AppendAssoc(log0, reqs, o.requests);
      if m.Failure? {
        return m;
      }
      r := Success(result + m.value);
    }

    /** `read_register`: a batch of the one register, or `ConversionError` when its name is not in the result. */
    method ReadRegister(reg: Register, space: ModBusRegisters) returns (r: Result<RegisterValue, ModbusError>)
      requires Readable(reg)
      modifies this`log
      ensures r == ReadOne(connected, remote, space, reg).result
      ensures log == old(log) + ReadOne(connected, remote, space, reg).requests
    {
      var res := ReadRegisters([reg], space);
      if res.Failure? {
        return Failure(res.error);
      }
      if reg.name !in res.value {
        return Failure(ConversionError);
      }
      r := Success(res.value[reg.name]);
    }

    /** `read_registers_by_name`: the names found in the space's catalog, read as one batch; the others are skipped. */
    method ReadRegistersByName(names: seq<string>, space: ModBusRegisters) returns (r: Result<Values, ModbusError>)
      requires CatalogsReadable()
      modifies this`log
      ensures r == ReadByName(connected, remote, space, CatalogOf(space), names).result
      ensures log == old(log) + ReadByName(connected, remote, space, CatalogOf(space), names).requests
    {
      ResolveReadable(CatalogOf(space), names);
      r := ReadRegisters(Resolve(CatalogOf(space), names), space);
    }

    /**
     * `dump_registers`: the space's catalog entries whose `read` flag is
     * set, in the order the catalog hands its keys out (any order: `iter`
     * records the one taken), read as one batch.
     */
    method DumpRegisters(space: ModBusRegisters) returns (r: Result<Values, ModbusError>, ghost iter: seq<string>)
      requires CatalogsReadable()
      modifies this`log
      ensures KeyOrder(CatalogOf(space), iter)
      ensures r == Dump(connected, remote, space, CatalogOf(space), iter).result
      ensures log == old(log) + Dump(connected, remote, space, CatalogOf(space), iter).requests
    {
      var flagged;
      flagged, iter := FlaggedKeys(CatalogOf(space));
      r := ReadRegistersByName(flagged, space);
    }

    /** `write_holding_register`: the value's encoding, written at the register's address. */
    method WriteHoldingRegister(reg: Register, val: RegisterValue) returns (r: Result<(), ModbusError>)
      modifies this`log, this`remote
      ensures var w := WriteHolding(connected, old(remote), reg, val);
        && r == w.result && remote == w.remote && log == old(log) + w.requests
    {
      var data := Encode(val).value;
      r := WriteRawHoldingRegisters(reg.addr, data);
    }

    /** `write_holding_register_by_name`: looked up in the holding catalog only. */
    method WriteHoldingRegisterByName(name: string, val: RegisterValue) returns (r: Result<(), ModbusError>)
      modifies this`log, this`remote
      ensures var w := WriteByName(connected, old(remote), holdingRegisters, name, val);
        && r == w.result && remote == w.remote && log == old(log) + w.requests
    {
      var reg := GetHoldingRegisterByName(name);
      if reg.None? {
        return Failure(RegisterDoesNotExistError(name));
      }
      r := WriteHoldingRegister(reg.value, val);
    }

    /** `get_holding_register_by_name`: a copy of the descriptor stored under the name, if any. */
    function GetHoldingRegisterByName(name: string): (r: Option<Register>)
      ensures r.Some? <==> name in holdingRegisters
      ensures r.Some? ==> r.value == holdingRegisters[name]
    {
      if name in holdingRegisters then Some(holdingRegisters[name]) else None
    }

    /** `get_input_register_by_name`. */
    function GetInputRegisterByName(name: string): (r: Option<Register>)
      ensures r.Some? <==> name in inputRegisters
      ensures r.Some? ==> r.value == inputRegisters[name]
    {
      if name in inputRegisters then Some(inputRegisters[name]) else None
    }
  }
}
