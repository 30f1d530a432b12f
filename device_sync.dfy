/**
 * The synchronous device (`ModbusDevice`): a blocking Modbus context, which
 * is always connected, and the input and holding catalogs. Its batch read
 * has its own window loop, which reads a window when the next register does
 * not join it or is the last one, and never reads after the loop; so the
 * last register in address order is never read (`Batch.SyncRun`).
 */
module DeviceSync {
  import opened Wrappers
  import opened Register
  import opened Errors
  import opened Types
  import opened Transport
  import opened Planner
  import opened Batch
  import opened Access

  /** How a call ends: it returns a value, or it panics (an `unwrap` of `None`). */
  datatype Outcome<T> = Returned(value: T) | Panicked

  /** `read_*_registers_by_name` of the synchronous device: the names found in the catalog, read by the synchronous loop. */
  function SyncByName(remote: Remote, space: ModBusRegisters, cat: Catalog, names: seq<string>): Run<Values>
    requires CatalogReadable(cat)
  {
    ResolveReadable(cat, names);
    SyncRun(remote, space, Resolve(cat, names))
  }

  /** The value a result map holds under a name, if any (`HashMap::get`). */
  function Lookup(m: Values, name: string): (r: Option<RegisterValue>)
    ensures r.Some? <==> name in m
    ensures r.Some? ==> r.value == m[name]
  {
    if name in m then Some(m[name]) else None
  }

  /** `read_holding_register`: a batch of the one register, then the value under its name, unwrapped. */
  function SyncReadOne(remote: Remote, reg: Register): Outcome<Result<RegisterValue, ModbusError>>
    requires Readable(reg)
  {
    var b := SyncRun(remote, Holding, [reg]);
    match b.result
    case Failure(err) => Returned(Failure(err))
    case Success(m) =>
      match Lookup(m, reg.name)
      case Some(v) => Returned(Success(v))
      case None => Panicked
  }

  /**
   * `read_holding_register` always panics: a batch of one register sends no
   * request and returns an empty map, so the lookup of the register's name
   * finds nothing and is unwrapped.
   */
  lemma SyncReadOnePanics(remote: Remote, reg: Register)
    requires Readable(reg)
    ensures SyncRun(remote, Holding, [reg]).requests == []
    ensures SyncReadOne(remote, reg) == Panicked
  {
    SyncReadsNothing(remote, Holding, [reg]);
  }

  /**
   * A failed synchronous read reports a server exception or a client error:
   * the four-variant error type of the synchronous module is enough, since
   * neither a missing connection nor a conversion error can occur.
   */
  lemma SyncRunErrors(remote: Remote, space: ModBusRegisters, regs: seq<Register>)
    requires AllReadable(regs)
    requires SyncRun(remote, space, regs).result.Failure?
    ensures SyncRun(remote, space, regs).result.error.Exception? || SyncRun(remote, space, regs).result.error.ModbusError?
  {
    var s := SortByAddr(regs);
    SortedReadable(regs);
    SyncPlanned(s);
    var f := RunWindowsFailure(true, remote, space, s, SyncWindows(s));
  }

  /**
   * What a synchronous batch returns is sound: each name in a successful
   * result is borne by a requested register whose own words are on the
   * device and decode, and the value is that decode.
   */
  lemma SyncRunSound(remote: Remote, space: ModBusRegisters, regs: seq<Register>, name: string)
    requires AllReadable(regs)
    requires SyncRun(remote, space, regs).result.Success?
    requires name in SyncRun(remote, space, regs).result.value
    ensures exists r :: (r in regs && r.name == name && Mapped(Memory(remote, space), r.addr, r.len)
      && OwnValue(Memory(remote, space), r) == Success(SyncRun(remote, space, regs).result.value[name]))
  {
    if |regs| <= 1 {
      SyncReadsNothing(remote, space, regs);
    } else {
      var p := SortByAddr(regs)[..|regs| - 1];
      SyncReadsAllButLast(remote, space, regs);
      ReadRegistersValue(true, remote, space, p, name);
      var r :| r in p && r.name == name
        && OwnValue(Memory(remote, space), r) == Success(ReadRegistersRun(true, remote, space, p).result.value[name]);
      SortKeepsMembers(regs, r);
    }
  }

  /** The input dump asks for every descriptor of the catalog, whatever its `read` flag. */
  lemma DumpInputAsksAll(cat: Catalog, iter: seq<string>, r: Register)
    requires KeyOrder(cat, iter)
    ensures r in Resolve(cat, iter) <==> exists k :: k in cat && cat[k] == r
  {
    ResolveMembers(cat, iter, r);
  }

  /** The holding dump asks for exactly the descriptors whose `read` flag is set. */
  lemma DumpHoldingAsksFlagged(cat: Catalog, iter: seq<string>, r: Register)
    requires KeyOrder(cat, iter)
    ensures r in Resolve(cat, ReadFlagged(cat, iter)) <==> exists k :: k in cat && cat[k] == r && r.read
  {
    ResolveMembers(cat, ReadFlagged(cat, iter), r);
  }

  class ModbusDevice {
    /** The device at the other end of the blocking context. */
    var remote: Remote
    /** The requests put on the link so far, in order. */
    ghost var log: seq<Request>
    const inputRegisters: Catalog
    const holdingRegisters: Catalog

    /** Every descriptor of both catalogs can be read without a panic. */
    predicate CatalogsReadable()
    {
      CatalogReadable(inputRegisters) && CatalogReadable(holdingRegisters)
    }

    /** The structure is built from a context that is already connected. */
    constructor (ctx: Remote, input: Catalog, holding: Catalog)
      ensures remote == ctx && log == []
      ensures inputRegisters == input && holdingRegisters == holding
    {
      remote := ctx;
      log := [];
      inputRegisters := input;
      holdingRegisters := holding;
    }

    /** `read_raw_input_registers`: one request; the transport's outer error and the server's exception convert into `ModbusError`. */
    method ReadRawInputRegisters(addr: nat, nb: nat) returns (r: Result<seq<u16>, ModbusError>)
      modifies this`log
      ensures r == RawRead(true, remote, Input, addr, nb)
      ensures log == old(log) + RawRequests(true, Input, addr, nb)
    {
      log := log + [ReadRequest(Input, addr, nb)];
      var reply := ReadReply(remote, Input, addr, nb);
      match reply
      case Failure(err) =>
        r := Failure(FromTokioError(err));
      case Success(Failure(exc)) =>
        r := Failure(FromException(exc));
      case Success(Success(words)) =>
        r := Success(words);
    }

    /** `read_raw_holding_registers`: as for the input space. */
    method ReadRawHoldingRegisters(addr: nat, nb: nat) returns (r: Result<seq<u16>, ModbusError>)
      modifies this`log
      ensures r == RawRead(true, remote, Holding, addr, nb)
      ensures log == old(log) + RawRequests(true, Holding, addr, nb)
    {
      log := log + [ReadRequest(Holding, addr, nb)];
      var reply := ReadReply(remote, Holding, addr, nb);
      match reply
      case Failure(err) =>
        r := Failure(FromTokioError(err));
      case Success(Failure(exc)) =>
        r := Failure(FromException(exc));
      case Success(Success(words)) =>
        r := Success(words);
    }

    /** The body of a window read in `read_register`: one raw read over the window's extent, then each register decoded from its slice. */
    method ReadRange(regs: seq<Register>, space: ModBusRegisters) returns (r: Result<Values, ModbusError>)
      requires Spanned(regs) && AllReadable(regs)
      modifies this`log
      ensures r == RangeRead(true, remote, space, regs).result
      ensures log == old(log) + RangeRead(true, remote, space, regs).requests
    {
      var start := regs[0].addr;
      var count := End(regs[|regs| - 1]) - start;
      var buf;
      match space {
        case Input =>
          buf := ReadRawInputRegisters(start, count);
        case Holding =>
          buf := ReadRawHoldingRegisters(start, count);
      }
      if buf.Failure? {
        return Failure(buf.error);
      }
      r := Success(WindowValues(buf.value, regs));
    }

    /**
     * One iteration of the loop of `read_register` at position `i`: the open
     * window is read when the register at `i` does not join it or is the
     * last one, and the next window then opens at `i`.
     */
    method SyncAdvance(s: seq<Register>, space: ModBusRegisters, i: nat, start: nat, ghost closed: seq<Window>,
                       result: Values, ghost reqs: seq<Request>, ghost log0: seq<Request>)
      returns (failed: Option<ModbusError>, start': nat, ghost closed': seq<Window>, result': Values, ghost reqs': seq<Request>)
      requires SyncProgress(remote, space, s, i, start, closed, result, reqs) && i < |s|
      requires log == log0 + reqs
      modifies this`log
      ensures log == log0 + reqs'
      ensures failed.None? ==> SyncProgress(remote, space, s, i + 1, start', closed', result', reqs')
      ensures failed.Some? ==>
        (Planned(s, SyncWindows(s)) && RunWindows(true, remote, space, s, SyncWindows(s)) == Run(reqs', Failure(failed.value)))
    {
      SyncProgressStep(remote, space, s, i, start, closed, result, reqs);
      if Joins(s, start, i) && i != |s| - 1 {
        return None, start, closed, result, reqs;
      }
      ghost var o := RangeRead(true, remote, space, s[start..i]);
      var m := ReadRange(s[start..i], space);
      AppendAssoc(log0, reqs, o.requests);
      if m.Failure? {
        return Some(m.error), start, closed, result, reqs + o.requests;
      }
      return None, i, closed + [Window(start, i)], result + m.value, reqs + o.requests;
    }

    /** `read_register`: sort by address, then the window loop; no read follows the loop. */
    method ReadRegister(regs: seq<Register>, space: ModBusRegisters) returns (r: Result<Values, ModbusError>)
      requires AllReadable(regs)
      modifies this`log
      ensures r == SyncRun(remote, space, regs).result
      ensures log == old(log) + SyncRun(remote, space, regs).requests
    {
      var s := SortByAddr(regs);
      SortedReadable(regs);
      if |s| == 0 {
        SyncReadsNothing(remote, space, regs);
        return Success(map[]);
      }
      r := SyncWindowsLoop(s, space);
    }

    /** The loop of `read_register` over a sorted, non-empty list. */
    method SyncWindowsLoop(s: seq<Register>, space: ModBusRegisters) returns (r: Result<Values, ModbusError>)
      requires AllReadable(s) && |s| >= 1
      modifies this`log
      ensures Planned(s, SyncWindows(s))
      ensures r == RunWindows(true, remote, space, s, SyncWindows(s)).result
      ensures log == old(log) + RunWindows(true, remote, space, s, SyncWindows(s)).requests
    {
      ghost var closed: seq<Window> := [];
      ghost var reqs: seq<Request> := [];
      var start: nat := 0;
      var result: Values := map[];
      var i: nat := 1;
      SyncProgressStart(remote, space, s);
      while i < |s|
        invariant SyncProgress(remote, space, s, i, start, closed, result, reqs)
        invariant log == old(log) + reqs
      {
        var failed;
        failed, start, closed, result, reqs := SyncAdvance(s, space, i, start, closed, result, reqs, old(log));
        if failed.Some? {
          return Failure(failed.value);
        }
        i := i + 1;
      }
      SyncProgressEnd(remote, space, s, start, closed, result, reqs);
      return Success(result);
    }

    /** `read_input_registers`. */
    method ReadInputRegisters(regs: seq<Register>) returns (r: Result<Values, ModbusError>)
      requires AllReadable(regs)
      modifies this`log
      ensures r == SyncRun(remote, Input, regs).result
      ensures log == old(log) + SyncRun(remote, Input, regs).requests
    {
      r := ReadRegister(regs, Input);
    }

    /** `read_holding_registers`. */
    method ReadHoldingRegisters(regs: seq<Register>) returns (r: Result<Values, ModbusError>)
      requires AllReadable(regs)
      modifies this`log
      ensures r == SyncRun(remote, Holding, regs).result
      ensures log == old(log) + SyncRun(remote, Holding, regs).requests
    {
      r := ReadRegister(regs, Holding);
    }

    /** `read_input_registers_by_name`: the names found in the input catalog; the others are skipped. */
    method ReadInputRegistersByName(names: seq<string>) returns (r: Result<Values, ModbusError>)
      requires CatalogsReadable()
      modifies this`log
      ensures r == SyncByName(remote, Input, inputRegisters, names).result
      ensures log == old(log) + SyncByName(remote, Input, inputRegisters, names).requests
    {
      var regs := Resolve(inputRegisters, names);
      ResolveReadable(inputRegisters, names);
      r := ReadInputRegisters(regs);
    }

    /** `read_holding_registers_by_name`: the names found in the holding catalog; the others are skipped. */
    method ReadHoldingRegistersByName(names: seq<string>) returns (r: Result<Values, ModbusError>)
      requires CatalogsReadable()
      modifies this`log
      ensures r == SyncByName(remote, Holding, holdingRegisters, names).result
      ensures log == old(log) + SyncByName(remote, Holding, holdingRegisters, names).requests
    {
      var regs := Resolve(holdingRegisters, names);
      ResolveReadable(holdingRegisters, names);
      r := ReadHoldingRegisters(regs);
    }

    /** `dump_input_registers`: every key of the input catalog, in iteration order, read by name. */
    method DumpInputRegisters() returns (r: Result<Values, ModbusError>, ghost iter: seq<string>)
      requires CatalogsReadable()
      modifies this`log
      ensures KeyOrder(inputRegisters, iter)
      ensures r == SyncByName(remote, Input, inputRegisters, iter).result
      ensures log == old(log) + SyncByName(remote, Input, inputRegisters, iter).requests
    {
      var keys := HashKeys(inputRegisters);
      iter := keys;
      r := ReadInputRegistersByName(keys);
    }

    /** `dump_holding_registers`: the keys of the holding catalog whose `read` flag is set, in iteration order, read by name. */
    method DumpHoldingRegisters() returns (r: Result<Values, ModbusError>, ghost iter: seq<string>)
      requires CatalogsReadable()
      modifies this`log
      ensures KeyOrder(holdingRegisters, iter)
      ensures r == SyncByName(remote, Holding, holdingRegisters, ReadFlagged(holdingRegisters, iter)).result
      ensures log == old(log) + SyncByName(remote, Holding, holdingRegisters, ReadFlagged(holdingRegisters, iter)).requests
    {
      var keys;
      keys, iter := FlaggedKeys(holdingRegisters);
      r := ReadHoldingRegistersByName(keys);
    }

    /** `read_holding_register`: a batch of the one register, the value under its name unwrapped. */
    method ReadHoldingRegister(reg: Register) returns (r: Outcome<Result<RegisterValue, ModbusError>>)
      requires Readable(reg)
      modifies this`log
      ensures r == SyncReadOne(remote, reg)
      ensures log == old(log) + SyncRun(remote, Holding, [reg]).requests
    {
      var res := ReadRegister([reg], Holding);
      match res
      case Failure(err) =>
        r := Returned(Failure(err));
      case Success(m) =>
        match Lookup(m, reg.name) {
          case Some(v) =>
            r := Returned(Success(v));
          case None =>
            r := Panicked;
        }
    }

    /** `get_holding_register_by_name`. */
    function GetHoldingRegisterByName(name: string): (r: Option<Register>)
      ensures r.Some? <==> name in holdingRegisters
      ensures r.Some? ==> r.value == holdingRegisters[name]
    {
      if name in holdingRegisters then Some(holdingRegisters[name]) else None
    }

    /**
     * `write_raw_input_registers`: despite its name, a write of multiple
     * holding registers; there is no connection to check.
     */
    method WriteRawInputRegisters(addr: nat, data: seq<u16>) returns (r: Result<(), ModbusError>)
      modifies this`log, this`remote
      ensures var w := RawWriteRun(true, old(remote), addr, data);
        && r == w.result && remote == w.remote && log == old(log) + w.requests
    {
      log := log + [WriteRequest(addr, data)];
      var reply := WriteReply(remote, addr, data);
      match reply
      case Failure(err) =>
        r := Failure(FromTokioError(err));
      case Success(Failure(exc)) =>
        r := Failure(FromException(exc));
      case Success(Success(after)) =>
        remote := after;
        r := Success(());
    }

    /** `write_holding_register`: the value's encoding, written at the register's address. */
    method WriteHoldingRegister(reg: Register, val: RegisterValue) returns (r: Result<(), ModbusError>)
      modifies this`log, this`remote
      ensures var w := WriteHolding(true, old(remote), reg, val);
        && r == w.result && remote == w.remote && log == old(log) + w.requests
    {
      var data := Encode(val).value;
      r := WriteRawInputRegisters(reg.addr, data);
    }
  }
}
