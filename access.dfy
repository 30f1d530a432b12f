/**
 * The operations around the batch read: reading one register, reading by
 * name through a catalog, dumping a catalog, and writing a holding register
 * (by descriptor or by name). Each is a function of the connection state and
 * the remote device; the device classes run them against their fields.
 */
module Access {
  import opened Wrappers
  import opened Register
  import opened Errors
  import opened Types
  import opened Transport
  import opened Planner
  import opened Batch

  /** A catalog: register descriptors by name. */
  type Catalog = map<string, Register>

  /** Every descriptor of the catalog can be read without a panic. */
  predicate CatalogReadable(cat: Catalog)
  {
    forall k :: k in cat ==> Readable(cat[k])
  }

  // ---------------------------------------------------------------------
  // Reading one register

  /**
   * `read_register`: a batch of the one register, then a lookup of its
   * name in the result; a name the batch did not return is a
   * `ConversionError`.
   */
  function ReadOne(connected: bool, remote: Remote, space: ModBusRegisters, reg: Register): Run<RegisterValue>
    requires Readable(reg)
  {
    var b := ReadRegistersRun(connected, remote, space, [reg]);
    match b.result
    case Failure(err) => Run(b.requests, Failure(err))
    case Success(m) => Run(b.requests, if reg.name in m then Success(m[reg.name]) else Failure(ConversionError))
  }

  /**
   * Reading one register makes the one raw read of its own extent; it
   * returns that read's error, or the decode of the register's own words, or
   * `ConversionError` when they do not decode.
   */
  lemma ReadOneOutcome(connected: bool, remote: Remote, space: ModBusRegisters, reg: Register)
    requires Readable(reg)
    ensures ReadOne(connected, remote, space, reg).requests == RawRequests(connected, space, reg.addr, reg.len)
    ensures RawRead(connected, remote, space, reg.addr, reg.len).Failure? ==>
      ReadOne(connected, remote, space, reg).result == Failure(RawRead(connected, remote, space, reg.addr, reg.len).error)
    ensures RawRead(connected, remote, space, reg.addr, reg.len).Success? ==>
      Mapped(Memory(remote, space), reg.addr, reg.len)
      && ReadOne(connected, remote, space, reg).result
         == match OwnValue(Memory(remote, space), reg)
            case Success(v) => Success(v)
            case Failure(_) => Failure(ConversionError)
  {
    ReadRegistersSingle(connected, remote, space, reg);
    var b := ReadRegistersRun(connected, remote, space, [reg]);
    if b.result.Success? {
      assert [reg][0] == reg;
      ReadRegistersKeys(connected, remote, space, [reg], reg.name);
      if reg.name in b.result.value {
        ReadRegistersValue(connected, remote, space, [reg], reg.name);
      }
    }
  }

  // ---------------------------------------------------------------------
  // Reading by name, dumping

  /** The descriptors of the names found in the catalog, in the order of the names; other names are skipped. */
  function Resolve(cat: Catalog, names: seq<string>): (regs: seq<Register>)
    ensures |regs| <= |names|
  {
    if names == [] then []
    else
      var n := names[|names| - 1];
      Resolve(cat, names[..|names| - 1]) + if n in cat then [cat[n]] else []
  }

  /** The names a lookup skips, in order (the ones the source logs a warning for). */
  function Skipped(cat: Catalog, names: seq<string>): (out: seq<string>)
    ensures |Resolve(cat, names)| + |out| == |names|
  {
    if names == [] then []
    else
      var n := names[|names| - 1];
      Skipped(cat, names[..|names| - 1]) + if n in cat then [] else [n]
  }

  /** A descriptor is looked up exactly when one of the names is a catalog key that holds it. */
  lemma {:induction false} ResolveMembers(cat: Catalog, names: seq<string>, r: Register)
    ensures r in Resolve(cat, names) <==> exists n :: n in names && n in cat && cat[n] == r
  {
    if names != [] {
      var pre := names[..|names| - 1];
      var n := names[|names| - 1];
      ResolveMembers(cat, pre, r);
      assert names == pre + [n];
      if exists m :: m in pre && m in cat && cat[m] == r {
        var m :| m in pre && m in cat && cat[m] == r;
        assert m in names;
      }
    }
  }

  /** A name is skipped exactly when it is not a key of the catalog. */
  lemma {:induction false} SkippedNames(cat: Catalog, names: seq<string>, n: string)
    ensures n in Skipped(cat, names) <==> n in names && n !in cat
  {
    if names != [] {
      var pre := names[..|names| - 1];
      SkippedNames(cat, pre, n);
      assert names == pre + [names[|names| - 1]];
    }
  }

  lemma ResolveReadable(cat: Catalog, names: seq<string>)
    requires CatalogReadable(cat)
    ensures AllReadable(Resolve(cat, names))
  {
    forall r | r in Resolve(cat, names) ensures Readable(r) {
      ResolveMembers(cat, names, r);
    }
  }

  /** `read_registers_by_name`: the names found in the catalog, read as one batch. */
  function ReadByName(connected: bool, remote: Remote, space: ModBusRegisters, cat: Catalog, names: seq<string>): Run<Values>
    requires CatalogReadable(cat)
  {
    ResolveReadable(cat, names);
    ReadRegistersRun(connected, remote, space, Resolve(cat, names))
  }

  /**
   * On success, a name is in the result exactly when some requested name is
   * a key of the catalog whose descriptor bears that name and decodes from
   * its own words; the value is such a decode. Unknown names are skipped,
   * the rest are read.
   */
  lemma ReadByNameKeys(connected: bool, remote: Remote, space: ModBusRegisters, cat: Catalog, names: seq<string>, name: string)
    requires CatalogReadable(cat)
    requires ReadByName(connected, remote, space, cat, names).result.Success?
    ensures name in ReadByName(connected, remote, space, cat, names).result.value <==>
      exists n :: n in names && n in cat && cat[n].name == name && Mapped(Memory(remote, space), cat[n].addr, cat[n].len)
        && OwnValue(Memory(remote, space), cat[n]).Success?
  {
    var regs := Resolve(cat, names);
    ResolveReadable(cat, names);
    ReadRegistersKeys(connected, remote, space, regs, name);
    var mem := Memory(remote, space);
    if exists r :: r in regs && r.name == name && OwnValue(mem, r).Success? {
      var r :| r in regs && r.name == name && OwnValue(mem, r).Success?;
      ResolveMembers(cat, names, r);
    }
    if exists n :: n in names && n in cat && cat[n].name == name && Mapped(mem, cat[n].addr, cat[n].len) && OwnValue(mem, cat[n]).Success? {
      var n :| n in names && n in cat && cat[n].name == name && Mapped(mem, cat[n].addr, cat[n].len) && OwnValue(mem, cat[n]).Success?;
      ResolveMembers(cat, names, cat[n]);
    }
  }

  /** `iter` lists every key of the catalog exactly once: one order a hash map may hand its keys out in. */
  predicate KeyOrder(cat: Catalog, iter: seq<string>)
  {
    && (forall k :: k in cat ==> k in iter)
    && (forall k :: k in iter ==> k in cat)
    && (forall i, j :: 0 <= i < j < |iter| ==> iter[i] != iter[j])
  }

  /** The keys, in iteration order, whose descriptor has its `read` flag set. */
  function ReadFlagged(cat: Catalog, iter: seq<string>): (keys: seq<string>)
    requires forall k :: k in iter ==> k in cat
    ensures forall k :: k in keys <==> k in iter && cat[k].read
  {
    if iter == [] then []
    else
      var pre := iter[..|iter| - 1];
      var k := iter[|iter| - 1];
      assert forall x :: x in iter <==> x in pre || x == k;
      ReadFlagged(cat, pre) + if cat[k].read then [k] else []
  }

  /** Handing out one more key extends the filtered listing by that key exactly when its flag is set. */
  lemma ReadFlaggedSnoc(cat: Catalog, iter: seq<string>, k: string)
    requires forall x :: x in iter ==> x in cat
    requires k in cat
    ensures forall x :: x in iter + [k] ==> x in cat
    ensures ReadFlagged(cat, iter + [k]) == ReadFlagged(cat, iter) + if cat[k].read then [k] else []
  {
    assert (iter + [k])[..|iter|] == iter;
  }

  /** The keys of a catalog, in one order a hash map may hand them out in. */
  method HashKeys(cat: Catalog) returns (iter: seq<string>)
    ensures KeyOrder(cat, iter)
  {
    var rest := cat.Keys;
    iter := [];
    while rest != {}
      invariant forall k :: k in cat ==> k in rest || k in iter
      invariant forall k :: k in rest ==> k in cat && k !in iter
      invariant forall k :: k in iter ==> k in cat
      invariant forall i, j :: 0 <= i < j < |iter| ==> iter[i] != iter[j]
      decreases |rest|
    {
      var k :| k in rest;
      rest := rest - {k};
      iter := iter + [k];
    }
  }

  /** The keys whose descriptor has its `read` flag set, filtered while the catalog hands its keys out in the order `iter`. */
  method FlaggedKeys(cat: Catalog) returns (flagged: seq<string>, ghost iter: seq<string>)
    ensures forall k :: k in flagged <==> k in cat && cat[k].read
    ensures KeyOrder(cat, iter)
    ensures flagged == ReadFlagged(cat, iter)
  {
    var rest := cat.Keys;
    flagged := [];
    iter := [];
    while rest != {}
      invariant forall k :: k in cat ==> k in rest || k in iter
      invariant forall k :: k in rest ==> k in cat && k !in iter
      invariant forall k :: k in iter ==> k in cat
      invariant forall i, j :: 0 <= i < j < |iter| ==> iter[i] != iter[j]
      invariant flagged == ReadFlagged(cat, iter)
      decreases |rest|
    {
      var k :| k in rest;
      rest := rest - {k};
      ReadFlaggedSnoc(cat, iter, k);
      iter := iter + [k];
      if cat[k].read {
        flagged := flagged + [k];
      }
    }
  }

  /** `dump_registers` of the asynchronous device: the catalog entries whose `read` flag is set, in iteration order, read as one batch. */
  function Dump(connected: bool, remote: Remote, space: ModBusRegisters, cat: Catalog, iter: seq<string>): Run<Values>
    requires CatalogReadable(cat) && KeyOrder(cat, iter)
  {
    ReadByName(connected, remote, space, cat, ReadFlagged(cat, iter))
  }

  /**
   * On success a dump holds exactly the names borne by catalog entries
   * whose `read` flag is set and whose own words decode, whatever order the
   * catalog hands its keys out in.
   */
  lemma DumpKeys(connected: bool, remote: Remote, space: ModBusRegisters, cat: Catalog, iter: seq<string>, name: string)
    requires CatalogReadable(cat) && KeyOrder(cat, iter)
    requires Dump(connected, remote, space, cat, iter).result.Success?
    ensures name in Dump(connected, remote, space, cat, iter).result.value <==>
      exists k :: k in cat && cat[k].read && cat[k].name == name && Mapped(Memory(remote, space), cat[k].addr, cat[k].len)
        && OwnValue(Memory(remote, space), cat[k]).Success?
  {
    ReadByNameKeys(connected, remote, space, cat, ReadFlagged(cat, iter), name);
  }

  // ---------------------------------------------------------------------
  // Writing

  /**
   * `write_raw_holding_registers`: without a connection it fails before any
   * request; otherwise the transport's outer error and the server's
   * exception convert as for reads, and success carries the device's new
   * state.
   */
  function RawWrite(connected: bool, remote: Remote, addr: nat, words: seq<u16>): (r: Result<Remote, ModbusError>)
    ensures !connected ==> r == Failure(DeviceNotConnectedError)
    ensures r.Success? <==> connected && remote.linkUp && 1 <= |words| <= MaxWriteQuantity && Mapped(remote.holding, addr, |words|)
    ensures connected && !remote.linkUp ==> r == Failure(FromTokioError(BrokenLink))
  {
    if !connected then Failure(DeviceNotConnectedError)
    else
      match WriteReply(remote, addr, words)
      case Failure(err) => Failure(FromTokioError(err))
      case Success(Failure(exc)) => Failure(FromException(exc))
      case Success(Success(after)) => Success(after)
  }

  /** The requests a raw write sends: one when connected, none otherwise. */
  function WriteRequests(connected: bool, addr: nat, words: seq<u16>): seq<Request>
  {
    if connected then [WriteRequest(addr, words)] else []
  }

  /** What a write did: the requests it sent, its outcome, and the remote device afterwards. */
  datatype WriteRun = WriteRun(requests: seq<Request>, result: Result<(), ModbusError>, remote: Remote)

  /** A raw write as a run: the device changes only when the write succeeds. */
  function RawWriteRun(connected: bool, remote: Remote, addr: nat, words: seq<u16>): WriteRun
  {
    match RawWrite(connected, remote, addr, words)
    case Failure(err) => WriteRun(WriteRequests(connected, addr, words), Failure(err), remote)
    case Success(after) => WriteRun(WriteRequests(connected, addr, words), Success(()), after)
  }

  /**
   * `write_holding_register`: the value's encoding, written at the
   * register's address in one request. Neither the value's variant nor its
   * width is checked against the register's tag and length.
   */
  function WriteHolding(connected: bool, remote: Remote, reg: Register, val: RegisterValue): WriteRun
  {
    RawWriteRun(connected, remote, reg.addr, Encode(val).value)
  }

  /** `write_holding_register_by_name`: the holding catalog's descriptor of that name, or `RegisterDoesNotExistError` without any request. */
  function WriteByName(connected: bool, remote: Remote, holding: Catalog, name: string, val: RegisterValue): WriteRun
  {
    if name in holding then WriteHolding(connected, remote, holding[name], val)
    else WriteRun([], Failure(RegisterDoesNotExistError(name)), remote)
  }

  /**
   * A write sends exactly one request, the value's encoding of `Width/2`
   * words at the register's address, when connected and none otherwise; a
   * failed write leaves the device as it was.
   */
  lemma WriteHoldingShape(connected: bool, remote: Remote, reg: Register, val: RegisterValue)
    ensures var w := WriteHolding(connected, remote, reg, val);
      && w.requests == (if connected then [WriteRequest(reg.addr, Encode(val).value)] else [])
      && |Encode(val).value| == Width(Tag(val)) / 2
      && (w.result.Failure? ==> w.remote == remote)
      && (!connected ==> w.result == Failure(DeviceNotConnectedError))
  {
  }

  /**
   * Writing a value of the register's own tag and width, then reading the
   * register's own words, gives the value back for every tag but Boolean;
   * the rest of the device is untouched.
   */
  lemma WriteThenReadBack(connected: bool, remote: Remote, reg: Register, val: RegisterValue)
    requires Readable(reg) && !val.Boolean? && Tag(val) == reg.dataType && 2 * reg.len == Width(Tag(val))
    requires WriteHolding(connected, remote, reg, val).result.Success?
    ensures var after := WriteHolding(connected, remote, reg, val).remote;
      && Mapped(after.holding, reg.addr, reg.len)
      && OwnValue(after.holding, reg) == Success(val)
      && after.input == remote.input && after.holding.Keys == remote.holding.Keys
      && (forall a :: a in remote.holding && !(reg.addr <= a < End(reg)) ==> after.holding[a] == remote.holding[a])
  {
    var words := Encode(val).value;
    WriteThenRead(remote, reg.addr, words);
    var after := WriteReply(remote, reg.addr, words).value.value;
    assert ReadReply(after, Holding, reg.addr, |words|) == Success(Success(words));
    assert Words(after.holding, reg.addr, reg.len) == words;
    RoundTrip(val);
  }

  /** Because Boolean decodes true from 0xFFFF and encodes true as 1, writing `true` reads back as `false`. */
  lemma BooleanWriteReadsFalse(connected: bool, remote: Remote, reg: Register)
    requires Readable(reg) && reg.dataType == DataType.Boolean && reg.len == 1
    requires WriteHolding(connected, remote, reg, RegisterValue.Boolean(true)).result.Success?
    ensures var after := WriteHolding(connected, remote, reg, RegisterValue.Boolean(true)).remote;
      && Mapped(after.holding, reg.addr, reg.len)
      && OwnValue(after.holding, reg) == Success(RegisterValue.Boolean(false))
  {
    var words := Encode(RegisterValue.Boolean(true)).value;
    BooleanEncoding(true);
    WriteThenRead(remote, reg.addr, words);
    var after := WriteReply(remote, reg.addr, words).value.value;
    assert ReadReply(after, Holding, reg.addr, |words|) == Success(Success(words));
    assert Words(after.holding, reg.addr, reg.len) == [1];
    DecodeBoolean([1]);
  }

  /**
   * Writing by name looks only in the holding catalog: an unknown name fails
   * with `RegisterDoesNotExistError` naming it, sends nothing and changes
   * nothing; a known name writes through its descriptor.
   */
  lemma WriteByNameOutcome(connected: bool, remote: Remote, holding: Catalog, name: string, val: RegisterValue)
    ensures name !in holding ==>
      WriteByName(connected, remote, holding, name, val) == WriteRun([], Failure(RegisterDoesNotExistError(name)), remote)
    ensures name in holding ==>
      WriteByName(connected, remote, holding, name, val).requests == WriteRequests(connected, holding[name].addr, Encode(val).value)
  {
  }
}
