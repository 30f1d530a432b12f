/**
 * The transport the devices talk through, abstracted: the device at the
 * other end of the link is a word memory per address space, and a request
 * is answered the way the Modbus client library answers it, with an outer
 * transport error or an inner server exception. Quantity limits follow the
 * MODBUS Application Protocol Specification V1.1b3 (sections 6.3, 6.4 and
 * 6.12): a read asks for 1 to 125 words, a multi-register write carries 1 to
 * 123 words.
 */
module Transport {
  import opened Wrappers
  import opened Register
  import opened Errors
  import opened Types

  /** A request the device puts on the link, recorded in the order it is sent. */
  datatype Request =
    | ReadRequest(space: ModBusRegisters, addr: nat, count: nat)
    | WriteRequest(addr: nat, words: seq<u16>)

  /** The device at the other end of the link: its input and holding words, and whether the link carries frames. */
  datatype Remote = Remote(input: map<nat, u16>, holding: map<nat, u16>, linkUp: bool)

  const MaxReadQuantity: nat := 125
  const MaxWriteQuantity: nat := 123

  /** The transport error a dead link produces. */
  const BrokenLink: TokioError := Transport(IoError(BrokenPipe))

  function Memory(remote: Remote, space: ModBusRegisters): map<nat, u16>
  {
    match space
    case Input => remote.input
    case Holding => remote.holding
  }

  /** Every address of `addr .. addr+count-1` holds a word. */
  predicate Mapped(mem: map<nat, u16>, addr: nat, count: nat)
  {
    forall a :: addr <= a < addr + count ==> a in mem
  }

  /** The `count` words stored from `addr` on. */
  function Words(mem: map<nat, u16>, addr: nat, count: nat): (ws: seq<u16>)
    requires Mapped(mem, addr, count)
    ensures |ws| == count
  {
    seq(count, k requires 0 <= k < count => mem[addr + k])
  }

  /** The reply to a read of `count` words from `addr`. */
  function ReadReply(remote: Remote, space: ModBusRegisters, addr: nat, count: nat): (r: Result<Result<seq<u16>, Exception>, TokioError>)
    ensures r.Success? <==> remote.linkUp
    ensures r.Success? && r.value.Success? <==>
      remote.linkUp && 1 <= count <= MaxReadQuantity && Mapped(Memory(remote, space), addr, count)
    ensures r.Success? && r.value.Success? ==> |r.value.value| == count
  {
    if !remote.linkUp then Failure(BrokenLink)
    else if count < 1 || count > MaxReadQuantity then Success(Failure(IllegalDataValue))
    else if !Mapped(Memory(remote, space), addr, count) then Success(Failure(IllegalDataAddress))
    else Success(Success(Words(Memory(remote, space), addr, count)))
  }

  /** The holding memory after `words` are stored from `addr` on. */
  function Store(mem: map<nat, u16>, addr: nat, words: seq<u16>): map<nat, u16>
    requires Mapped(mem, addr, |words|)
  {
    map a | a in mem :: if addr <= a < addr + |words| then words[a - addr] else mem[a]
  }

  /** The reply to a write of `words` at `addr`, carrying the remote's new state. */
  function WriteReply(remote: Remote, addr: nat, words: seq<u16>): (r: Result<Result<Remote, Exception>, TokioError>)
    ensures r.Success? <==> remote.linkUp
    ensures r.Success? && r.value.Success? <==>
      remote.linkUp && 1 <= |words| <= MaxWriteQuantity && Mapped(remote.holding, addr, |words|)
  {
    if !remote.linkUp then Failure(BrokenLink)
    else if |words| < 1 || |words| > MaxWriteQuantity then Success(Failure(IllegalDataValue))
    else if !Mapped(remote.holding, addr, |words|) then Success(Failure(IllegalDataAddress))
    else Success(Success(remote.(holding := Store(remote.holding, addr, words))))
  }

  /**
   * A successful write changes only the holding words it names: reading
   * them back gives the written words, every other word keeps its value,
   * and the input space is untouched.
   */
  lemma WriteThenRead(remote: Remote, addr: nat, words: seq<u16>)
    requires WriteReply(remote, addr, words).Success? && WriteReply(remote, addr, words).value.Success?
    ensures var after := WriteReply(remote, addr, words).value.value;
      && ReadReply(after, Holding, addr, |words|) == Success(Success(words))
      && after.input == remote.input && after.linkUp
      && after.holding.Keys == remote.holding.Keys
      && (forall a :: a in remote.holding && !(addr <= a < addr + |words|) ==> after.holding[a] == remote.holding[a])
  {
    var after := WriteReply(remote, addr, words).value.value;
    assert Mapped(after.holding, addr, |words|);
    assert Words(after.holding, addr, |words|) == words;
  }
}
