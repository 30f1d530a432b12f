/**
 * What a batch read does, as functions of the connection state and the
 * remote device: the raw read with its connection guard, `read_range`
 * slicing and decoding one window, and the run over all windows that stops
 * at the first failed read. Both device classes are proved against these.
 */
module Batch {
  import opened Wrappers
  import opened Register
  import opened Errors
  import opened Types
  import opened Transport
  import opened Planner

  /** The requests a call sent, in order, and what it returned. */
  datatype Run<T> = Run(requests: seq<Request>, result: Result<T, ModbusError>)

  /** The map a batch read returns: register name to decoded value. */
  type Values = map<string, RegisterValue>

  predicate AllReadable(regs: seq<Register>)
  {
    forall r | r in regs :: Readable(r)
  }

  lemma SliceReadable(s: seq<Register>, lo: nat, hi: nat)
    requires AllReadable(s) && lo <= hi <= |s|
    ensures AllReadable(s[lo..hi])
  {
    forall r | r in s[lo..hi] ensures Readable(r) {
      var i :| lo <= i < hi && s[i] == r;
    }
  }

  // ---------------------------------------------------------------------
  // Collecting decoded entries into a map

  /** What `read_range` produces for one register before collecting: its name and the outcome of decoding it. */
  datatype Entry = Entry(name: string, outcome: Result<RegisterValue, seq<u8>>)

  /**
   * Collecting into a map: an entry that failed to decode is dropped, and a
   * later entry replaces an earlier one of the same name.
   */
  function Collect(es: seq<Entry>): Values
  {
    if es == [] then map[]
    else
      var m := Collect(es[..|es| - 1]);
      var e := es[|es| - 1];
      if e.outcome.Success? then m[e.name := e.outcome.value] else m
  }

  /** Collecting two runs of entries one after the other is merging their maps, the second winning. */
  lemma {:induction false} CollectAppend(a: seq<Entry>, b: seq<Entry>)
    ensures Collect(a + b) == Collect(a) + Collect(b)
    decreases |b|
  {
    if b == [] {
      assert a + b == a;
    } else {
      var ab := a + b;
      assert ab[..|ab| - 1] == a + b[..|b| - 1];
      CollectAppend(a, b[..|b| - 1]);
    }
  }

  /** A name is collected exactly when some entry of that name decoded. */
  lemma {:induction false} CollectKeys(es: seq<Entry>, name: string)
    ensures name in Collect(es) <==> exists j :: 0 <= j < |es| && es[j].name == name && es[j].outcome.Success?
  {
    if es != [] {
      var pre := es[..|es| - 1];
      CollectKeys(pre, name);
      if exists j :: 0 <= j < |pre| && pre[j].name == name && pre[j].outcome.Success? {
        var j :| 0 <= j < |pre| && pre[j].name == name && pre[j].outcome.Success?;
        assert es[j] == pre[j];
      }
      if exists j :: 0 <= j < |es| && es[j].name == name && es[j].outcome.Success? {
        var j :| 0 <= j < |es| && es[j].name == name && es[j].outcome.Success?;
        if j < |pre| {
          assert pre[j] == es[j];
        }
      }
    }
  }

  /** A collected value is the decoded value of some entry of that name. */
  lemma {:induction false} CollectValue(es: seq<Entry>, name: string)
    requires name in Collect(es)
    ensures exists j :: 0 <= j < |es| && es[j].name == name && es[j].outcome == Success(Collect(es)[name])
  {
    var pre := es[..|es| - 1];
    var e := es[|es| - 1];
    if e.outcome.Success? && e.name == name {
      assert es[|es| - 1].name == name;
    } else {
      CollectValue(pre, name);
      var j :| 0 <= j < |pre| && pre[j].name == name && pre[j].outcome == Success(Collect(pre)[name]);
      assert es[j] == pre[j];
    }
  }

  /** The entry at `j` decoded and no later entry of its name did. */
  predicate LastHit(es: seq<Entry>, j: nat)
  {
    && j < |es|
    && es[j].outcome.Success?
    && (forall k :: j < k < |es| && es[k].name == es[j].name ==> es[k].outcome.Failure?)
  }

  /** Later wins: the collected value of a name is that of the last entry of that name that decoded. */
  lemma {:induction false} CollectLast(es: seq<Entry>, j: nat)
    requires LastHit(es, j)
    ensures es[j].name in Collect(es) && Collect(es)[es[j].name] == es[j].outcome.value
  {
    var pre := es[..|es| - 1];
    if j < |pre| {
      assert LastHit(pre, j);
      CollectLast(pre, j);
      assert es[|es| - 1].name == es[j].name ==> es[|es| - 1].outcome.Failure?;
    }
  }

  // ---------------------------------------------------------------------
  // The raw read

  /**
   * `read_raw_registers`: without a connection it fails before any request
   * is sent; otherwise the transport's outer error converts through
   * `From<tokio_modbus::Error>` and the server's exception through
   * `From<Exception>`.
   */
  function RawRead(connected: bool, remote: Remote, space: ModBusRegisters, addr: nat, count: nat): (r: Result<seq<u16>, ModbusError>)
    ensures !connected ==> r == Failure(DeviceNotConnectedError)
    ensures r.Success? <==> connected && remote.linkUp && 1 <= count <= MaxReadQuantity && Mapped(Memory(remote, space), addr, count)
    ensures r.Success? ==> r.value == Words(Memory(remote, space), addr, count)
    ensures connected && !remote.linkUp ==> r == Failure(FromTokioError(BrokenLink))
  {
    if !connected then Failure(DeviceNotConnectedError)
    else
      match ReadReply(remote, space, addr, count)
      case Failure(err) => Failure(FromTokioError(err))
      case Success(Failure(exc)) => Failure(FromException(exc))
      case Success(Success(words)) => Success(words)
  }

  /** The requests a raw read sends: one when connected, none otherwise. */
  function RawRequests(connected: bool, space: ModBusRegisters, addr: nat, count: nat): seq<Request>
  {
    if connected then [ReadRequest(space, addr, count)] else []
  }

  // ---------------------------------------------------------------------
  // One window: `read_range`

  /** The words of register `r` cut out of a buffer read from `start` on, decoded with its tag. */
  function DecodeAt(buf: seq<u16>, start: nat, r: Register): Result<RegisterValue, seq<u8>>
    requires Readable(r) && start <= r.addr && End(r) <= start + |buf|
  {
    Decode(buf[r.addr - start..End(r) - start], r.dataType)
  }

  /** Each register of a window paired with the outcome of decoding its slice of the buffer. */
  function Decoded(buf: seq<u16>, start: nat, regs: seq<Register>): (es: seq<Entry>)
    requires forall j :: 0 <= j < |regs| ==> Readable(regs[j]) && start <= regs[j].addr && End(regs[j]) <= start + |buf|
    ensures |es| == |regs|
  {
    seq(|regs|, j requires 0 <= j < |regs| => Entry(regs[j].name, DecodeAt(buf, start, regs[j])))
  }

  /** The first address and the word count `read_range` asks for. */
  function RangeStart(regs: seq<Register>): nat
    requires Spanned(regs)
  {
    regs[0].addr
  }

  function RangeCount(regs: seq<Register>): nat
    requires Spanned(regs)
  {
    End(regs[|regs| - 1]) - regs[0].addr
  }

  /** `read_range`: one raw read over the registers' extent, then each register decoded from its own slice. */
  function RangeRead(connected: bool, remote: Remote, space: ModBusRegisters, regs: seq<Register>): Run<Values>
    requires Spanned(regs) && AllReadable(regs)
  {
    var start := RangeStart(regs);
    var count := RangeCount(regs);
    var reqs := RawRequests(connected, space, start, count);
    match RawRead(connected, remote, space, start, count)
    case Failure(err) => Run(reqs, Failure(err))
    case Success(buf) => Run(reqs, Success(WindowValues(buf, regs)))
  }

  /** The map a window's buffer yields: each register decoded from its slice, failures dropped, a later name winning. */
  function WindowValues(buf: seq<u16>, regs: seq<Register>): Values
    requires Spanned(regs) && AllReadable(regs) && |buf| == RangeCount(regs)
  {
    assert forall j :: 0 <= j < |regs| ==> regs[j] in regs;
    Collect(Decoded(buf, RangeStart(regs), regs))
  }

  // ---------------------------------------------------------------------
  // A register's own words

  /** Every register of the list has all its words on the device. */
  predicate Covered(mem: map<nat, u16>, regs: seq<Register>)
  {
    forall r | r in regs :: Mapped(mem, r.addr, r.len)
  }

  /** Decoding the words stored at the register's own addresses. */
  function OwnValue(mem: map<nat, u16>, r: Register): Result<RegisterValue, seq<u8>>
    requires Readable(r) && Mapped(mem, r.addr, r.len)
  {
    Decode(Words(mem, r.addr, r.len), r.dataType)
  }

  function OwnEntries(mem: map<nat, u16>, regs: seq<Register>): (es: seq<Entry>)
    requires AllReadable(regs) && Covered(mem, regs)
    ensures |es| == |regs|
  {
    seq(|regs|, j requires 0 <= j < |regs| => assert regs[j] in regs; Entry(regs[j].name, OwnValue(mem, regs[j])))
  }

  lemma OwnEntriesAppend(mem: map<nat, u16>, a: seq<Register>, b: seq<Register>)
    requires AllReadable(a) && Covered(mem, a) && AllReadable(b) && Covered(mem, b)
    ensures AllReadable(a + b) && Covered(mem, a + b)
    ensures OwnEntries(mem, a + b) == OwnEntries(mem, a) + OwnEntries(mem, b)
  {
    assert forall r | r in a + b :: r in a || r in b;
  }

  /** Cutting a register's extent out of a read buffer gives the words stored at the register's own addresses. */
  lemma WordsSlice(mem: map<nat, u16>, start: nat, count: nat, r: Register)
    requires Mapped(mem, start, count) && start <= r.addr && End(r) <= start + count
    ensures Mapped(mem, r.addr, r.len)
    ensures Words(mem, start, count)[r.addr - start..End(r) - start] == Words(mem, r.addr, r.len)
  {
  }

  /**
   * The buffer a successful window read returns, cut at a register's
   * offset, is that register's own words: a window decodes each register
   * exactly as reading it alone would.
   */
  lemma WindowDecodesOwn(mem: map<nat, u16>, regs: seq<Register>)
    requires Spanned(regs) && AllReadable(regs)
    requires Mapped(mem, RangeStart(regs), RangeCount(regs))
    ensures Covered(mem, regs)
    ensures Decoded(Words(mem, RangeStart(regs), RangeCount(regs)), RangeStart(regs), regs) == OwnEntries(mem, regs)
  {
    WindowCovered(mem, regs);
    forall j | 0 <= j < |regs|
      ensures Decoded(Words(mem, RangeStart(regs), RangeCount(regs)), RangeStart(regs), regs)[j] == OwnEntries(mem, regs)[j]
    {
      WindowEntryAt(mem, regs, j);
    }
  }

  /** Every register of a window whose extent is on the device has its own words there. */
  lemma WindowCovered(mem: map<nat, u16>, regs: seq<Register>)
    requires Spanned(regs)
    requires Mapped(mem, RangeStart(regs), RangeCount(regs))
    ensures Covered(mem, regs)
  {
    forall r | r in regs ensures Mapped(mem, r.addr, r.len) {
      var j :| 0 <= j < |regs| && regs[j] == r;
      WordsSlice(mem, RangeStart(regs), RangeCount(regs), r);
    }
  }

  /** The `j`-th register of a window decodes from the buffer as from its own words. */
  lemma WindowEntryAt(mem: map<nat, u16>, regs: seq<Register>, j: nat)
    requires Spanned(regs) && AllReadable(regs) && j < |regs|
    requires Mapped(mem, RangeStart(regs), RangeCount(regs))
    ensures Mapped(mem, regs[j].addr, regs[j].len)
    ensures DecodeAt(Words(mem, RangeStart(regs), RangeCount(regs)), RangeStart(regs), regs[j]) == OwnValue(mem, regs[j])
  {
    assert regs[j] in regs;
    WordsSlice(mem, RangeStart(regs), RangeCount(regs), regs[j]);
  }

  // ---------------------------------------------------------------------
  // Running reads one after the other

  /**
   * Reads run one after the other: the maps they yield are merged with
   * later entries winning, and the first failed read ends the batch with
   * its error, the reads after it never being made.
   */
  function RunAll(runs: seq<Run<Values>>): Run<Values>
  {
    if runs == [] then Run([], Success(map[]))
    else
      var prev := RunAll(runs[..|runs| - 1]);
      var o := runs[|runs| - 1];
      if prev.result.Failure? then prev
      else
        match o.result
        case Failure(err) => Run(prev.requests + o.requests, Failure(err))
        case Success(m) => Run(prev.requests + o.requests, Success(prev.result.value + m))
  }

  /** The requests of the runs, one run after the other. */
  function Requests(runs: seq<Run<Values>>): seq<Request>
  {
    if runs == [] then [] else Requests(runs[..|runs| - 1]) + runs[|runs| - 1].requests
  }

  /** The maps of successful runs merged in order, a later map winning. */
  function Merged(runs: seq<Run<Values>>): Values
    requires forall k :: 0 <= k < |runs| ==> runs[k].result.Success?
  {
    if runs == [] then map[] else Merged(runs[..|runs| - 1]) + runs[|runs| - 1].result.value
  }

  /** The runs succeed together or the batch fails; a successful batch made every request and merged every map. */
  lemma {:induction false} RunAllSuccess(runs: seq<Run<Values>>)
    ensures RunAll(runs).result.Success? <==> forall k :: 0 <= k < |runs| ==> runs[k].result.Success?
    ensures RunAll(runs).result.Success? ==>
      (forall k :: 0 <= k < |runs| ==> runs[k].result.Success?) && RunAll(runs) == Run(Requests(runs), Success(Merged(runs)))
  {
    if runs != [] {
      var pre := runs[..|runs| - 1];
      RunAllSuccess(pre);
      assert forall k :: 0 <= k < |pre| ==> pre[k] == runs[k];
    }
  }

  /** A failed batch made the requests up to and including those of its first failed run, and returns that run's error. */
  lemma {:induction false} RunAllFailure(runs: seq<Run<Values>>) returns (f: nat)
    requires RunAll(runs).result.Failure?
    ensures f < |runs| && runs[f].result.Failure?
    ensures forall k :: 0 <= k < f ==> runs[k].result.Success?
    ensures RunAll(runs) == Run(Requests(runs[..f + 1]), runs[f].result)
  {
    var pre := runs[..|runs| - 1];
    assert forall k :: 0 <= k < |pre| ==> pre[k] == runs[k];
    if RunAll(pre).result.Failure? {
      f := RunAllFailure(pre);
      assert pre[..f + 1] == runs[..f + 1];
    } else {
      f := |runs| - 1;
      RunAllSuccess(pre);
      assert runs[..f + 1] == runs;
    }
  }

  // ---------------------------------------------------------------------
  // All windows

  predicate Planned(s: seq<Register>, ws: seq<Window>)
  {
    forall k :: 0 <= k < |ws| ==> InExtent(s, ws[k])
  }

  /** The raw read a window makes, and the request it puts on the link. */
  function WindowRead(connected: bool, remote: Remote, space: ModBusRegisters, s: seq<Register>, w: Window): Result<seq<u16>, ModbusError>
    requires InExtent(s, w)
  {
    var regs := s[w.lo..w.hi];
    assert regs[0] == s[w.lo] && regs[|regs| - 1] == s[w.hi - 1];
    RawRead(connected, remote, space, s[w.lo].addr, End(s[w.hi - 1]) - s[w.lo].addr)
  }

  function ReadOf(space: ModBusRegisters, s: seq<Register>, w: Window): Request
    requires InExtent(s, w)
  {
    var regs := s[w.lo..w.hi];
    assert regs[0] == s[w.lo] && regs[|regs| - 1] == s[w.hi - 1];
    ReadRequest(space, s[w.lo].addr, End(s[w.hi - 1]) - s[w.lo].addr)
  }

  /** The requests a plan makes when every read succeeds: one per window, in plan order. */
  function PlanRequests(space: ModBusRegisters, s: seq<Register>, ws: seq<Window>): (rs: seq<Request>)
    requires Planned(s, ws)
    ensures |rs| == |ws|
    ensures forall k :: 0 <= k < |ws| ==> rs[k] == ReadOf(space, s, ws[k])
  {
    if ws == [] then [] else PlanRequests(space, s, ws[..|ws| - 1]) + [ReadOf(space, s, ws[|ws| - 1])]
  }

  function WindowRun(connected: bool, remote: Remote, space: ModBusRegisters, s: seq<Register>, w: Window): Run<Values>
    requires AllReadable(s) && InExtent(s, w)
  {
    SliceReadable(s, w.lo, w.hi);
    RangeRead(connected, remote, space, s[w.lo..w.hi])
  }

  function WindowRuns(connected: bool, remote: Remote, space: ModBusRegisters, s: seq<Register>, ws: seq<Window>): (runs: seq<Run<Values>>)
    requires AllReadable(s) && Planned(s, ws)
    ensures |runs| == |ws|
  {
    seq(|ws|, k requires 0 <= k < |ws| => WindowRun(connected, remote, space, s, ws[k]))
  }

  /** A batch over a plan: the windows' `read_range` calls, in plan order. */
  function RunWindows(connected: bool, remote: Remote, space: ModBusRegisters, s: seq<Register>, ws: seq<Window>): Run<Values>
    requires AllReadable(s) && Planned(s, ws)
  {
    RunAll(WindowRuns(connected, remote, space, s, ws))
  }

  /**
   * One window's run: its single request when connected, success exactly
   * when its raw read succeeds, that read's error on failure, and on
   * success the collected own-word decodes of its registers.
   */
  lemma WindowRunShape(connected: bool, remote: Remote, space: ModBusRegisters, s: seq<Register>, w: Window)
    requires AllReadable(s) && InExtent(s, w)
    ensures WindowRun(connected, remote, space, s, w).requests == (if connected then [ReadOf(space, s, w)] else [])
    ensures WindowRun(connected, remote, space, s, w).result.Success? <==> WindowRead(connected, remote, space, s, w).Success?
    ensures WindowRead(connected, remote, space, s, w).Failure? ==>
      WindowRun(connected, remote, space, s, w).result == Failure(WindowRead(connected, remote, space, s, w).error)
  {
    var regs := s[w.lo..w.hi];
    assert regs[0] == s[w.lo] && regs[|regs| - 1] == s[w.hi - 1];
  }

  lemma WindowRunValues(connected: bool, remote: Remote, space: ModBusRegisters, s: seq<Register>, w: Window)
    requires AllReadable(s) && InExtent(s, w)
    requires WindowRun(connected, remote, space, s, w).result.Success?
    ensures AllReadable(s[w.lo..w.hi]) && Covered(Memory(remote, space), s[w.lo..w.hi])
    ensures WindowRun(connected, remote, space, s, w).result.value == Collect(OwnEntries(Memory(remote, space), s[w.lo..w.hi]))
  {
    SliceReadable(s, w.lo, w.hi);
    WindowDecodesOwn(Memory(remote, space), s[w.lo..w.hi]);
  }

  lemma WindowRunsPrefix(connected: bool, remote: Remote, space: ModBusRegisters, s: seq<Register>, ws: seq<Window>, c: nat)
    requires AllReadable(s) && Planned(s, ws) && c <= |ws|
    ensures Planned(s, ws[..c])
    ensures WindowRuns(connected, remote, space, s, ws)[..c] == WindowRuns(connected, remote, space, s, ws[..c])
  {
    assert forall k :: 0 <= k < c ==> ws[..c][k] == ws[k];
  }

  lemma PlannedPrefix(s: seq<Register>, ws: seq<Window>, c: nat)
    requires Planned(s, ws) && c <= |ws|
    ensures Planned(s, ws[..c])
  {
    assert forall k :: 0 <= k < c ==> ws[..c][k] == ws[k];
  }

  /** The batch over one more window: the earlier windows' batch, then this window's read unless that batch failed. */
  lemma RunWindowsStep(connected: bool, remote: Remote, space: ModBusRegisters, s: seq<Register>, ws: seq<Window>, c: nat)
    requires AllReadable(s) && Planned(s, ws) && c < |ws|
    ensures Planned(s, ws[..c]) && Planned(s, ws[..c + 1])
    ensures var prev := RunWindows(connected, remote, space, s, ws[..c]);
      var o := WindowRun(connected, remote, space, s, ws[c]);
      RunWindows(connected, remote, space, s, ws[..c + 1])
      == if prev.result.Failure? then prev
         else match o.result
           case Failure(err) => Run(prev.requests + o.requests, Failure(err))
           case Success(m) => Run(prev.requests + o.requests, Success(prev.result.value + m))
  {
    var wc := ws[..c + 1];
    WindowRunsPrefix(connected, remote, space, s, ws, c + 1);
    WindowRunsPrefix(connected, remote, space, s, wc, c);
    assert wc[..c] == ws[..c] && wc[c] == ws[c];
  }

  /** The batch over the windows read so far and one more: that window's read runs unless the batch already failed. */
  lemma RunWindowsSnoc(connected: bool, remote: Remote, space: ModBusRegisters, s: seq<Register>, closed: seq<Window>, w: Window)
    requires AllReadable(s) && Planned(s, closed + [w])
    ensures Planned(s, closed) && InExtent(s, w)
    ensures var prev := RunWindows(connected, remote, space, s, closed);
      var o := WindowRun(connected, remote, space, s, w);
      RunWindows(connected, remote, space, s, closed + [w])
      == if prev.result.Failure? then prev
         else match o.result
           case Failure(err) => Run(prev.requests + o.requests, Failure(err))
           case Success(m) => Run(prev.requests + o.requests, Success(prev.result.value + m))
  {
    var ws := closed + [w];
    var c := |closed|;
    assert ws[..c] == closed && ws[..c + 1] == ws && ws[c] == w;
    RunWindowsStep(connected, remote, space, s, ws, c);
  }

  /** Once the runs so far have failed, the runs after them change nothing. */
  lemma {:induction false} RunAllStops(runs: seq<Run<Values>>, c: nat)
    requires c <= |runs| && RunAll(runs[..c]).result.Failure?
    ensures RunAll(runs) == RunAll(runs[..c])
    decreases |runs|
  {
    if c < |runs| {
      var pre := runs[..|runs| - 1];
      assert pre[..c] == runs[..c];
      RunAllStops(pre, c);
    } else {
      assert runs[..c] == runs;
    }
  }

  /** A plan whose first `c` windows already fail runs as those `c` windows do. */
  lemma RunWindowsStops(connected: bool, remote: Remote, space: ModBusRegisters, s: seq<Register>, ws: seq<Window>, c: nat)
    requires AllReadable(s) && Planned(s, ws) && c <= |ws| && Planned(s, ws[..c])
    requires RunWindows(connected, remote, space, s, ws[..c]).result.Failure?
    ensures RunWindows(connected, remote, space, s, ws) == RunWindows(connected, remote, space, s, ws[..c])
  {
    WindowRunsPrefix(connected, remote, space, s, ws, c);
    RunAllStops(WindowRuns(connected, remote, space, s, ws), c);
  }

  /** The requests of a plan's runs: one read per window when connected, nothing otherwise. */
  lemma {:induction false} RequestsOfWindows(connected: bool, remote: Remote, space: ModBusRegisters, s: seq<Register>, ws: seq<Window>)
    requires AllReadable(s) && Planned(s, ws)
    ensures Requests(WindowRuns(connected, remote, space, s, ws)) == if connected then PlanRequests(space, s, ws) else []
  {
    if ws != [] {
      var pre := ws[..|ws| - 1];
      WindowRunsPrefix(connected, remote, space, s, ws, |ws| - 1);
      RequestsOfWindows(connected, remote, space, s, pre);
      WindowRunShape(connected, remote, space, s, ws[|ws| - 1]);
    }
  }

  /** A batch succeeds exactly when every window's read succeeds, and then it has sent one request per window, in plan order. */
  lemma RunWindowsSuccess(connected: bool, remote: Remote, space: ModBusRegisters, s: seq<Register>, ws: seq<Window>)
    requires AllReadable(s) && Planned(s, ws)
    ensures RunWindows(connected, remote, space, s, ws).result.Success? <==>
      forall k :: 0 <= k < |ws| ==> WindowRead(connected, remote, space, s, ws[k]).Success?
    ensures RunWindows(connected, remote, space, s, ws).result.Success? ==>
      RunWindows(connected, remote, space, s, ws).requests == (if connected then PlanRequests(space, s, ws) else [])
  {
    var runs := WindowRuns(connected, remote, space, s, ws);
    RunAllSuccess(runs);
    forall k | 0 <= k < |ws|
      ensures runs[k].result.Success? <==> WindowRead(connected, remote, space, s, ws[k]).Success?
    {
      WindowRunShape(connected, remote, space, s, ws[k]);
    }
    RequestsOfWindows(connected, remote, space, s, ws);
  }

  /**
   * A failed batch stopped at the first window whose read fails: it has
   * sent the requests up to and including that window's, and returns that
   * read's error.
   */
  lemma RunWindowsFailure(connected: bool, remote: Remote, space: ModBusRegisters, s: seq<Register>, ws: seq<Window>) returns (f: nat)
    requires AllReadable(s) && Planned(s, ws)
    requires RunWindows(connected, remote, space, s, ws).result.Failure?
    ensures f < |ws| && Planned(s, ws[..f + 1])
    ensures forall k :: 0 <= k < f ==> WindowRead(connected, remote, space, s, ws[k]).Success?
    ensures WindowRead(connected, remote, space, s, ws[f]).Failure?
    ensures RunWindows(connected, remote, space, s, ws).result == Failure(WindowRead(connected, remote, space, s, ws[f]).error)
    ensures RunWindows(connected, remote, space, s, ws).requests == (if connected then PlanRequests(space, s, ws[..f + 1]) else [])
  {
    var runs := WindowRuns(connected, remote, space, s, ws);
    f := RunAllFailure(runs);
    forall k | 0 <= k <= f
      ensures runs[k].result.Success? <==> WindowRead(connected, remote, space, s, ws[k]).Success?
    {
      WindowRunShape(connected, remote, space, s, ws[k]);
    }
    WindowRunShape(connected, remote, space, s, ws[f]);
    WindowRunsPrefix(connected, remote, space, s, ws, f + 1);
    RequestsOfWindows(connected, remote, space, s, ws[..f + 1]);
  }

  /** Without a connection a batch sends nothing, and it fails with `DeviceNotConnectedError` unless it has no window. */
  lemma RunWindowsDisconnected(remote: Remote, space: ModBusRegisters, s: seq<Register>, ws: seq<Window>)
    requires AllReadable(s) && Planned(s, ws)
    ensures RunWindows(false, remote, space, s, ws).requests == []
    ensures RunWindows(false, remote, space, s, ws).result == if ws == [] then Success(map[]) else Failure(DeviceNotConnectedError)
  {
    if ws != [] {
      RunWindowsSuccess(false, remote, space, s, ws);
      var f := RunWindowsFailure(false, remote, space, s, ws);
    }
  }

  /** The merged maps of windows that tile the first `n` positions collect the own-word decodes of those registers. */
  lemma {:induction false} MergedWindows(connected: bool, remote: Remote, space: ModBusRegisters, s: seq<Register>, ws: seq<Window>, n: nat)
    requires AllReadable(s) && Planned(s, ws) && Tiles(ws, n)
    requires forall k :: 0 <= k < |ws| ==> WindowRuns(connected, remote, space, s, ws)[k].result.Success?
    ensures n <= |s| && AllReadable(s[..n]) && Covered(Memory(remote, space), s[..n])
    ensures Merged(WindowRuns(connected, remote, space, s, ws)) == Collect(OwnEntries(Memory(remote, space), s[..n]))
    decreases |ws|
  {
    if ws == [] {
      assert s[..n] == [];
    } else {
      var w := ws[|ws| - 1];
      TilesPrefix(ws, n);
      WindowRunsPrefix(connected, remote, space, s, ws, |ws| - 1);
      MergedWindows(connected, remote, space, s, ws[..|ws| - 1], w.lo);
      MergeStep(connected, remote, space, s, ws, n);
    }
  }

  /** The last window's map extends the merge of the earlier windows by the decodes of its own registers. */
  lemma MergeStep(connected: bool, remote: Remote, space: ModBusRegisters, s: seq<Register>, ws: seq<Window>, n: nat)
    requires AllReadable(s) && Planned(s, ws) && Tiles(ws, n) && ws != []
    requires forall k :: 0 <= k < |ws| ==> WindowRuns(connected, remote, space, s, ws)[k].result.Success?
    requires var lo := ws[|ws| - 1].lo;
      && lo <= |s| && AllReadable(s[..lo]) && Covered(Memory(remote, space), s[..lo])
      && Merged(WindowRuns(connected, remote, space, s, ws)[..|ws| - 1]) == Collect(OwnEntries(Memory(remote, space), s[..lo]))
    ensures n <= |s| && AllReadable(s[..n]) && Covered(Memory(remote, space), s[..n])
    ensures Merged(WindowRuns(connected, remote, space, s, ws)) == Collect(OwnEntries(Memory(remote, space), s[..n]))
  {
    var w := ws[|ws| - 1];
    var runs := WindowRuns(connected, remote, space, s, ws);
    assert runs[|ws| - 1] == WindowRun(connected, remote, space, s, w);
    WindowRunValues(connected, remote, space, s, w);
    CollectPrefixes(Memory(remote, space), s, w.lo, n);
  }

  /** Collecting the first `hi` registers is collecting the first `lo`, then the ones from `lo` to `hi`. */
  lemma CollectPrefixes(mem: map<nat, u16>, s: seq<Register>, lo: nat, hi: nat)
    requires lo <= hi <= |s|
    requires AllReadable(s[..lo]) && Covered(mem, s[..lo])
    requires AllReadable(s[lo..hi]) && Covered(mem, s[lo..hi])
    ensures AllReadable(s[..hi]) && Covered(mem, s[..hi])
    ensures Collect(OwnEntries(mem, s[..hi])) == Collect(OwnEntries(mem, s[..lo])) + Collect(OwnEntries(mem, s[lo..hi]))
  {
    assert s[..hi] == s[..lo] + s[lo..hi];
    OwnEntriesAppend(mem, s[..lo], s[lo..hi]);
    CollectAppend(OwnEntries(mem, s[..lo]), OwnEntries(mem, s[lo..hi]));
  }

  /**
   * A successful batch over windows that tile the first `n` positions
   * returns what collecting the own-word decodes of those `n` registers in
   * list order gives: every register of a window is on the device, and the
   * window buffer decodes it as its own words would.
   */
  lemma RunWindowsValues(connected: bool, remote: Remote, space: ModBusRegisters, s: seq<Register>, ws: seq<Window>, n: nat)
    requires AllReadable(s) && Planned(s, ws) && Tiles(ws, n)
    requires RunWindows(connected, remote, space, s, ws).result.Success?
    ensures n <= |s| && AllReadable(s[..n]) && Covered(Memory(remote, space), s[..n])
    ensures RunWindows(connected, remote, space, s, ws).result.value == Collect(OwnEntries(Memory(remote, space), s[..n]))
  {
    RunAllSuccess(WindowRuns(connected, remote, space, s, ws));
    MergedWindows(connected, remote, space, s, ws, n);
  }

  lemma PlanOfWindows(s: seq<Register>)
    ensures Planned(s, Windows(s))
  {
    forall k | 0 <= k < |Windows(s)| ensures InExtent(s, Windows(s)[k]) {
      WindowsInExtent(s, k);
    }
  }

  /** Appending requests to a log in two steps or in one gives the same log. */
  lemma AppendAssoc<T>(a: seq<T>, b: seq<T>, c: seq<T>)
    ensures (a + b) + c == a + (b + c)
  {
  }

  /**
   * Where a loop over a list `s` stands before position `i`: the windows of
   * `s[..i]` are the closed windows and the open one starting at `start`,
   * and the batch over the closed windows made the requests `reqs` and
   * collected `result`.
   */
  ghost predicate Progress(connected: bool, remote: Remote, space: ModBusRegisters, s: seq<Register>,
                           i: nat, start: nat, closed: seq<Window>, result: Values, reqs: seq<Request>)
  {
    && AllReadable(s) && 1 <= i <= |s| && start < i
    && Windows(s[..i]) == closed + [Window(start, i)]
    && Planned(s, closed)
    && RunWindows(connected, remote, space, s, closed) == Run(reqs, Success(result))
  }

  /** A loop starts after the first register, with nothing closed. */
  lemma ProgressStart(connected: bool, remote: Remote, space: ModBusRegisters, s: seq<Register>)
    requires AllReadable(s) && |s| >= 1
    ensures Progress(connected, remote, space, s, 1, 0, [], map[], [])
  {
    assert s[..1] == [s[0]];
    assert WindowRuns(connected, remote, space, s, []) == [];
  }

  /** A register that joins the open window widens it. */
  lemma ProgressJoins(connected: bool, remote: Remote, space: ModBusRegisters, s: seq<Register>,
                      i: nat, start: nat, closed: seq<Window>, result: Values, reqs: seq<Request>)
    requires Progress(connected, remote, space, s, i, start, closed, result, reqs)
    requires i < |s| && Joins(s, start, i)
    ensures Progress(connected, remote, space, s, i + 1, start, closed, result, reqs)
  {
    LoopStep(s, i, closed, start);
  }

  /** Closing the open window: it is the next window of the whole plan, and it lies in the list. */
  lemma ProgressCloses(connected: bool, remote: Remote, space: ModBusRegisters, s: seq<Register>,
                       i: nat, start: nat, closed: seq<Window>, result: Values, reqs: seq<Request>)
    requires Progress(connected, remote, space, s, i, start, closed, result, reqs)
    requires i < |s| ==> !Joins(s, start, i)
    ensures Planned(s, Windows(s)) && Planned(s, closed + [Window(start, i)])
    ensures |closed| < |Windows(s)| && Windows(s)[..|closed| + 1] == closed + [Window(start, i)]
    ensures InExtent(s, Window(start, i))
  {
    LoopCloses(s, i, closed, start);
    PlanOfWindows(s);
    PlannedPrefix(s, Windows(s), |closed| + 1);
    RunWindowsSnoc(connected, remote, space, s, closed, Window(start, i));
  }

  /** The read of a closed window fails: the whole plan's batch ends with that failure. */
  lemma ProgressFails(connected: bool, remote: Remote, space: ModBusRegisters, s: seq<Register>,
                      i: nat, start: nat, closed: seq<Window>, result: Values, reqs: seq<Request>)
    requires Progress(connected, remote, space, s, i, start, closed, result, reqs)
    requires i < |s| ==> !Joins(s, start, i)
    requires InExtent(s, Window(start, i))
    requires WindowRun(connected, remote, space, s, Window(start, i)).result.Failure?
    ensures Planned(s, Windows(s))
    ensures var o := WindowRun(connected, remote, space, s, Window(start, i));
      RunWindows(connected, remote, space, s, Windows(s)) == Run(reqs + o.requests, o.result)
  {
    ProgressCloses(connected, remote, space, s, i, start, closed, result, reqs);
    RunWindowsSnoc(connected, remote, space, s, closed, Window(start, i));
    RunWindowsStops(connected, remote, space, s, Windows(s), |closed| + 1);
  }

  /** The read of a closed window succeeds: the batch goes on with one more closed window. */
  lemma ProgressNext(connected: bool, remote: Remote, space: ModBusRegisters, s: seq<Register>,
                     i: nat, start: nat, closed: seq<Window>, result: Values, reqs: seq<Request>)
    requires Progress(connected, remote, space, s, i, start, closed, result, reqs)
    requires i < |s| && !Joins(s, start, i)
    requires InExtent(s, Window(start, i))
    requires WindowRun(connected, remote, space, s, Window(start, i)).result.Success?
    ensures var o := WindowRun(connected, remote, space, s, Window(start, i));
      Progress(connected, remote, space, s, i + 1, i, closed + [Window(start, i)], result + o.result.value, reqs + o.requests)
  {
    ProgressCloses(connected, remote, space, s, i, start, closed, result, reqs);
    RunWindowsSnoc(connected, remote, space, s, closed, Window(start, i));
    LoopStep(s, i, closed, start);
  }

  /** The last window's read succeeds: the whole plan's batch succeeds with everything collected. */
  lemma ProgressEnds(connected: bool, remote: Remote, space: ModBusRegisters, s: seq<Register>,
                     start: nat, closed: seq<Window>, result: Values, reqs: seq<Request>)
    requires Progress(connected, remote, space, s, |s|, start, closed, result, reqs)
    requires InExtent(s, Window(start, |s|))
    requires WindowRun(connected, remote, space, s, Window(start, |s|)).result.Success?
    ensures Planned(s, Windows(s))
    ensures var o := WindowRun(connected, remote, space, s, Window(start, |s|));
      RunWindows(connected, remote, space, s, Windows(s)) == Run(reqs + o.requests, Success(result + o.result.value))
  {
    assert s[..|s|] == s;
    PlanOfWindows(s);
    RunWindowsSnoc(connected, remote, space, s, closed, Window(start, |s|));
  }

  /**
   * One step of the loop at position `i`: a joining register widens the open
   * window; otherwise the open window is read, and a failed read ends the
   * whole plan's batch while a successful one closes the window.
   */
  lemma ProgressStep(connected: bool, remote: Remote, space: ModBusRegisters, s: seq<Register>,
                     i: nat, start: nat, closed: seq<Window>, result: Values, reqs: seq<Request>)
    requires Progress(connected, remote, space, s, i, start, closed, result, reqs) && i < |s|
    ensures Joins(s, start, i) ==> Progress(connected, remote, space, s, i + 1, start, closed, result, reqs)
    ensures !Joins(s, start, i) ==>
      && Spanned(s[start..i]) && AllReadable(s[start..i]) && Planned(s, Windows(s))
      && var o := RangeRead(connected, remote, space, s[start..i]);
      && (o.result.Failure? ==> RunWindows(connected, remote, space, s, Windows(s)) == Run(reqs + o.requests, o.result))
      && (o.result.Success? ==>
            Progress(connected, remote, space, s, i + 1, i, closed + [Window(start, i)], result + o.result.value, reqs + o.requests))
  {
    if Joins(s, start, i) {
      ProgressJoins(connected, remote, space, s, i, start, closed, result, reqs);
    } else {
      ProgressCloses(connected, remote, space, s, i, start, closed, result, reqs);
      SliceReadable(s, start, i);
      if WindowRun(connected, remote, space, s, Window(start, i)).result.Failure? {
        ProgressFails(connected, remote, space, s, i, start, closed, result, reqs);
      } else {
        ProgressNext(connected, remote, space, s, i, start, closed, result, reqs);
      }
    }
  }

  /** After the loop the open window is the plan's last: its read ends the whole plan's batch. */
  lemma ProgressLast(connected: bool, remote: Remote, space: ModBusRegisters, s: seq<Register>,
                     start: nat, closed: seq<Window>, result: Values, reqs: seq<Request>)
    requires Progress(connected, remote, space, s, |s|, start, closed, result, reqs)
    ensures Spanned(s[start..|s|]) && AllReadable(s[start..|s|]) && Planned(s, Windows(s))
    ensures var o := RangeRead(connected, remote, space, s[start..|s|]);
      RunWindows(connected, remote, space, s, Windows(s))
      == Run(reqs + o.requests, if o.result.Failure? then o.result else Success(result + o.result.value))
  {
    ProgressCloses(connected, remote, space, s, |s|, start, closed, result, reqs);
    SliceReadable(s, start, |s|);
    if WindowRun(connected, remote, space, s, Window(start, |s|)).result.Failure? {
      ProgressFails(connected, remote, space, s, |s|, start, closed, result, reqs);
    } else {
      ProgressEnds(connected, remote, space, s, start, closed, result, reqs);
    }
  }

  /** `read_registers` of the asynchronous device: sort, plan, run. */
  function ReadRegistersRun(connected: bool, remote: Remote, space: ModBusRegisters, regs: seq<Register>): Run<Values>
    requires AllReadable(regs)
  {
    var s := SortByAddr(regs);
    SortedReadable(regs);
    PlanOfWindows(s);
    RunWindows(connected, remote, space, s, Windows(s))
  }

  lemma SortedReadable(regs: seq<Register>)
    requires AllReadable(regs)
    ensures AllReadable(SortByAddr(regs))
  {
    forall r | r in SortByAddr(regs) ensures Readable(r) {
      SortKeepsMembers(regs, r);
    }
  }

  // ---------------------------------------------------------------------
  // What a batch returns

  /**
   * An empty list returns an empty map without any request, and without a
   * connection a non-empty list fails with `DeviceNotConnectedError` before
   * any request.
   */
  lemma ReadRegistersGuards(connected: bool, remote: Remote, space: ModBusRegisters, regs: seq<Register>)
    requires AllReadable(regs)
    ensures regs == [] ==> ReadRegistersRun(connected, remote, space, regs) == Run([], Success(map[]))
    ensures !connected && regs != [] ==> ReadRegistersRun(connected, remote, space, regs) == Run([], Failure(DeviceNotConnectedError))
  {
    var s := SortByAddr(regs);
    SortedReadable(regs);
    PlanOfWindows(s);
    RunWindowsDisconnected(remote, space, s, Windows(s));
  }

  /** A single run is the whole batch. */
  lemma RunAllSingle(o: Run<Values>)
    ensures RunAll([o]) == o
  {
    assert [o][..0] == [];
    assert [] + o.requests == o.requests;
    if o.result.Success? {
      assert map[] + o.result.value == o.result.value;
    }
  }

  /** A single register is read by one `read_range` of its own extent: one raw read of `len` words at its address. */
  lemma ReadRegistersSingle(connected: bool, remote: Remote, space: ModBusRegisters, r: Register)
    requires Readable(r)
    ensures Spanned([r]) && AllReadable([r])
    ensures ReadRegistersRun(connected, remote, space, [r]) == RangeRead(connected, remote, space, [r])
    ensures ReadRegistersRun(connected, remote, space, [r]).requests == RawRequests(connected, space, r.addr, r.len)
  {
    var s := SortByAddr([r]);
    assert s == [r];
    assert Windows(s) == [Window(0, 1)];
    PlanOfWindows(s);
    assert s[0..1] == [r];
    var o := RangeRead(connected, remote, space, [r]);
    assert WindowRuns(connected, remote, space, s, Windows(s)) == [o];
    RunAllSingle(o);
  }

  /**
   * A successful batch on a connected device sent one read per window of
   * the plan, in plan order, and the reads start at ascending addresses.
   */
  lemma ReadRegistersRequests(remote: Remote, space: ModBusRegisters, regs: seq<Register>)
    requires AllReadable(regs)
    requires ReadRegistersRun(true, remote, space, regs).result.Success?
    ensures Planned(SortByAddr(regs), Windows(SortByAddr(regs)))
    ensures var rs := ReadRegistersRun(true, remote, space, regs).requests;
      var s := SortByAddr(regs);
      && |rs| == |Windows(s)|
      && (forall k :: 0 <= k < |rs| ==> rs[k] == ReadOf(space, s, Windows(s)[k]))
      && (forall k1, k2 :: 0 <= k1 < k2 < |rs| ==> rs[k1].addr <= rs[k2].addr)
  {
    var s := SortByAddr(regs);
    SortedReadable(regs);
    PlanOfWindows(s);
    RunWindowsSuccess(true, remote, space, s, Windows(s));
    forall k1, k2 | 0 <= k1 < k2 < |Windows(s)|
      ensures ReadOf(space, s, Windows(s)[k1]).addr <= ReadOf(space, s, Windows(s)[k2]).addr
    {
      WindowStartsAscend(s, k1, k2);
    }
  }

  /** A successful batch collects the own-word decodes of the registers in address order. */
  lemma ReadRegistersCollect(connected: bool, remote: Remote, space: ModBusRegisters, regs: seq<Register>)
    requires AllReadable(regs)
    requires ReadRegistersRun(connected, remote, space, regs).result.Success?
    ensures AllReadable(SortByAddr(regs)) && Covered(Memory(remote, space), SortByAddr(regs))
    ensures ReadRegistersRun(connected, remote, space, regs).result.value == Collect(OwnEntries(Memory(remote, space), SortByAddr(regs)))
  {
    var s := SortByAddr(regs);
    SortedReadable(regs);
    PlanOfWindows(s);
    WindowsTile(s);
    RunWindowsValues(connected, remote, space, s, Windows(s), |s|);
    assert s[..|s|] == s;
  }

  /** On success every requested register has all its words on the device. */
  lemma ReadRegistersCovered(connected: bool, remote: Remote, space: ModBusRegisters, regs: seq<Register>)
    requires AllReadable(regs)
    requires ReadRegistersRun(connected, remote, space, regs).result.Success?
    ensures Covered(Memory(remote, space), regs)
  {
    ReadRegistersCollect(connected, remote, space, regs);
    forall r | r in regs ensures Mapped(Memory(remote, space), r.addr, r.len) {
      SortKeepsMembers(regs, r);
    }
  }

  /**
   * On success the result holds exactly the names of requested registers
   * whose own words decode: a register that fails to decode is dropped and
   * its neighbours are kept.
   */
  lemma ReadRegistersKeys(connected: bool, remote: Remote, space: ModBusRegisters, regs: seq<Register>, name: string)
    requires AllReadable(regs)
    requires ReadRegistersRun(connected, remote, space, regs).result.Success?
    ensures Covered(Memory(remote, space), regs)
    ensures name in ReadRegistersRun(connected, remote, space, regs).result.value <==>
      exists r :: r in regs && r.name == name && OwnValue(Memory(remote, space), r).Success?
  {
    var mem := Memory(remote, space);
    var s := SortByAddr(regs);
    ReadRegistersCovered(connected, remote, space, regs);
    ReadRegistersCollect(connected, remote, space, regs);
    var es := OwnEntries(mem, s);
    CollectKeys(es, name);
    if name in Collect(es) {
      var j :| 0 <= j < |es| && es[j].name == name && es[j].outcome.Success?;
      SortKeepsMembers(regs, s[j]);
    }
    if exists r :: r in regs && r.name == name && OwnValue(mem, r).Success? {
      var r :| r in regs && r.name == name && OwnValue(mem, r).Success?;
      SortKeepsMembers(regs, r);
      var j :| 0 <= j < |s| && s[j] == r;
      assert es[j].name == name && es[j].outcome.Success?;
    }
  }

  /** On success each value is the decode of the own words of a requested register of that name. */
  lemma ReadRegistersValue(connected: bool, remote: Remote, space: ModBusRegisters, regs: seq<Register>, name: string)
    requires AllReadable(regs)
    requires ReadRegistersRun(connected, remote, space, regs).result.Success?
    requires name in ReadRegistersRun(connected, remote, space, regs).result.value
    ensures Covered(Memory(remote, space), regs)
    ensures exists r :: (r in regs && r.name == name
      && OwnValue(Memory(remote, space), r) == Success(ReadRegistersRun(connected, remote, space, regs).result.value[name]))
  {
    var mem := Memory(remote, space);
    var s := SortByAddr(regs);
    ReadRegistersCovered(connected, remote, space, regs);
    ReadRegistersCollect(connected, remote, space, regs);
    var es := OwnEntries(mem, s);
    CollectValue(es, name);
    var j :| 0 <= j < |es| && es[j].name == name && es[j].outcome == Success(Collect(es)[name]);
    SortKeepsMembers(regs, s[j]);
  }

  // ---------------------------------------------------------------------
  // The synchronous device's `read_register`

  /** The synchronous scan's windows lie inside the sorted list, each over a spanned run. */
  lemma SyncPlanned(s: seq<Register>)
    ensures Planned(s, SyncWindows(s))
  {
    SyncDropsLast(s);
    if |s| >= 2 {
      var p := s[..|s| - 1];
      PlanOfWindows(p);
      forall k | 0 <= k < |Windows(p)| ensures InExtent(s, Windows(p)[k]) {
        var w := Windows(p)[k];
        assert s[w.lo..w.hi] == p[w.lo..w.hi];
      }
    }
  }

  /**
   * `read_register` of the synchronous device: sort, plan with the
   * synchronous scan, run every read on the always-present context.
   */
  function SyncRun(remote: Remote, space: ModBusRegisters, regs: seq<Register>): Run<Values>
    requires AllReadable(regs)
  {
    var s := SortByAddr(regs);
    SortedReadable(regs);
    SyncPlanned(s);
    RunWindows(true, remote, space, s, SyncWindows(s))
  }

  /**
   * Where the synchronous loop over the sorted list `s` stands before
   * position `i`: the scan's state, and the batch over the windows it has
   * closed, which made the requests `reqs` and collected `result`.
   */
  ghost predicate SyncProgress(remote: Remote, space: ModBusRegisters, s: seq<Register>,
                               i: nat, start: nat, closed: seq<Window>, result: Values, reqs: seq<Request>)
  {
    && AllReadable(s) && 1 <= i <= |s|
    && SyncScan(s, i) == SyncState(closed, start)
    && Planned(s, closed)
    && RunWindows(true, remote, space, s, closed) == Run(reqs, Success(result))
  }

  lemma SyncProgressStart(remote: Remote, space: ModBusRegisters, s: seq<Register>)
    requires AllReadable(s) && |s| >= 1
    ensures SyncProgress(remote, space, s, 1, 0, [], map[], [])
  {
    assert WindowRuns(true, remote, space, s, []) == [];
  }

  /** The synchronous loop closes the open window at `i`: it is the next window the scan reads. */
  lemma SyncProgressCloses(remote: Remote, space: ModBusRegisters, s: seq<Register>,
                           i: nat, start: nat, closed: seq<Window>, result: Values, reqs: seq<Request>)
    requires SyncProgress(remote, space, s, i, start, closed, result, reqs) && i < |s|
    requires !Joins(s, start, i) || i == |s| - 1
    ensures SyncScan(s, i + 1) == SyncState(closed + [Window(start, i)], i)
    ensures Planned(s, SyncWindows(s)) && Planned(s, closed + [Window(start, i)])
    ensures |closed| < |SyncWindows(s)| && SyncWindows(s)[..|closed| + 1] == closed + [Window(start, i)]
    ensures InExtent(s, Window(start, i)) && Spanned(s[start..i]) && AllReadable(s[start..i])
  {
    SyncScanCloses(s, i, closed, start);
    SyncClosedPrefix(s, i + 1);
    SyncPlanned(s);
    PlannedPrefix(s, SyncWindows(s), |closed| + 1);
    RunWindowsSnoc(true, remote, space, s, closed, Window(start, i));
    SliceReadable(s, start, i);
  }

  /**
   * One step of the synchronous loop at position `i`: a register that
   * joins the open window and is not the last one widens it; otherwise the
   * open window is read, and a failed read ends the batch.
   */
  lemma SyncProgressStep(remote: Remote, space: ModBusRegisters, s: seq<Register>,
                         i: nat, start: nat, closed: seq<Window>, result: Values, reqs: seq<Request>)
    requires SyncProgress(remote, space, s, i, start, closed, result, reqs) && i < |s|
    ensures Joins(s, start, i) && i != |s| - 1 ==> SyncProgress(remote, space, s, i + 1, start, closed, result, reqs)
    ensures !Joins(s, start, i) || i == |s| - 1 ==>
      && Spanned(s[start..i]) && AllReadable(s[start..i]) && Planned(s, SyncWindows(s))
      && var o := RangeRead(true, remote, space, s[start..i]);
      && (o.result.Failure? ==> RunWindows(true, remote, space, s, SyncWindows(s)) == Run(reqs + o.requests, o.result))
      && (o.result.Success? ==>
            SyncProgress(remote, space, s, i + 1, i, closed + [Window(start, i)], result + o.result.value, reqs + o.requests))
  {
    if !Joins(s, start, i) || i == |s| - 1 {
      SyncProgressCloses(remote, space, s, i, start, closed, result, reqs);
      RunWindowsSnoc(true, remote, space, s, closed, Window(start, i));
      if WindowRun(true, remote, space, s, Window(start, i)).result.Failure? {
        RunWindowsStops(true, remote, space, s, SyncWindows(s), |closed| + 1);
      }
    }
  }

  /** After its last step the synchronous loop has run exactly the scan's windows. */
  lemma SyncProgressEnd(remote: Remote, space: ModBusRegisters, s: seq<Register>,
                        start: nat, closed: seq<Window>, result: Values, reqs: seq<Request>)
    requires SyncProgress(remote, space, s, |s|, start, closed, result, reqs)
    ensures Planned(s, SyncWindows(s))
    ensures RunWindows(true, remote, space, s, SyncWindows(s)) == Run(reqs, Success(result))
  {
  }

  /** A plan that only looks at the first `m` positions runs the same on the list and on its prefix. */
  lemma RunWindowsOfPrefix(connected: bool, remote: Remote, space: ModBusRegisters, s: seq<Register>, ws: seq<Window>, m: nat)
    requires AllReadable(s) && m <= |s| && Planned(s[..m], ws)
    ensures AllReadable(s[..m]) && Planned(s, ws)
    ensures RunWindows(connected, remote, space, s, ws) == RunWindows(connected, remote, space, s[..m], ws)
  {
    var p := s[..m];
    forall k | 0 <= k < |ws| ensures s[ws[k].lo..ws[k].hi] == p[ws[k].lo..ws[k].hi] && InExtent(s, ws[k]) {
      assert s[ws[k].lo..ws[k].hi] == p[ws[k].lo..ws[k].hi];
    }
    assert WindowRuns(connected, remote, space, s, ws) == WindowRuns(connected, remote, space, p, ws);
  }

  /** For fewer than two registers the synchronous `read_register` sends nothing and returns an empty map. */
  lemma SyncReadsNothing(remote: Remote, space: ModBusRegisters, regs: seq<Register>)
    requires AllReadable(regs) && |regs| <= 1
    ensures SyncRun(remote, space, regs) == Run([], Success(map[]))
  {
    var s := SortByAddr(regs);
    SortedReadable(regs);
    SyncDropsLast(s);
    assert SyncWindows(s) == [];
    assert WindowRuns(true, remote, space, s, []) == [];
  }

  /**
   * For two registers or more the synchronous `read_register` does exactly
   * what the asynchronous batch does on the sorted list without its last
   * register.
   */
  lemma SyncReadsAllButLast(remote: Remote, space: ModBusRegisters, regs: seq<Register>)
    requires AllReadable(regs) && |regs| >= 2
    ensures AllReadable(SortByAddr(regs)[..|regs| - 1])
    ensures SyncRun(remote, space, regs) == ReadRegistersRun(true, remote, space, SortByAddr(regs)[..|regs| - 1])
  {
    var s := SortByAddr(regs);
    assert |s| == |regs|;
    assert AllReadable(s[..|s| - 1]) && SyncRun(remote, space, regs) == ReadRegistersRun(true, remote, space, s[..|s| - 1]) by {
      SortedReadable(regs);
      SyncRunOfSorted(remote, space, regs, s);
    }
  }

  /** The same, stated of the sorted list `s`. */
  lemma SyncRunOfSorted(remote: Remote, space: ModBusRegisters, regs: seq<Register>, s: seq<Register>)
    requires AllReadable(regs) && |regs| >= 2 && s == SortByAddr(regs) && AllReadable(s)
    ensures AllReadable(s[..|s| - 1])
    ensures SyncRun(remote, space, regs) == ReadRegistersRun(true, remote, space, s[..|s| - 1])
  {
    SyncOfSorted(remote, space, s);
    ReadRegistersOfPrefix(remote, space, s);
  }

  /** The list without its last register is already sorted: the asynchronous batch runs its plan as it is. */
  lemma ReadRegistersOfPrefix(remote: Remote, space: ModBusRegisters, s: seq<Register>)
    requires Sorted(s) && AllReadable(s) && |s| >= 1
    ensures AllReadable(s[..|s| - 1]) && Planned(s[..|s| - 1], Windows(s[..|s| - 1]))
    ensures ReadRegistersRun(true, remote, space, s[..|s| - 1])
      == RunWindows(true, remote, space, s[..|s| - 1], Windows(s[..|s| - 1]))
  {
    var p := s[..|s| - 1];
    SortSorted(p);
    PlanOfWindows(p);
  }

  /** On a sorted list the synchronous scan runs the asynchronous plan of the list without its last register. */
  lemma SyncOfSorted(remote: Remote, space: ModBusRegisters, s: seq<Register>)
    requires AllReadable(s) && |s| >= 2
    ensures AllReadable(s[..|s| - 1]) && Planned(s, SyncWindows(s)) && Planned(s[..|s| - 1], Windows(s[..|s| - 1]))
    ensures RunWindows(true, remote, space, s, SyncWindows(s))
      == RunWindows(true, remote, space, s[..|s| - 1], Windows(s[..|s| - 1]))
  {
    var p := s[..|s| - 1];
    SyncDropsLast(s);
    SyncPlanned(s);
    PlanOfWindows(p);
    RunWindowsOfPrefix(true, remote, space, s, Windows(p), |s| - 1);
  }

  /** The register whose address is above every other one and which occurs once comes last in address order, and no earlier register bears its name. */
  lemma SortedLast(regs: seq<Register>, r: Register)
    requires r in regs && multiset(regs)[r] == 1
    requires forall x :: x in regs && x != r ==> x.addr < r.addr && x.name != r.name
    ensures |SortByAddr(regs)| == |regs| >= 1 && SortByAddr(regs)[|regs| - 1] == r
    ensures forall x :: x in SortByAddr(regs)[..|regs| - 1] ==> x.name != r.name
  {
    var s := SortByAddr(regs);
    LastOfSorted(s, regs, r);
  }

  lemma LastOfSorted(s: seq<Register>, regs: seq<Register>, r: Register)
    requires Sorted(s) && multiset(s) == multiset(regs)
    requires r in regs && multiset(regs)[r] == 1
    requires forall x :: x in regs && x != r ==> x.addr < r.addr && x.name != r.name
    ensures |s| >= 1 && s[|s| - 1] == r
    ensures forall x :: x in s[..|s| - 1] ==> x.name != r.name
  {
    LastIsHighest(s, regs, r);
    var p := s[..|s| - 1];
    assert s == p + [r];
    assert multiset(p)[r] == 0;
    forall x | x in p ensures x.name != r.name {
      assert x in multiset(regs);
    }
  }

  lemma LastIsHighest(s: seq<Register>, regs: seq<Register>, r: Register)
    requires Sorted(s) && multiset(s) == multiset(regs) && r in regs
    requires forall x :: x in regs && x != r ==> x.addr < r.addr
    ensures |s| >= 1 && s[|s| - 1] == r
  {
    assert r in multiset(s);
    var j :| 0 <= j < |s| && s[j] == r;
    assert s[|s| - 1] in multiset(regs);
  }

  /**
   * The last register in address order is never read by the synchronous
   * device: when its address is above every other requested register's and
   * its name is its own, a successful call returns no value under that name,
   * whatever the device holds.
   */
  lemma SyncMissesLast(remote: Remote, space: ModBusRegisters, regs: seq<Register>, r: Register)
    requires AllReadable(regs) && r in regs && multiset(regs)[r] == 1
    requires forall x :: x in regs && x != r ==> x.addr < r.addr && x.name != r.name
    requires SyncRun(remote, space, regs).result.Success?
    ensures r.name !in SyncRun(remote, space, regs).result.value
  {
    SortedLast(regs, r);
    if |regs| <= 1 {
      SyncReadsNothing(remote, space, regs);
    } else {
      var p := SortByAddr(regs)[..|regs| - 1];
      SyncReadsAllButLast(remote, space, regs);
      ReadRegistersKeys(true, remote, space, p, r.name);
    }
  }

  /** The one window over `a` and `b` reads both words and decodes both registers. */
  lemma ExampleWindow(remote: Remote, a: Register, b: Register)
    requires a == Register("a", 0, 1, DataType.UInt16, true) && b == Register("b", 1, 1, DataType.UInt16, true)
    requires remote == Remote(map[0 := 7, 1 := 9], map[], true)
    ensures Spanned([a, b]) && AllReadable([a, b])
    ensures RangeRead(true, remote, Input, [a, b]).result == Success(map["a" := U16(7), "b" := U16(9)])
  {
    var regs := [a, b];
    assert Mapped(remote.input, 0, 2);
    var buf := Words(remote.input, 0, 2);
    assert buf == [7, 9];
    assert RawRead(true, remote, Input, 0, 2) == Success(buf);
    DecodeFirstWord(buf[0..1], DataType.UInt16);
    DecodeFirstWord(buf[1..2], DataType.UInt16);
    var es := Decoded(buf, 0, regs);
    assert es == [Entry("a", Success(U16(7))), Entry("b", Success(U16(9)))];
    assert es[..1][..0] == [];
    assert Collect(es[..1]) == map["a" := U16(7)];
    assert es[..|es| - 1] == es[..1];
  }

  /**
   * Two adjacent one-word registers `a` at 0 and `b` at 1 on a device that
   * holds 7 and 9 there: the asynchronous batch returns both values, the
   * synchronous one succeeds without `b`.
   */
  lemma SyncExample(remote: Remote, a: Register, b: Register)
    requires a == Register("a", 0, 1, DataType.UInt16, true) && b == Register("b", 1, 1, DataType.UInt16, true)
    requires remote == Remote(map[0 := 7, 1 := 9], map[], true)
    ensures AllReadable([a, b])
    ensures ReadRegistersRun(true, remote, Input, [a, b]).result == Success(map["a" := U16(7), "b" := U16(9)])
    ensures SyncRun(remote, Input, [a, b]).result.Success?
    ensures "b" !in SyncRun(remote, Input, [a, b]).result.value
  {
    AsyncExample(remote, a, b);
    SyncExampleRun(remote, a, b);
    assert multiset([a, b])[b] == 1;
    SyncMissesLast(remote, Input, [a, b], b);
  }

  lemma AsyncExample(remote: Remote, a: Register, b: Register)
    requires a == Register("a", 0, 1, DataType.UInt16, true) && b == Register("b", 1, 1, DataType.UInt16, true)
    requires remote == Remote(map[0 := 7, 1 := 9], map[], true)
    ensures AllReadable([a, b])
    ensures ReadRegistersRun(true, remote, Input, [a, b]).result == Success(map["a" := U16(7), "b" := U16(9)])
  {
    var regs := [a, b];
    assert SortByAddr(regs) == regs;
    assert Windows(regs) == [Window(0, 2)];
    PlanOfWindows(regs);
    assert regs[0..2] == regs;
    var o := RangeRead(true, remote, Input, regs);
    ExampleWindow(remote, a, b);
    assert WindowRuns(true, remote, Input, regs, Windows(regs)) == [o];
    RunAllSingle(o);
  }

  /** The window spans more words than one read may ask for. */
  predicate Overlong(s: seq<Register>, w: Window)
  {
    w.lo < w.hi <= |s| && End(s[w.hi - 1]) - s[w.lo].addr > MaxReadQuantity
  }

  /**
   * A planned window that spans more than 125 words fails the whole batch:
   * its read asks for more than the device accepts, whatever the remote
   * holds and whether or not the device is connected.
   */
  lemma OverlongWindowFails(connected: bool, remote: Remote, space: ModBusRegisters, regs: seq<Register>, k: nat)
    requires AllReadable(regs)
    requires k < |Windows(SortByAddr(regs))| && Overlong(SortByAddr(regs), Windows(SortByAddr(regs))[k])
    ensures ReadRegistersRun(connected, remote, space, regs).result.Failure?
  {
    var s := SortByAddr(regs);
    SortedReadable(regs);
    PlanOfWindows(s);
    PlanWithOverlongWindow(connected, remote, space, s, Windows(s), k);
  }

  /** A plan with a window of more than 125 words fails. */
  lemma PlanWithOverlongWindow(connected: bool, remote: Remote, space: ModBusRegisters, s: seq<Register>, ws: seq<Window>, k: nat)
    requires AllReadable(s) && Planned(s, ws) && k < |ws| && Overlong(s, ws[k])
    ensures RunWindows(connected, remote, space, s, ws).result.Failure?
  {
    WindowReadTooLong(connected, remote, space, s, ws[k]);
    RunWindowsSuccess(connected, remote, space, s, ws);
  }

  /** A window read of more than 125 words fails. */
  lemma WindowReadTooLong(connected: bool, remote: Remote, space: ModBusRegisters, s: seq<Register>, w: Window)
    requires InExtent(s, w) && Overlong(s, w)
    ensures WindowRead(connected, remote, space, s, w).Failure?
  {
  }

  /**
   * The wide window fails whole: registers a@0 (125 words) and b@125
   * (10 words) are planned into one window, whose read of 135 words the
   * device refuses, so the batch fails on every remote and connection state
   * although each register alone fits in one read.
   */
  lemma WideWindowFails(connected: bool, remote: Remote, space: ModBusRegisters)
    ensures var s := [Register("a", 0, 125, DataType.UInt16, true), Register("b", 125, 10, DataType.UInt16, true)];
      AllReadable(s) && ReadRegistersRun(connected, remote, space, s).result.Failure?
  {
    var s := [Register("a", 0, 125, DataType.UInt16, true), Register("b", 125, 10, DataType.UInt16, true)];
    assert AllReadable(s) && Sorted(s);
    SortSorted(s);
    WideWindow();
    OverlongWindowFails(connected, remote, space, s, 0);
  }

  lemma SyncExampleRun(remote: Remote, a: Register, b: Register)
    requires a == Register("a", 0, 1, DataType.UInt16, true) && b == Register("b", 1, 1, DataType.UInt16, true)
    requires remote == Remote(map[0 := 7, 1 := 9], map[], true)
    ensures AllReadable([a, b])
    ensures SyncRun(remote, Input, [a, b]).result.Success?
  {
    var regs := [a, b];
    SortSorted(regs);
    SyncReadsAllButLast(remote, Input, regs);
    assert regs[..1] == [a];
    ReadRegistersSingle(true, remote, Input, a);
    assert RawRead(true, remote, Input, 0, 1).Success?;
  }
}
