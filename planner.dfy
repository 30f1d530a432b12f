/**
 * The batch planner shared by both device variants: descriptors are sorted
 * by address, then cut into windows of consecutive list positions, and each
 * window is fetched with one raw read.
 */
module Planner {
  import opened Register

  /** The largest start offset, in words, a register may have inside one window. */
  const MaxReadLen: nat := 125

  // ---------------------------------------------------------------------
  // Sorting by address

  predicate Sorted(s: seq<Register>)
  {
    forall i, j :: 0 <= i < j < |s| ==> s[i].addr <= s[j].addr
  }

  /** Put `x` in front of the first element whose address is not below its own. */
  function Insert(x: Register, s: seq<Register>): (r: seq<Register>)
    ensures multiset(r) == multiset{x} + multiset(s)
    ensures |r| == |s| + 1
  {
    if s == [] || x.addr <= s[0].addr then
      [x] + s
    else
      assert s == [s[0]] + s[1..];
      [s[0]] + Insert(x, s[1..])
  }

  /** Every element of `Insert(x, s)` is `x` or an element of `s`. */
  lemma InsertMember(x: Register, s: seq<Register>, i: nat)
    requires i < |Insert(x, s)|
    ensures Insert(x, s)[i] == x || Insert(x, s)[i] in s
  {
    var r := Insert(x, s);
    assert r[i] in multiset(r);
  }

  lemma {:induction false} InsertSorted(x: Register, s: seq<Register>)
    requires Sorted(s)
    ensures Sorted(Insert(x, s))
  {
    if s != [] && x.addr > s[0].addr {
      var t := Insert(x, s[1..]);
      InsertSorted(x, s[1..]);
      var r := [s[0]] + t;
      forall i, j | 0 <= i < j < |r| ensures r[i].addr <= r[j].addr {
        if i == 0 {
          InsertMember(x, s[1..], j - 1);
        } else {
          assert r[i] == t[i - 1] && r[j] == t[j - 1];
        }
      }
    }
  }

  /**
   * `sort_by_key(|s| s.addr)`: an insertion sort. Each element goes in
   * front of the equal addresses that follow it in the input, so the sort
   * keeps the input order among equal addresses, as the library sort does.
   */
  function SortByAddr(s: seq<Register>): (r: seq<Register>)
    ensures Sorted(r)
    ensures multiset(r) == multiset(s)
    ensures |r| == |s|
  {
    if s == [] then []
    else
      assert s == [s[0]] + s[1..];
      var t := SortByAddr(s[1..]);
      InsertSorted(s[0], t);
      Insert(s[0], t)
  }

  /** A list already in address order is left as it is. */
  lemma {:induction false} SortSorted(s: seq<Register>)
    requires Sorted(s)
    ensures SortByAddr(s) == s
  {
    if s != [] {
      SortSorted(s[1..]);
      assert s == [s[0]] + s[1..];
    }
  }

  /** A list of one register is its own sorted order. */
  lemma SingleSorted(s: seq<Register>)
    requires |s| == 1
    ensures SortByAddr(s) == s == [s[0]]
  {
    SortSorted(s);
  }

  /** Sorting keeps exactly the descriptors it was given. */
  lemma SortKeepsMembers(s: seq<Register>, x: Register)
    ensures x in SortByAddr(s) <==> x in s
  {
    var r := SortByAddr(s);
    assert x in r <==> x in multiset(r);
    assert x in s <==> x in multiset(s);
  }

  /** The registers of `s` at address `a`, in their order in `s`. */
  function AtAddr(s: seq<Register>, a: int): seq<Register>
  {
    if s == [] then []
    else (if s[0].addr == a then [s[0]] else []) + AtAddr(s[1..], a)
  }

  /** `AtAddr` keeps exactly the registers at address `a`. */
  lemma {:induction false} AtAddrMembers(s: seq<Register>, a: int, x: Register)
    ensures x in AtAddr(s, a) <==> x in s && x.addr == a
  {
    if s != [] {
      AtAddrMembers(s[1..], a, x);
      assert x in s <==> x == s[0] || x in s[1..];
    }
  }

  /** Inserting `x` puts it in front of the registers at its own address and moves no other register past one of them. */
  lemma {:induction false} InsertAtAddr(x: Register, s: seq<Register>, a: int)
    ensures AtAddr(Insert(x, s), a) == (if x.addr == a then [x] else []) + AtAddr(s, a)
  {
    if s == [] || x.addr <= s[0].addr {
      var r := [x] + s;
      assert Insert(x, s) == r && r[0] == x && r[1..] == s;
    } else {
      var t := Insert(x, s[1..]);
      var r := [s[0]] + t;
      assert Insert(x, s) == r && r[0] == s[0] && r[1..] == t;
      InsertAtAddr(x, s[1..], a);
      if x.addr == a {
        assert AtAddr(r, a) == AtAddr(t, a);
        assert AtAddr(s, a) == AtAddr(s[1..], a);
      } else {
        assert AtAddr(t, a) == AtAddr(s[1..], a);
      }
    }
  }

  /** The sort is stable: the registers at any one address keep their input order. */
  lemma {:induction false} SortStable(s: seq<Register>, a: int)
    ensures AtAddr(SortByAddr(s), a) == AtAddr(s, a)
  {
    if s != [] {
      SortStable(s[1..], a);
      InsertAtAddr(s[0], SortByAddr(s[1..]), a);
    }
  }

  // ---------------------------------------------------------------------
  // Windows of the asynchronous device

  /** The positions `lo .. hi-1` of the sorted list, read together. */
  datatype Window = Window(lo: nat, hi: nat)

  /**
   * The loop's test for letting the register at position `i` join the
   * window that starts at `lo`: its start offset from the window's first
   * register is at most 125, and it starts exactly where the register
   * before it ends. The offset bounds the candidate's start, not its end.
   */
  predicate Joins(s: seq<Register>, lo: nat, i: nat)
    requires lo < i < |s|
  {
    s[i].addr - s[lo].addr <= MaxReadLen && s[i].addr == End(s[i - 1])
  }

  /** Consecutive non-empty windows that together cover positions `0 .. n-1`. */
  predicate Tiles(ws: seq<Window>, n: nat)
  {
    && (ws == [] <==> n == 0)
    && (ws != [] ==> ws[0].lo == 0 && ws[|ws| - 1].hi == n)
    && (forall k :: 0 <= k < |ws| ==> ws[k].lo < ws[k].hi <= n)
    && (forall k :: 0 <= k < |ws| - 1 ==> ws[k].hi == ws[k + 1].lo)
  }

  /**
   * The windows `read_registers` reads for the sorted list `s`, in the
   * order it reads them. The list is consumed one position at a time, as
   * the loop does: the newest register either joins the open window or
   * opens a new one.
   */
  function Windows(s: seq<Register>): (ws: seq<Window>)
    ensures ws == [] <==> s == []
    ensures s != [] ==> ws[|ws| - 1].lo < ws[|ws| - 1].hi == |s|
    decreases |s|
  {
    if |s| == 0 then []
    else if |s| == 1 then [Window(0, 1)]
    else
      var prev := Windows(s[..|s| - 1]);
      var open := prev[|prev| - 1];
      if Joins(s, open.lo, |s| - 1) then prev[|prev| - 1 := Window(open.lo, |s|)]
      else prev + [Window(|s| - 1, |s|)]
  }

  /** The test at a position below `n` reads the same on the list and on its first `n` registers. */
  lemma JoinsOfPrefix(s: seq<Register>, n: nat, lo: nat, i: nat)
    requires lo < i < n <= |s|
    ensures Joins(s[..n], lo, i) == Joins(s, lo, i)
  {
    assert s[..n][i] == s[i] && s[..n][i - 1] == s[i - 1] && s[..n][lo] == s[lo];
  }

  /** A non-empty plan is its closed windows followed by the open one. */
  lemma OpenWindow(s: seq<Register>) returns (closed: seq<Window>, start: nat)
    requires s != []
    ensures Windows(s) == closed + [Window(start, |s|)]
  {
    var ws := Windows(s);
    closed, start := ws[..|ws| - 1], ws[|ws| - 1].lo;
    assert ws == closed + [ws[|ws| - 1]];
  }

  /** What one more register does to the plan: it extends the open window or opens a new one after it. */
  lemma WindowsStep(s: seq<Register>, closed: seq<Window>, start: nat)
    requires |s| >= 2 && Windows(s[..|s| - 1]) == closed + [Window(start, |s| - 1)]
    ensures start < |s| - 1
    ensures Joins(s, start, |s| - 1) ==> Windows(s) == closed + [Window(start, |s|)]
    ensures !Joins(s, start, |s| - 1) ==> Windows(s) == closed + [Window(start, |s| - 1), Window(|s| - 1, |s|)]
  {
    var prev := closed + [Window(start, |s| - 1)];
    assert prev[|prev| - 1] == Window(start, |s| - 1);
    assert Windows(s) == if Joins(s, start, |s| - 1) then prev[|prev| - 1 := Window(start, |s|)] else prev + [Window(|s| - 1, |s|)];
    if Joins(s, start, |s| - 1) {
      assert prev[|prev| - 1 := Window(start, |s|)] == closed + [Window(start, |s|)];
    } else {
      assert prev + [Window(|s| - 1, |s|)] == closed + [Window(start, |s| - 1), Window(|s| - 1, |s|)];
    }
  }

  /** Each window is non-empty and inside the list, and each window ends where the next one starts. */
  lemma {:induction false} WindowBounds(s: seq<Register>, k: nat)
    requires k < |Windows(s)|
    ensures Windows(s)[k].lo < Windows(s)[k].hi <= |s|
    ensures k == 0 ==> Windows(s)[k].lo == 0
    ensures k + 1 < |Windows(s)| ==> Windows(s)[k].hi == Windows(s)[k + 1].lo
    decreases |s|
  {
    var n := |s|;
    if n >= 2 {
      var p := s[..n - 1];
      var closed, start := OpenWindow(p);
      WindowsStep(s, closed, start);
      var m := |closed|;
      if k < m {
        WindowBounds(p, k);
        if k + 1 < m {
          assert Windows(s)[k + 1] == Windows(p)[k + 1];
        }
      } else if k == m && m > 0 {
        WindowBounds(p, m);
      } else if k == m {
        WindowBounds(p, 0);
      }
    }
  }

  lemma WindowsTile(s: seq<Register>)
    ensures Tiles(Windows(s), |s|)
  {
    forall k | 0 <= k < |Windows(s)|
      ensures Windows(s)[k].lo < Windows(s)[k].hi <= |s|
      ensures k + 1 < |Windows(s)| ==> Windows(s)[k].hi == Windows(s)[k + 1].lo
    {
      WindowBounds(s, k);
    }
    if s != [] {
      WindowBounds(s, 0);
    }
  }

  /** Dropping the last window of a tiling leaves a tiling of the positions before it. */
  lemma TilesPrefix(ws: seq<Window>, n: nat)
    requires Tiles(ws, n) && ws != []
    ensures Tiles(ws[..|ws| - 1], ws[|ws| - 1].lo)
  {
    var pre := ws[..|ws| - 1];
    forall k | 0 <= k < |pre| ensures pre[k].hi <= ws[|ws| - 1].lo {
      TilesOrdered(ws, n, k, |ws| - 1);
    }
  }

  /** Every position of the list is covered by exactly one window. */
  lemma WindowsCover(s: seq<Register>, j: nat)
    requires j < |s|
    ensures exists k :: 0 <= k < |Windows(s)| && Windows(s)[k].lo <= j < Windows(s)[k].hi
    ensures forall k1, k2 ::
      (0 <= k1 < |Windows(s)| && 0 <= k2 < |Windows(s)|
       && Windows(s)[k1].lo <= j < Windows(s)[k1].hi && Windows(s)[k2].lo <= j < Windows(s)[k2].hi) ==> k1 == k2
  {
    WindowsTile(s);
    TilesCover(Windows(s), |s|, j);
  }

  lemma {:induction false} TilesOrdered(ws: seq<Window>, n: nat, k1: nat, k2: nat)
    requires Tiles(ws, n) && k1 < k2 < |ws|
    ensures ws[k1].hi <= ws[k2].lo
    decreases k2 - k1
  {
    if k1 + 1 < k2 {
      TilesOrdered(ws, n, k1 + 1, k2);
    }
  }

  lemma TilesCover(ws: seq<Window>, n: nat, j: nat)
    requires Tiles(ws, n) && j < n
    ensures exists k :: 0 <= k < |ws| && ws[k].lo <= j < ws[k].hi
    ensures forall k1, k2 ::
      (0 <= k1 < |ws| && 0 <= k2 < |ws| && ws[k1].lo <= j < ws[k1].hi && ws[k2].lo <= j < ws[k2].hi) ==> k1 == k2
  {
    var k := 0;
    while ws[k].hi <= j
      invariant 0 <= k < |ws| && ws[k].lo <= j
      decreases |ws| - k
    {
      k := k + 1;
    }
    forall k1, k2 | 0 <= k1 < |ws| && 0 <= k2 < |ws| && ws[k1].lo <= j < ws[k1].hi && ws[k2].lo <= j < ws[k2].hi
      ensures k1 == k2
    {
      if k1 < k2 {
        TilesOrdered(ws, n, k1, k2);
      } else if k2 < k1 {
        TilesOrdered(ws, n, k2, k1);
      }
    }
  }

  /**
   * Inside a window every register passes the loop's test against the
   * window's first register: it starts where its predecessor ends, at most
   * 125 words after the window's start.
   */
  lemma {:induction false} WindowsContiguous(s: seq<Register>, k: nat, j: nat)
    requires j < |s| && k < |Windows(s)| && Windows(s)[k].lo < j < Windows(s)[k].hi
    ensures Joins(s, Windows(s)[k].lo, j)
    decreases |s|
  {
    var n := |s|;
    var p := s[..n - 1];
    var closed, start := OpenWindow(p);
    WindowsStep(s, closed, start);
    var m := |closed|;
    var w := Windows(s)[k];
    if k < m {
      WindowBounds(p, k);
      WindowsContiguous(p, k, j);
      JoinsOfPrefix(s, n - 1, w.lo, j);
    } else if j < n - 1 {
      WindowsContiguous(p, m, j);
      JoinsOfPrefix(s, n - 1, w.lo, j);
    }
  }

  /**
   * A new window opens only when needed: the first register of every window
   * after the first would fail the test against the window before it.
   */
  lemma {:induction false} WindowsMaximal(s: seq<Register>, k: nat)
    requires k + 1 < |Windows(s)|
    ensures Windows(s)[k].hi == Windows(s)[k + 1].lo
    ensures Windows(s)[k].lo < Windows(s)[k + 1].lo < |s| && !Joins(s, Windows(s)[k].lo, Windows(s)[k + 1].lo)
    decreases |s|
  {
    var n := |s|;
    var p := s[..n - 1];
    var closed, start := OpenWindow(p);
    WindowsStep(s, closed, start);
    var m := |closed|;
    WindowBounds(s, k);
    WindowBounds(s, k + 1);
    if k + 1 < m {
      WindowsMaximal(p, k);
      JoinsOfPrefix(s, n - 1, Windows(p)[k].lo, Windows(p)[k + 1].lo);
    } else if k + 1 == m {
      WindowsMaximal(p, k);
      JoinsOfPrefix(s, n - 1, Windows(p)[k].lo, start);
    }
  }

  /**
   * The windows closed while the loop has consumed the first `i` positions
   * stay closed: they are the first windows of the full plan, and the open
   * window already has its final start.
   */
  lemma {:induction false} WindowsPrefix(s: seq<Register>, i: nat, closed: seq<Window>, start: nat)
    requires 1 <= i <= |s| && Windows(s[..i]) == closed + [Window(start, i)]
    ensures |closed| < |Windows(s)|
    ensures Windows(s)[..|closed|] == closed
    ensures Windows(s)[|closed|].lo == start
    decreases |s| - i
  {
    var n := |s|;
    if i < n {
      var p := s[..n - 1];
      assert p[..i] == s[..i];
      WindowsPrefix(p, i, closed, start);
      var closed', start' := OpenWindow(p);
      WindowsStep(s, closed', start');
      var c := |closed|;
      assert Windows(s)[..|closed'|] == closed';
      assert Windows(s)[|closed'|].lo == start';
      if c < |closed'| {
        assert Windows(s)[..c] == closed'[..c] == Windows(p)[..c];
        assert Windows(s)[c] == closed'[c] == Windows(p)[c];
      }
    } else {
      assert s[..i] == s;
    }
  }

  /**
   * One iteration of the asynchronous loop at position `i`: a joining
   * register extends the open window, any other one closes it and opens a
   * window of its own.
   */
  lemma LoopStep(s: seq<Register>, i: nat, closed: seq<Window>, start: nat)
    requires 1 <= i < |s| && Windows(s[..i]) == closed + [Window(start, i)]
    ensures start < i
    ensures Joins(s, start, i) ==> Windows(s[..i + 1]) == closed + [Window(start, i + 1)]
    ensures !Joins(s, start, i) ==> Windows(s[..i + 1]) == (closed + [Window(start, i)]) + [Window(i, i + 1)]
  {
    var p := s[..i + 1];
    assert p[..|p| - 1] == s[..i];
    WindowsStep(p, closed, start);
    JoinsOfPrefix(s, i + 1, start, i);
  }

  /**
   * A window the asynchronous loop closes, at a register that does not join
   * or at the end of the list, is final: with the windows closed before it,
   * it is the beginning of the full plan.
   */
  lemma LoopCloses(s: seq<Register>, i: nat, closed: seq<Window>, start: nat)
    requires 1 <= i <= |s| && Windows(s[..i]) == closed + [Window(start, i)]
    requires i < |s| ==> !Joins(s, start, i)
    ensures |closed| < |Windows(s)| && Windows(s)[..|closed| + 1] == closed + [Window(start, i)]
  {
    if i == |s| {
      LastWindow(s, closed, start);
    } else {
      InnerWindow(s, i, closed, start);
    }
  }

  lemma InnerWindow(s: seq<Register>, i: nat, closed: seq<Window>, start: nat)
    requires 1 <= i < |s| && Windows(s[..i]) == closed + [Window(start, i)] && !Joins(s, start, i)
    ensures |closed| < |Windows(s)| && Windows(s)[..|closed| + 1] == closed + [Window(start, i)]
  {
    LoopStep(s, i, closed, start);
    var c := closed + [Window(start, i)];
    WindowsPrefix(s, i + 1, c, i);
    assert |c| == |closed| + 1;
  }

  lemma LastWindow(s: seq<Register>, closed: seq<Window>, start: nat)
    requires 1 <= |s| && Windows(s[..|s|]) == closed + [Window(start, |s|)]
    ensures |closed| < |Windows(s)| && Windows(s)[..|closed| + 1] == closed + [Window(start, |s|)]
  {
    assert s[..|s|] == s;
    var ws := Windows(s);
    assert ws[..|ws|] == ws;
  }

  /** Windows of a sorted list only ever grow in address order. */
  lemma {:induction false} WindowStartsAscend(s: seq<Register>, k1: nat, k2: nat)
    requires Sorted(s) && k1 < k2 < |Windows(s)|
    ensures Windows(s)[k1].lo < Windows(s)[k2].lo < |s| && s[Windows(s)[k1].lo].addr <= s[Windows(s)[k2].lo].addr
  {
    WindowsTile(s);
    TilesOrdered(Windows(s), |s|, k1, k2);
    WindowBounds(s, k1);
    WindowBounds(s, k2);
  }

  /**
   * A window's registers, as a slice, lie inside the extent `read_range`
   * reads: from the first register's address to the end of the last one.
   */
  predicate Spanned(regs: seq<Register>)
  {
    && |regs| >= 1
    && (forall j :: 0 <= j < |regs| ==> regs[0].addr <= regs[j].addr && End(regs[j]) <= End(regs[|regs| - 1]))
  }

  predicate InExtent(s: seq<Register>, w: Window)
  {
    w.lo < w.hi <= |s| && Spanned(s[w.lo..w.hi])
  }

  /** One step of the extent argument: a window member ends no later than the window's last register. */
  lemma {:induction false} EndsBelowLast(s: seq<Register>, k: nat, j: nat)
    requires k < |Windows(s)| && Windows(s)[k].lo <= j < Windows(s)[k].hi <= |s|
    ensures End(s[j]) <= End(s[Windows(s)[k].hi - 1])
    decreases Windows(s)[k].hi - j
  {
    var w := Windows(s)[k];
    if j + 1 < w.hi {
      WindowsContiguous(s, k, j + 1);
      EndsBelowLast(s, k, j + 1);
    }
  }

  lemma {:induction false} StartsAboveFirst(s: seq<Register>, k: nat, j: nat)
    requires k < |Windows(s)| && Windows(s)[k].lo <= j < Windows(s)[k].hi <= |s|
    ensures s[Windows(s)[k].lo].addr <= s[j].addr
    decreases j
  {
    var w := Windows(s)[k];
    if w.lo < j {
      WindowsContiguous(s, k, j);
      StartsAboveFirst(s, k, j - 1);
    }
  }

  /** Every window of the plan holds its registers inside the extent it reads. */
  lemma WindowsInExtent(s: seq<Register>, k: nat)
    requires k < |Windows(s)|
    ensures InExtent(s, Windows(s)[k])
  {
    var w := Windows(s)[k];
    WindowBounds(s, k);
    forall j | w.lo <= j < w.hi
      ensures s[w.lo].addr <= s[j].addr && End(s[j]) <= End(s[w.hi - 1])
    {
      EndsBelowLast(s, k, j);
      StartsAboveFirst(s, k, j);
    }
    SpannedOf(s, w.lo, w.hi);
  }

  /** Positions `lo .. hi-1` that start no lower than the first and end no later than the last form a spanned run. */
  lemma SpannedOf(s: seq<Register>, lo: nat, hi: nat)
    requires lo < hi <= |s|
    requires forall j :: lo <= j < hi ==> s[lo].addr <= s[j].addr && End(s[j]) <= End(s[hi - 1])
    ensures Spanned(s[lo..hi])
  {
    var regs := s[lo..hi];
    forall j | 0 <= j < |regs|
      ensures regs[0].addr <= regs[j].addr && End(regs[j]) <= End(regs[|regs| - 1])
    {
      assert regs[j] == s[lo + j];
    }
  }

  /**
   * The span a window reads is at most 125 words plus the length of its
   * last register: the test bounds the start offset, not the end.
   */
  lemma WindowSpan(s: seq<Register>, k: nat)
    requires k < |Windows(s)|
    ensures var w := Windows(s)[k];
      w.lo < w.hi <= |s| && End(s[w.hi - 1]) - s[w.lo].addr <= MaxReadLen + s[w.hi - 1].len
  {
    var w := Windows(s)[k];
    WindowBounds(s, k);
    if w.lo < w.hi - 1 {
      WindowsContiguous(s, k, w.hi - 1);
    }
  }

  /** Two contiguous registers, 0x7D words and 10 words long, share one window spanning 135 words. */
  lemma WideWindow()
    ensures var s := [Register("a", 0, 125, UInt16, true), Register("b", 125, 10, UInt16, true)];
      Windows(s) == [Window(0, 2)] && End(s[1]) - s[0].addr == 135
  {
    var s := [Register("a", 0, 125, UInt16, true), Register("b", 125, 10, UInt16, true)];
    assert s[..1] == [s[0]];
    assert Joins(s, 0, 1);
  }

  /** Registers at 0, 2 and 10, two words each: the first two share a window, the gap opens a second. */
  lemma GapExample()
    ensures var s := [Register("a", 0, 2, UInt32, true), Register("b", 2, 2, UInt32, true), Register("c", 10, 2, UInt32, true)];
      Windows(s) == [Window(0, 2), Window(2, 3)]
  {
    var s := [Register("a", 0, 2, UInt32, true), Register("b", 2, 2, UInt32, true), Register("c", 10, 2, UInt32, true)];
    assert s[..2][..1] == [s[0]];
    assert s[..2] == [s[0], s[1]];
    assert Joins(s[..2], 0, 1);
    assert !Joins(s, 0, 2);
  }

  // ---------------------------------------------------------------------
  // Windows bounded by their end

  /**
   * The test the comment on `read_registers` describes: the candidate joins
   * the window only when the window, with it, still fits in one read of 125
   * words, that is when the candidate's END is at most 125 words past the
   * window's first address.
   */
  predicate JoinsWithin(s: seq<Register>, lo: nat, i: nat)
    requires lo < i < |s|
  {
    End(s[i]) - s[lo].addr <= MaxReadLen && s[i].addr == End(s[i - 1])
  }

  /** The windows `read_registers` would read with the test bounded by the window's end. */
  function BoundedWindows(s: seq<Register>): (ws: seq<Window>)
    ensures ws == [] <==> s == []
    ensures s != [] ==> ws[|ws| - 1].lo < ws[|ws| - 1].hi == |s|
    decreases |s|
  {
    if |s| == 0 then []
    else if |s| == 1 then [Window(0, 1)]
    else
      var prev := BoundedWindows(s[..|s| - 1]);
      var open := prev[|prev| - 1];
      if JoinsWithin(s, open.lo, |s| - 1) then prev[|prev| - 1 := Window(open.lo, |s|)]
      else prev + [Window(|s| - 1, |s|)]
  }

  /**
   * With the bounded test every window lies inside the list, and a window of
   * two or more registers spans at most 125 words, so its read is one the
   * device accepts. (A lone register longer than 125 words still makes a
   * longer read: no test on joining can split it.)
   */
  lemma {:induction false} BoundedWindowSpan(s: seq<Register>, k: nat)
    requires k < |BoundedWindows(s)|
    ensures var w := BoundedWindows(s)[k];
      && w.lo < w.hi <= |s|
      && (w.lo + 1 < w.hi ==> End(s[w.hi - 1]) - s[w.lo].addr <= MaxReadLen)
    decreases |s|
  {
    var n := |s|;
    if n >= 2 {
      var p := s[..n - 1];
      var prev := BoundedWindows(p);
      var m := |prev| - 1;
      var open := prev[m];
      if k < m {
        BoundedWindowSpan(p, k);
        var w := prev[k];
        assert BoundedWindows(s)[k] == w;
        assert p[w.hi - 1] == s[w.hi - 1] && p[w.lo] == s[w.lo];
      } else if k == m {
        if !JoinsWithin(s, open.lo, n - 1) {
          BoundedWindowSpan(p, k);
          assert BoundedWindows(s)[k] == open;
          assert p[open.hi - 1] == s[open.hi - 1] && p[open.lo] == s[open.lo];
        }
      }
    }
  }

  /** With the bounded test the registers of the wide-window example are read apart, in two reads of 125 and 10 words. */
  lemma WideWindowSplit()
    ensures var s := [Register("a", 0, 125, UInt16, true), Register("b", 125, 10, UInt16, true)];
      BoundedWindows(s) == [Window(0, 1), Window(1, 2)]
  {
    var s := [Register("a", 0, 125, UInt16, true), Register("b", 125, 10, UInt16, true)];
    assert s[..1] == [s[0]];
    assert !JoinsWithin(s, 0, 1);
  }

  // ---------------------------------------------------------------------
  // Windows of the synchronous device

  /** The loop state of the synchronous planner before iteration `i`: the windows read so far, and the open window's start. */
  datatype SyncState = SyncState(closed: seq<Window>, start: nat)

  /**
   * The synchronous loop also closes the open window when the index reaches
   * the last position, and it has no read after the loop.
   */
  function SyncScan(s: seq<Register>, i: nat): (st: SyncState)
    requires 1 <= i <= |s|
    ensures st.start < i
    decreases i
  {
    if i == 1 then SyncState([], 0)
    else
      var prev := SyncScan(s, i - 1);
      var j := i - 1;
      if !Joins(s, prev.start, j) || j == |s| - 1 then SyncState(prev.closed + [Window(prev.start, j)], j)
      else prev
  }

  /** The windows the synchronous `read_register` reads for the sorted list `s`. */
  function SyncWindows(s: seq<Register>): seq<Window>
  {
    if |s| <= 1 then [] else SyncScan(s, |s|).closed
  }

  /** One step of the synchronous scan that closes the open window: the window is appended and the next one opens at `i`. */
  lemma SyncScanCloses(s: seq<Register>, i: nat, closed: seq<Window>, start: nat)
    requires 1 <= i < |s| && SyncScan(s, i) == SyncState(closed, start)
    requires !Joins(s, start, i) || i == |s| - 1
    ensures SyncScan(s, i + 1) == SyncState(closed + [Window(start, i)], i)
  {
  }

  /** Before its last step, the synchronous scan is in the state the asynchronous planner has on the prefix. */
  lemma {:induction false} SyncScanAgrees(s: seq<Register>, i: nat)
    requires 1 <= i < |s|
    ensures Windows(s[..i]) == SyncScan(s, i).closed + [Window(SyncScan(s, i).start, i)]
  {
    if i > 1 {
      SyncScanAgrees(s, i - 1);
      var st := SyncScan(s, i - 1);
      var p := s[..i];
      assert p[..i - 1] == s[..i - 1];
      WindowsStep(p, st.closed, st.start);
      JoinsOfPrefix(s, i, st.start, i - 1);
    } else {
      assert s[..1] == [s[0]];
    }
  }

  /**
   * The synchronous planner reads exactly the windows the asynchronous one
   * reads for the list without its last register: the last register in
   * address order is never read, and a list of one reads nothing.
   */
  lemma SyncDropsLast(s: seq<Register>)
    ensures |s| <= 1 ==> SyncWindows(s) == []
    ensures |s| >= 2 ==> SyncWindows(s) == Windows(s[..|s| - 1])
  {
    if |s| >= 2 {
      SyncScanAgrees(s, |s| - 1);
    }
  }

  /** The windows the synchronous loop has closed before iteration `i` are the first windows it reads. */
  lemma SyncClosedPrefix(s: seq<Register>, i: nat)
    requires 2 <= |s| && 1 <= i <= |s|
    ensures |SyncScan(s, i).closed| <= |SyncWindows(s)|
    ensures SyncWindows(s)[..|SyncScan(s, i).closed|] == SyncScan(s, i).closed
  {
    var n := |s|;
    var st := SyncScan(s, i);
    if i < n {
      var p := s[..n - 1];
      SyncScanAgrees(s, i);
      SyncDropsLast(s);
      if i < n - 1 {
        assert p[..i] == s[..i];
        WindowsPrefix(p, i, st.closed, st.start);
      } else {
        assert p == s[..i];
        assert Windows(p)[..|st.closed|] == st.closed;
      }
    } else {
      assert SyncWindows(s)[..|st.closed|] == SyncWindows(s);
    }
  }
}
