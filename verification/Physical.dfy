/** Page-frame management: the page-table reserve, the kernel limit, and the two free lists
that `init` fills (os/kernel/src/memory/physical.rs:11-124). */
module Physical {
  import opened Ranges
  import opened PhysMemory
  import opened FreeLists
  import BlockLists
  import FramePool
  import opened InitLists

  // --- the page-table reserve -------------------------------------------------------------

  function AlignUp(x: nat, a: nat): nat
    requires a > 0
  {
    (x + a - 1) / a * a
  }

  /** The number of frames set aside for the page tables of one level. */
  function ReserveAt(physLimit: nat, level: nat): nat {
    if level == 0 then AlignUp(physLimit * PAGE_SIZE, 0x200000) / PAGE_SIZE / 512
    else
      var size := ReserveAt(physLimit, level - 1) / 512;
      if size == 0 then 1 else size
  }

  function ReserveFrames(physLimit: nat, levels: nat): nat {
    if levels == 0 then 0 else ReserveFrames(physLimit, levels - 1) + ReserveAt(physLimit, levels - 1)
  }

  /** Bytes set aside for the tables that map all of physical memory. */
  method CalcPageTableMemory(physLimit: nat, levels: nat) returns (neededMemory: nat)
    ensures neededMemory == ReserveFrames(physLimit, levels) * PAGE_SIZE
  {
    hide AlignUp, ReserveFrames, ReserveAt;
    var availableMemory := AlignUp(physLimit * PAGE_SIZE, 0x200000);
    ReserveStart(physLimit);
    var pageTableSizes: seq<nat> := [];
    for level := 0 to levels
      invariant |pageTableSizes| == level
      invariant forall l :: 0 <= l < level ==> pageTableSizes[l] == ReserveAt(physLimit, l)
    {
      var size;
      if level == 0 {
        size := availableMemory / PAGE_SIZE / 512;
      } else {
        ReserveNext(physLimit, level);
        size := pageTableSizes[level - 1] / 512;
        if size == 0 {
          size := 1;
        }
      }
      pageTableSizes := pageTableSizes + [size];
    }
    var sum := 0;
    NoReserve(physLimit);
    for level := 0 to levels
      invariant sum == ReserveFrames(physLimit, level)
    {
      OneMoreLevel(physLimit, level);
      sum := sum + pageTableSizes[level];
    }
    neededMemory := sum * PAGE_SIZE;
  }

  lemma ReserveStart(physLimit: nat)
    ensures ReserveAt(physLimit, 0) == AlignUp(physLimit * PAGE_SIZE, 0x200000) / PAGE_SIZE / 512
  {
  }

  lemma ReserveNext(physLimit: nat, level: nat)
    requires level > 0
    ensures var size := ReserveAt(physLimit, level - 1) / 512;
      ReserveAt(physLimit, level) == if size == 0 then 1 else size
  {
  }

  lemma NoReserve(physLimit: nat)
    ensures ReserveFrames(physLimit, 0) == 0
  {
  }

  lemma OneMoreLevel(physLimit: nat, level: nat)
    ensures ReserveFrames(physLimit, level + 1) == ReserveFrames(physLimit, level) + ReserveAt(physLimit, level)
  {
  }

  /** How many tables of one level it takes to map `n` pages from page 0 on. */
  function TablesFor(n: nat, level: nat): nat {
    if level == 0 then n else (TablesFor(n, level - 1) + 511) / 512
  }

  /** All tables of a four-level space that maps pages [0, n), its root included. */
  function TablesNeeded(n: nat): nat {
    TablesFor(n, 1) + TablesFor(n, 2) + TablesFor(n, 3) + 1
  }

  const PAGES := 512 * 512 * 512 * 512

  /** One frame is missing for each level at which a table is only partly filled and is not
      the only one of its level: the sizes are rounded down where they should be rounded up. */
  function Shortfall(n: nat): nat {
    var t := TablesFor(n, 1);
    (if t > 512 && t % 512 != 0 then 1 else 0) + (if t > 512 * 512 && t % (512 * 512) != 0 then 1 else 0)
  }

  lemma ReserveShortfall(n: nat)
    requires 0 < n <= PAGES
    ensures ReserveFrames(n, 4) + Shortfall(n) == TablesNeeded(n)
  {
    var a, b, c, d := ReserveAt(n, 0), ReserveAt(n, 1), ReserveAt(n, 2), ReserveAt(n, 3);
    var t1, t2, t3 := TablesFor(n, 1), TablesFor(n, 2), TablesFor(n, 3);
    FirstLevel(n);
    assert ReserveFrames(n, 1) == ReserveFrames(n, 0) + a;
    assert ReserveFrames(n, 2) == a + b;
    assert ReserveFrames(n, 4) == ReserveFrames(n, 2) + c + d;
    assert t1 <= 512 * 512 * 512;
    SecondLevel(a);
    ThirdLevel(a);
  }

  lemma FirstLevel(n: nat)
    ensures ReserveAt(n, 0) == TablesFor(n, 1) == (n + 511) / 512
  {
    var q := (n * 4096 + 0x200000 - 1) / 0x200000;
    assert AlignUp(n * PAGE_SIZE, 0x200000) == q * 0x200000;
    assert q * 0x200000 / 4096 == q * 512;
    assert q == (n + 511) / 512;
    assert TablesFor(n, 0) == n;
  }

  lemma SecondLevel(a: nat)
    requires 0 < a
    ensures (if a / 512 == 0 then 1 else a / 512) + (if a > 512 && a % 512 != 0 then 1 else 0) == (a + 511) / 512
  {
  }

  lemma ThirdLevel(a: nat)
    requires 0 < a <= 512 * 512 * 512
    ensures var b := if a / 512 == 0 then 1 else a / 512;
      var c := if b / 512 == 0 then 1 else b / 512;
      && c + (if a > 512 * 512 && a % (512 * 512) != 0 then 1 else 0) == ((a + 511) / 512 + 511) / 512
      && (if c / 512 == 0 then 1 else c / 512) == 1
  {
    Quotients(a);
    Quotients(a + 512 * 512 - 1);
    assert (a + 511) / 512 + 511 == (a + 512 * 512 - 1) / 512;
  }

  /** Dividing twice. */
  lemma Quotients(a: nat)
    ensures a / 512 / 512 == a / (512 * 512)
    ensures a == 512 * 512 * (a / (512 * 512)) + a % (512 * 512) && a % (512 * 512) < 512 * 512
  {
    var q := a / 512;
    assert a == 512 * q + a % 512 && q == 512 * (q / 512) + q % 512;
  }

  /** The reserve covers the tables exactly when every level is either a single table or
      completely filled. It never exceeds them and misses them by two frames at most. */
  lemma ReserveSufficesExactlyWhen(n: nat)
    requires 0 < n <= PAGES
    ensures TablesNeeded(n) - 2 <= ReserveFrames(n, 4) <= TablesNeeded(n)
    ensures ReserveFrames(n, 4) == TablesNeeded(n)
       <==> var t := TablesFor(n, 1);
            t <= 512 || (t % 512 == 0 && (t <= 512 * 512 || t % (512 * 512) == 0))
  {
    ReserveShortfall(n);
  }

  /** It falls short from 513 groups of 512 pages on: one level-2 table is reserved where two are
      needed. */
  lemma ReserveFallsShort()
    ensures ReserveFrames(513 * 512, 4) + 1 == TablesNeeded(513 * 512)
  {
    ReserveShortfall(513 * 512);
    assert TablesFor(513 * 512, 1) == TablesFor(513, 0) == 513;
  }

  // --- regions ----------------------------------------------------------------------------

  function InsertByStart(r: Range, rs: seq<Range>): seq<Range> {
    if rs == [] || r.start <= rs[0].start then [r] + rs else [rs[0]] + InsertByStart(r, rs[1..])
  }

  /** `sort_by` on the start frames: a stable sort. */
  function SortByStart(rs: seq<Range>): seq<Range> {
    if rs == [] then [] else InsertByStart(rs[0], SortByStart(rs[1..]))
  }

  ghost predicate StartsSorted(rs: seq<Range>) {
    forall i, j :: 0 <= i < j < |rs| ==> rs[i].start <= rs[j].start
  }

  lemma {:induction false} InsertByStartMembers(r: Range, rs: seq<Range>)
    ensures multiset(InsertByStart(r, rs)) == multiset(rs) + multiset{r}
  {
    if rs != [] && r.start > rs[0].start {
      InsertByStartMembers(r, rs[1..]);
      assert rs == [rs[0]] + rs[1..];
    }
  }

  lemma {:induction false} InsertByStartSorts(r: Range, rs: seq<Range>)
    requires StartsSorted(rs)
    ensures StartsSorted(InsertByStart(r, rs))
  {
    if rs != [] && r.start > rs[0].start {
      InsertByStartSorts(r, rs[1..]);
      var t := InsertByStart(r, rs[1..]);
      InsertByStartMembers(r, rs[1..]);
      forall j | 0 <= j < |t|
        ensures rs[0].start <= t[j].start
      {
        assert t[j] in multiset(t);
        assert t[j] in rs[1..] || t[j] == r;
      }
    }
  }

  lemma {:induction false} InsertByStartCounts(r: Range, rs: seq<Range>, f: nat)
    ensures Cover(InsertByStart(r, rs), f) == Cover(rs, f) + One(r, f)
    ensures Total(InsertByStart(r, rs)) == Total(rs) + r.Count()
  {
    if rs == [] || r.start <= rs[0].start {
      assert ([r] + rs)[1..] == rs;
    } else {
      InsertByStartCounts(r, rs[1..], f);
      var t := InsertByStart(r, rs[1..]);
      assert ([rs[0]] + t)[1..] == t;
    }
  }

  /** Sorting changes neither the regions nor the frames they hold. */
  lemma {:induction false} SortKeeps(rs: seq<Range>)
    ensures StartsSorted(SortByStart(rs))
    ensures multiset(SortByStart(rs)) == multiset(rs)
    ensures forall f: nat :: Cover(SortByStart(rs), f) == Cover(rs, f)
    ensures Total(SortByStart(rs)) == Total(rs)
  {
    if rs != [] {
      SortKeeps(rs[1..]);
      InsertByStartMembers(rs[0], SortByStart(rs[1..]));
      InsertByStartSorts(rs[0], SortByStart(rs[1..]));
      assert rs == [rs[0]] + rs[1..];
      forall f: nat {
        InsertByStartCounts(rs[0], SortByStart(rs[1..]), f);
      }
      InsertByStartCounts(rs[0], SortByStart(rs[1..]), 0);
    }
  }

  lemma {:induction false} InsertByStartBelow(r: Range, rs: seq<Range>, limit: nat)
    ensures Below(InsertByStart(r, rs), limit) == Below(rs, limit) + Lower(r, limit).Count()
  {
    if rs == [] || r.start <= rs[0].start {
      assert ([r] + rs)[1..] == rs;
    } else {
      InsertByStartBelow(r, rs[1..], limit);
      var t := InsertByStart(r, rs[1..]);
      assert ([rs[0]] + t)[1..] == t;
    }
  }

  lemma {:induction false} SortBelow(rs: seq<Range>, limit: nat)
    ensures Below(SortByStart(rs), limit) == Below(rs, limit)
  {
    if rs != [] {
      SortBelow(rs[1..], limit);
      InsertByStartBelow(rs[0], SortByStart(rs[1..]), limit);
    }
  }

  /** The entries of the list have their nodes inside of physical memory. */
  ghost predicate Entries(rs: seq<Range>, size: nat) {
    forall i :: 0 <= i < |rs| ==> Entry(rs[i]) && rs[i].start < size && rs[i].end < size
  }

  /** `x` may stand before `y` in the list: an entry without frames does not start inside of a
      region, and not at the start of one that stands before it. */
  predicate MayPrecede(x: Range, y: Range) {
    && (y.Count() == 0 ==> !x.Has(y.start))
    && (x.Count() == 0 && y.Has(x.start) ==> x.start == y.start)
  }

  ghost predicate Untangled(rs: seq<Range>) {
    forall i, j :: 0 <= i < j < |rs| ==> MayPrecede(rs[i], rs[j])
  }

  /** What the boot code hands to `init`: regions that do not overlap, avoid frame 0 and end inside
      of physical memory, and entries without frames for areas shorter than a page. */
  ghost predicate Regions(rs: seq<Range>, size: nat) {
    Entries(rs, size) && Untangled(rs) && forall f: nat :: Cover(rs, f) <= 1
  }

  /** Each entry starts behind the frames of those before it. */
  ghost predicate Stacked(rs: seq<Range>) {
    forall i, j :: 0 <= i < j < |rs| ==> rs[i].start + rs[i].Count() <= rs[j].start
  }

  /** Sorted, and an entry without frames stands before a region that starts there. */
  ghost predicate InOrder(rs: seq<Range>) {
    forall i, j :: 0 <= i < j < |rs| ==> rs[i].start <= rs[j].start && (rs[j].Count() == 0 ==> !rs[i].Has(rs[j].start))
  }

  /** `sort_by` is stable, so that entries which may precede others still do so. */
  lemma {:induction false} InsertInOrder(r: Range, rs: seq<Range>)
    requires InOrder(rs) && forall i :: 0 <= i < |rs| ==> MayPrecede(r, rs[i])
    ensures InOrder(InsertByStart(r, rs))
  {
    if rs != [] && r.start > rs[0].start {
      InsertInOrder(r, rs[1..]);
      var t := InsertByStart(r, rs[1..]);
      InsertByStartMembers(r, rs[1..]);
      forall j | 0 <= j < |t|
        ensures rs[0].start <= t[j].start && (t[j].Count() == 0 ==> !rs[0].Has(t[j].start))
      {
        assert t[j] in multiset(t);
        assert t[j] in rs[1..] || t[j] == r;
      }
      HeadInOrder(rs[0], t);
    } else {
      SortedFromHead(r, rs);
      HeadInOrder(r, rs);
    }
  }

  lemma SortedFromHead(r: Range, rs: seq<Range>)
    requires InOrder(rs) && (rs == [] || r.start <= rs[0].start)
    ensures forall i :: 0 <= i < |rs| ==> r.start <= rs[i].start
  {
  }

  lemma HeadInOrder(x: Range, rs: seq<Range>)
    requires InOrder(rs)
    requires forall j :: 0 <= j < |rs| ==> x.start <= rs[j].start && (rs[j].Count() == 0 ==> !x.Has(rs[j].start))
    ensures InOrder([x] + rs)
  {
    var all := [x] + rs;
    assert forall i :: 0 <= i < |all| ==> all[i] == if i == 0 then x else rs[i - 1];
  }

  lemma {:induction false} SortInOrder(rs: seq<Range>)
    requires Untangled(rs)
    ensures InOrder(SortByStart(rs))
  {
    if rs != [] {
      var t := SortByStart(rs[1..]);
      UntangledTail(rs);
      SortInOrder(rs[1..]);
      SortKeeps(rs[1..]);
      forall i | 0 <= i < |t|
        ensures MayPrecede(rs[0], t[i])
      {
        assert t[i] in multiset(t);
        assert t[i] in rs[1..];
      }
      InsertInOrder(rs[0], t);
    }
  }

  lemma UntangledTail(rs: seq<Range>)
    requires Untangled(rs) && rs != []
    ensures Untangled(rs[1..]) && forall x :: x in rs[1..] ==> MayPrecede(rs[0], x)
  {
    forall x | x in rs[1..]
      ensures MayPrecede(rs[0], x)
    {
      var j :| 0 <= j < |rs[1..]| && rs[1..][j] == x;
      assert rs[j + 1] == x;
    }
  }

  lemma SortedRegions(rs: seq<Range>, size: nat)
    requires Regions(rs, size)
    ensures Entries(SortByStart(rs), size) && Stacked(SortByStart(rs))
  {
    hide SortByStart, Stacked, InOrder, Entries, Untangled;
    SortKeeps(rs);
    SortInOrder(rs);
    SameEntries(rs, SortByStart(rs), size);
    DisjointIsStacked(SortByStart(rs));
  }

  lemma SameEntries(a: seq<Range>, b: seq<Range>, size: nat)
    requires Entries(a, size) && multiset(a) == multiset(b)
    ensures Entries(b, size)
  {
    forall i | 0 <= i < |b|
      ensures b[i] in a
    {
      assert b[i] in multiset(b);
    }
  }

  lemma DisjointIsStacked(rs: seq<Range>)
    requires InOrder(rs) && forall f: nat :: Cover(rs, f) <= 1
    ensures Stacked(rs)
  {
    forall i, j | 0 <= i < j < |rs|
      ensures rs[i].start + rs[i].Count() <= rs[j].start
    {
      if rs[i].Has(rs[j].start) {
        CoverOnceIsDisjoint(rs, i, j, rs[j].start);
      }
    }
  }

  // --- the kernel limit -------------------------------------------------------------------

  lemma {:induction false} BelowAll(rs: seq<Range>, limit: nat)
    requires forall i :: 0 <= i < |rs| ==> rs[i].end <= limit
    ensures Below(rs, limit) == Total(rs)
  {
    if rs != [] {
      BelowAll(rs[1..], limit);
    }
  }

  lemma {:induction false} BelowNone(rs: seq<Range>, limit: nat)
    requires forall i :: 0 <= i < |rs| ==> limit <= rs[i].start
    ensures Below(rs, limit) == 0
  {
    if rs != [] {
      BelowNone(rs[1..], limit);
    }
  }

  lemma {:induction false} BelowMonotone(rs: seq<Range>, a: nat, b: nat)
    requires a <= b
    ensures Below(rs, a) <= Below(rs, b)
  {
    if rs != [] {
      BelowMonotone(rs[1..], a, b);
    }
  }

  /** The end of the highest region. */
  function MaxEnd(rs: seq<Range>): nat {
    if rs == [] then 0
    else if rs[0].end > MaxEnd(rs[1..]) then rs[0].end else MaxEnd(rs[1..])
  }

  /** No region ends behind `limit`, and one ends there. */
  ghost predicate IsHighestEnd(rs: seq<Range>, limit: nat) {
    (forall r :: r in rs ==> r.end <= limit) && exists r :: r in rs && r.end == limit
  }

  lemma {:induction false} MaxEndIsHighest(rs: seq<Range>)
    requires rs != []
    ensures IsHighestEnd(rs, MaxEnd(rs))
  {
    if |rs| == 1 {
      assert rs[0] in rs;
    } else {
      MaxEndIsHighest(rs[1..]);
      var r :| r in rs[1..] && r.end == MaxEnd(rs[1..]);
      assert r in rs && rs[0] in rs;
      assert forall x :: x in rs ==> x == rs[0] || x in rs[1..];
    }
  }

  /** Every frame of the regions lies below the highest end. */
  lemma CoveredBelowHighest(rs: seq<Range>, limit: nat, f: nat)
    requires IsHighestEnd(rs, limit) && Cover(rs, f) > 0
    ensures f < limit
  {
    var i := CoverWitness(rs, f);
    assert rs[i] in rs;
  }

  /** The limit lies behind the start of a region and no further than its end. */
  ghost predicate ReachesInto(rs: seq<Range>, limit: nat) {
    exists r :: r in rs && r.start < limit <= r.end
  }

  /** `limit` lies at or above the end of the heap and leaves the reserve below it, and not
      more than the reserve unless the heap ends there. In that case it lies in a region or
      at its end, behind the last frame of the reserve. */
  ghost predicate LimitFor(rs: seq<Range>, kernelHeapEnd: nat, limit: nat) {
    var reserve := ReserveFrames(MaxEnd(rs), 4);
    && limit >= kernelHeapEnd
    && Below(rs, limit) >= reserve
    && (limit == kernelHeapEnd || (Below(rs, limit) == reserve && ReachesInto(rs, limit)))
  }

  lemma {:induction false} BelowGrows(rs: seq<Range>, r: Range, a: nat, b: nat)
    requires r in rs && a < b && r.start < b <= r.end
    ensures Below(rs, a) < Below(rs, b)
  {
    if r == rs[0] {
      BelowMonotone(rs[1..], a, b);
    } else {
      BelowGrows(rs[1..], r, a, b);
    }
  }

  lemma LimitIsLeast(rs: seq<Range>, kernelHeapEnd: nat, a: nat, b: nat)
    requires LimitFor(rs, kernelHeapEnd, a) && LimitFor(rs, kernelHeapEnd, b)
    ensures a >= b
  {
    if a < b {
      var r :| r in rs && r.start < b <= r.end;
      BelowGrows(rs, r, a, b);
    }
  }

  /** There is one such limit only. */
  lemma LimitUnique(rs: seq<Range>, kernelHeapEnd: nat, a: nat, b: nat)
    requires LimitFor(rs, kernelHeapEnd, a) && LimitFor(rs, kernelHeapEnd, b)
    ensures a == b
  {
    LimitIsLeast(rs, kernelHeapEnd, a, b);
    LimitIsLeast(rs, kernelHeapEnd, b, a);
  }

  /** The end of the first `n` frames of sorted regions. */
  function ReserveEnd(rs: seq<Range>, n: nat): nat {
    if rs == [] then 0
    else if rs[0].Count() >= n then rs[0].start + n
    else ReserveEnd(rs[1..], n - rs[0].Count())
  }

  /** The limit, from nothing but the regions and the end of the heap. */
  function KernelLimit(rs: seq<Range>, kernelHeapEnd: nat): nat {
    var end := ReserveEnd(SortByStart(rs), ReserveFrames(MaxEnd(rs), 4));
    if end < kernelHeapEnd then kernelHeapEnd else end
  }

  lemma {:induction false} ReserveEndReaches(rs: seq<Range>, n: nat)
    requires Stacked(rs) && 0 < n <= Total(rs)
    ensures Below(rs, ReserveEnd(rs, n)) == n && ReachesInto(rs, ReserveEnd(rs, n))
  {
    if rs[0].Count() >= n {
      assert rs[0].start < rs[0].start + n <= rs[0].end;
      BelowNone(rs[1..], rs[0].start + n);
    } else {
      ReserveEndReaches(rs[1..], n - rs[0].Count());
      var limit := ReserveEnd(rs[1..], n - rs[0].Count());
      var r :| r in rs[1..] && r.start < limit <= r.end;
      assert r in rs;
    }
  }

  lemma KernelLimitIs(rs: seq<Range>, kernelHeapEnd: nat, size: nat)
    requires Regions(rs, size) && Total(rs) >= ReserveFrames(MaxEnd(rs), 4)
    ensures LimitFor(rs, kernelHeapEnd, KernelLimit(rs, kernelHeapEnd))
  {
    var sorted, n := SortByStart(rs), ReserveFrames(MaxEnd(rs), 4);
    SortKeeps(rs);
    SortedRegions(rs, size);
    assert n > 0;
    ReserveEndReaches(sorted, n);
    var end := ReserveEnd(sorted, n);
    SortBelow(rs, end);
    SameReach(rs, sorted, end);
    if end < kernelHeapEnd {
      BelowMonotone(rs, end, kernelHeapEnd);
    }
  }

  lemma SameReach(a: seq<Range>, b: seq<Range>, limit: nat)
    requires multiset(a) == multiset(b)
    ensures ReachesInto(a, limit) <==> ReachesInto(b, limit)
  {
    assert forall r :: r in a <==> r in multiset(a);
    assert forall r :: r in b <==> r in multiset(b);
  }

  /** The limit below which the kernel owns physical memory: as many frames of the lowest
      regions as the page tables need, and at least everything up to the end of the heap.
      `None` where the kernel stops because there is not enough memory. */
  method CalcKernelLimit(regions: seq<Range>, pageTableMemory: nat, kernelHeapEnd: nat) returns (r: Option<nat>)
    requires Stacked(regions)
    requires pageTableMemory % PAGE_SIZE == 0
    ensures r.None? <==> Total(regions) * PAGE_SIZE < pageTableMemory
    ensures r.Some? ==> r.value >= kernelHeapEnd && Below(regions, r.value) * PAGE_SIZE >= pageTableMemory
    ensures r.Some? ==>
      || r.value == kernelHeapEnd
      || (Below(regions, r.value) * PAGE_SIZE == pageTableMemory && ReachesInto(regions, r.value))
  {
    var kernelPhysLimit: nat := kernelHeapEnd;
    var availableKernelMemory := 0;
    var i := 0;
    ghost var needed := pageTableMemory / PAGE_SIZE;
    ghost var reached: nat := 0;
    hide Stacked, Below, ReachesInto, Total;
    NoneReached(regions);
    while availableKernelMemory < pageTableMemory
      invariant 0 <= i <= |regions| && availableKernelMemory == reached * PAGE_SIZE
      invariant LimitSoFar(regions, i, needed, reached, kernelPhysLimit, kernelHeapEnd)
      decreases |regions| - i
    {
      var requiredMemory := pageTableMemory - availableKernelMemory;
      if i == |regions| {
        AllReached(regions, needed, reached, kernelPhysLimit, kernelHeapEnd);
        return None;
      }
      var region := regions[i];
      OneMoreRegion(regions, i, needed, reached, kernelPhysLimit, kernelHeapEnd);
      if region.Count() * PAGE_SIZE >= requiredMemory {
        availableKernelMemory := availableKernelMemory + requiredMemory;
        kernelPhysLimit := region.start + requiredMemory / PAGE_SIZE;
        reached := needed;
      } else {
        availableKernelMemory := availableKernelMemory + region.Count() * PAGE_SIZE;
        kernelPhysLimit := region.end;
        reached := reached + region.Count();
      }
      i := i + 1;
    }
    LimitReached(regions, i, needed, reached, kernelPhysLimit, kernelHeapEnd);

    // the heap may end behind the reserve, and more frames are below the limit then
    if kernelPhysLimit < kernelHeapEnd {
      BelowMonotone(regions, kernelPhysLimit, kernelHeapEnd);
      kernelPhysLimit := kernelHeapEnd;
    }
    return Some(kernelPhysLimit);
  }

  /** The limit after `i` regions, in frames: `reached` of the frames needed lie below it. */
  ghost predicate LimitSoFar(rs: seq<Range>, i: nat, needed: nat, reached: nat, limit: nat, kernelHeapEnd: nat) {
    && i <= |rs| && reached <= needed
    && reached <= Total(rs[..i]) && (reached < needed ==> reached == Total(rs[..i]))
    && (i == 0 ==> limit == kernelHeapEnd && reached == 0)
    && (i > 0 && reached == needed ==> ReachesInto(rs, limit) && Below(rs, limit) == reached)
  }

  lemma NoneReached(rs: seq<Range>)
    ensures Total(rs[..0]) == 0
  {
  }

  lemma AllReached(rs: seq<Range>, needed: nat, reached: nat, limit: nat, kernelHeapEnd: nat)
    requires LimitSoFar(rs, |rs|, needed, reached, limit, kernelHeapEnd) && reached < needed
    ensures Total(rs) < needed
  {
    assert rs[..|rs|] == rs;
  }

  lemma OneMoreRegion(rs: seq<Range>, i: nat, needed: nat, reached: nat, limit: nat, kernelHeapEnd: nat)
    requires LimitSoFar(rs, i, needed, reached, limit, kernelHeapEnd) && reached < needed && i < |rs|
    requires Stacked(rs)
    ensures var n := rs[i].Count();
      if n >= needed - reached
      then LimitSoFar(rs, i + 1, needed, needed, rs[i].start + (needed - reached), kernelHeapEnd)
      else LimitSoFar(rs, i + 1, needed, reached + n, rs[i].end, kernelHeapEnd)
  {
    PrefixTotals(rs, i);
    if rs[i].Count() >= needed - reached {
      BelowInside(rs, i, rs[i].start + (needed - reached));
    }
    hide Stacked, Below, Total;
    assert rs[i] in rs;
  }

  lemma LimitReached(rs: seq<Range>, i: nat, needed: nat, reached: nat, limit: nat, kernelHeapEnd: nat)
    requires LimitSoFar(rs, i, needed, reached, limit, kernelHeapEnd) && reached == needed
    ensures needed <= Total(rs)
    ensures limit == kernelHeapEnd || (Below(rs, limit) == needed && ReachesInto(rs, limit))
    ensures i == 0 ==> needed == 0
    ensures Below(rs, limit) >= needed
  {
    PrefixTotalBound(rs, i);
  }

  lemma PrefixTotals(rs: seq<Range>, i: nat)
    requires i < |rs|
    ensures Total(rs[..i + 1]) == Total(rs[..i]) + rs[i].Count()
  {
    assert rs[..i + 1] == rs[..i] + [rs[i]];
    TotalConcat(rs[..i], [rs[i]]);
    assert [rs[i]][1..] == [];
  }

  lemma PrefixTotalBound(rs: seq<Range>, i: nat)
    requires i <= |rs|
    ensures Total(rs[..i]) <= Total(rs)
  {
    assert rs == rs[..i] + rs[i..];
    TotalConcat(rs[..i], rs[i..]);
  }

  /** A limit inside region `i` has all earlier regions below it and no later one. */
  lemma BelowInside(rs: seq<Range>, i: nat, limit: nat)
    requires Stacked(rs) && i < |rs| && rs[i].start < limit <= rs[i].end
    ensures Below(rs, limit) == Total(rs[..i]) + (limit - rs[i].start)
  {
    assert rs == rs[..i] + ([rs[i]] + rs[i + 1..]);
    BelowConcat(rs[..i], [rs[i]] + rs[i + 1..], limit);
    BelowConcat([rs[i]], rs[i + 1..], limit);
    forall j | 0 <= j < i
      ensures rs[..i][j].end <= limit
    {
      assert rs[j].start + rs[j].Count() <= rs[i].start;
    }
    BelowAll(rs[..i], limit);
    forall j | i + 1 <= j < |rs|
      ensures limit <= rs[j].start
    {
      assert rs[i].start + rs[i].Count() <= rs[j].start;
    }
    BelowNone(rs[i + 1..], limit);
    assert [rs[i]][1..] == [];
  }

  // --- both lists in one memory -----------------------------------------------------------

  class PhysicalMemory {
    const mem: array<PageFrame>
    const kernel: PageFrameListAllocator
    const user: PageFrameListAllocator
    var physLimit: Option<nat>
    var kernelPhysLimit: Option<nat>

    /** The state of both lists, together with the ranges that callers hold. */
    ghost function Pool(live: seq<Range>): FramePool.Pool
      reads this, kernel, user
    {
      FramePool.Pool(kernel.blocks, user.blocks,
                     if kernelPhysLimit.Some? then kernelPhysLimit.value else 1, mem.Length, live)
    }

    ghost predicate Valid()
      reads this, mem, kernel, user
    {
      && kernel != user && kernel.mem == mem && user.mem == mem
      && kernel.Valid() && user.Valid()
      && FramePool.WellFormed(Pool([]))
    }

    constructor (size: nat)
      requires size > 0
      ensures Valid() && fresh(mem) && fresh(kernel) && fresh(user)
      ensures mem.Length == size && kernelPhysLimit == None && physLimit == None
      ensures kernel.blocks == [] && user.blocks == []
    {
      var m := new PageFrame[size](_ => ZeroFrame());
      mem := m;
      kernel := new PageFrameListAllocator(m);
      user := new PageFrameListAllocator(m);
      physLimit := None;
      kernelPhysLimit := None;
    }

    /** `alloc` is a step of the pool. It stops the kernel where the step is not possible. */
    method Alloc(frameCount: nat, space: FramePool.Space) returns (r: Option<Range>)
      requires Valid()
      modifies mem, kernel, user
      ensures Valid()
      ensures FramePool.Step(FramePool.AsWritten, old(Pool([])), FramePool.Alloc(frameCount, space))
        == if r.None? then None else Some(Pool(if frameCount > 0 then [r.value] else []))
      ensures r.None? ==> Pool([]) == old(Pool([])) && mem[..] == old(mem[..])
      ensures r.Some? ==> r.value.end == r.value.start + frameCount <= mem.Length
      ensures r.Some? && frameCount > 0 ==> var list := FramePool.ListOf(old(Pool([])), space);
        StaleNode(mem[r.value.start], list[BlockLists.FirstFit(list, frameCount)].Count())
      ensures WritesNodesIn(old(mem[..]), mem[..], FramePool.ListOf(old(Pool([])), space))
    {
      ghost var p := Pool([]);
      ListsApart(p);
      match space {
        case Kernel =>
          r := kernel.AllocBlock(frameCount);
          ListUntouched(old(mem[..]), mem[..], user.head.next, user.blocks, p.kernel);
          FramePool.StepAllocates(p, frameCount, space, r, kernel.blocks);
        case User =>
          r := user.AllocBlock(frameCount);
          ListUntouched(old(mem[..]), mem[..], kernel.head.next, kernel.blocks, p.user);
          FramePool.StepAllocates(p, frameCount, space, r, user.blocks);
      }
    }

    /** `alloc(1, space)`, as the paging code calls it. */
    method AllocFrame(space: FramePool.Space) returns (r: Option<Range>)
      requires Valid()
      modifies mem, kernel, user
      ensures Valid() && FramePool.GrantsOne(old(Pool([])), space, r, Pool([]))
      ensures r.Some? ==> StaleNode(mem[r.value.start], RunFrom(FramePool.ListOf(old(Pool([])), space), r.value.start))
      ensures WritesNodesIn(old(mem[..]), mem[..], FramePool.ListOf(old(Pool([])), space))
    {
      ghost var p := Pool([]);
      r := Alloc(1, space);
      FramePool.StepGrantsOne(p, space, r, Pool([]));
    }

    /** The owner of a frame writes to it: the lists notice nothing. */
    method WriteFrame(f: nat, words: PageFrame)
      requires Valid() && f < mem.Length
      requires !Footprint(kernel.blocks, f) && !Footprint(user.blocks, f)
      modifies mem
      ensures Valid() && mem[..] == old(mem[..])[f := words]
    {
      mem[f] := words;
      ListUnwritten(old(mem[..]), mem[..], kernel.head.next, kernel.blocks, f);
      ListUnwritten(old(mem[..]), mem[..], user.head.next, user.blocks, f);
    }

    /** `init`. `false` where the kernel stops because there is no region, or no room for the reserve. */
    method Init(regions: seq<Range>, kernelHeapEnd: nat) returns (ok: bool)
      requires Valid() && kernelPhysLimit.None? && kernel.blocks == user.blocks == []
      requires Regions(regions, mem.Length) && 1 <= kernelHeapEnd < mem.Length
      modifies this, mem, kernel, user
      ensures ok <==> regions != [] && Total(regions) >= ReserveFrames(MaxEnd(regions), 4)
      ensures ok ==> Valid() && kernelPhysLimit.Some? && physLimit == Some(MaxEnd(regions))
      ensures ok ==> IsHighestEnd(regions, physLimit.value)
      ensures ok ==> Filled(kernel.blocks, user.blocks, regions, kernelPhysLimit.value, mem.Length)
      ensures ok ==> kernelPhysLimit.value == KernelLimit(regions, kernelHeapEnd)
      ensures ok ==> LimitFor(regions, kernelHeapEnd, kernelPhysLimit.value)
      ensures ok ==> Total(kernel.blocks) >= ReserveFrames(MaxEnd(regions), 4)
      ensures ok ==> WritesInitFrames(old(mem[..]), mem[..], regions, kernelPhysLimit.value)
    {
      hide Regions, Entries, Stacked, Filled, LimitFor, KernelLimit, ReserveFrames, MaxEnd, SortByStart, Below, Total;
      hide WritesInitFrames, EndsAt, InitFrame, LeavesNode, ReachesInto, IsHighestEnd;
      if regions == [] {
        return false;
      }
      MaxEndIsHighest(regions);
      var sorted := SortByStart(regions);
      SortKeeps(regions);
      SortedRegions(regions, mem.Length);
      physLimit := Some(MaxEnd(regions));

      var pageTableMemory := CalcPageTableMemory(physLimit.value, 4);
      var limit := CalcKernelLimit(sorted, pageTableMemory, kernelHeapEnd);
      if limit.None? {
        return false;
      }
      if limit.value != kernelHeapEnd {
        LimitInside(sorted, mem.Length, limit.value);
      }
      kernelPhysLimit := limit;
      FreeRegions(sorted);
      LimitFound(regions, sorted, kernelHeapEnd, limit.value);
      KernelLimitIs(regions, kernelHeapEnd, mem.Length);
      LimitUnique(regions, kernelHeapEnd, limit.value, KernelLimit(regions, kernelHeapEnd));
      FilledSorted(kernel.blocks, user.blocks, regions, sorted, limit.value, mem.Length);
      WrittenSorted(old(mem[..]), mem[..], regions, sorted, limit.value);
      return true;
    }

    /** Free the regions in ascending order, each split where it transcends the kernel limit. */
    method FreeRegions(regions: seq<Range>)
      requires Valid() && kernelPhysLimit.Some? && kernel.blocks == user.blocks == []
      requires kernelPhysLimit.value < mem.Length
      requires Entries(regions, mem.Length) && Stacked(regions)
      modifies mem, kernel, user
      ensures Valid() && Filled(kernel.blocks, user.blocks, regions, kernelPhysLimit.value, mem.Length)
      ensures WritesInitFrames(old(mem[..]), mem[..], regions, kernelPhysLimit.value)
    {
      hide *;
      ghost var frontier: nat := 0;
      NothingFilled(regions, kernelPhysLimit.value, mem[..]);
      for i := 0 to |regions|
        invariant Valid()
        invariant Filled(kernel.blocks, user.blocks, regions[..i], kernelPhysLimit.value, frontier)
        invariant Between(regions, i, frontier, mem.Length)
        invariant WritesInitFrames(old(mem[..]), mem[..], regions, kernelPhysLimit.value)
      {
        FreeNext(regions, i, frontier, old(mem[..]));
        frontier := regions[i].start + regions[i].Count();
      }
      FilledWiden(kernel.blocks, user.blocks, regions, kernelPhysLimit.value, frontier, mem.Length);
    }

    /** One round of the loop. */
    method FreeNext(regions: seq<Range>, i: nat, ghost frontier: nat, ghost m0: seq<PageFrame>)
      requires Valid() && kernelPhysLimit.Some? && kernelPhysLimit.value < mem.Length
      requires Entries(regions, mem.Length) && Stacked(regions)
      requires i < |regions| && Between(regions, i, frontier, mem.Length)
      requires Filled(kernel.blocks, user.blocks, regions[..i], kernelPhysLimit.value, frontier)
      requires WritesInitFrames(m0, mem[..], regions, kernelPhysLimit.value)
      modifies mem, kernel, user
      ensures Valid() && Between(regions, i + 1, regions[i].start + regions[i].Count(), mem.Length)
      ensures Filled(kernel.blocks, user.blocks, regions[..i + 1], kernelPhysLimit.value,
                     regions[i].start + regions[i].Count())
      ensures WritesInitFrames(m0, mem[..], regions, kernelPhysLimit.value)
    {
      hide PhysicalMemory.Valid, Filled, Stacked, Entries, WritesInitFrames, FillKernel, FillUser, Between;
      NextRegion(regions, i, frontier, mem.Length);
      FillStep(kernel.blocks, user.blocks, regions[..i], kernelPhysLimit.value, frontier, regions[i]);
      FreeRegion(regions, i, frontier, m0);
      assert regions[..i] + [regions[i]] == regions[..i + 1];
    }

    method FreeRegion(regions: seq<Range>, i: nat, ghost frontier: nat, ghost m0: seq<PageFrame>)
      requires Valid() && kernelPhysLimit.Some? && kernelPhysLimit.value < mem.Length
      requires i < |regions| && frontier <= regions[i].start < mem.Length && Entry(regions[i])
      requires regions[i].end < mem.Length
      requires Filled(kernel.blocks, user.blocks, regions[..i], kernelPhysLimit.value, frontier)
      requires WritesInitFrames(m0, mem[..], regions, kernelPhysLimit.value)
      modifies mem, kernel, user
      ensures Valid()
      ensures kernel.blocks == FillKernel(old(kernel.blocks), regions[i], kernelPhysLimit.value)
      ensures user.blocks == FillUser(old(user.blocks), regions[i], kernelPhysLimit.value)
      ensures WritesInitFrames(m0, mem[..], regions, kernelPhysLimit.value)
    {
      hide PhysicalMemory.Valid, WritesInitFrames, BlockLists.Free, BlockLists.Behind, InitFrame, Footprint;
      var region := regions[i];
      ghost var limit := kernelPhysLimit.value;
      FillBehind(kernel.blocks, user.blocks, limit, frontier, region);
      FilledFootprint(kernel.blocks, user.blocks, regions, i, limit, frontier);

      if region.start < kernelPhysLimit.value && region.end >= kernelPhysLimit.value {
        var kernelRegion := Range(region.start, kernelPhysLimit.value);
        FreePart(kernelRegion, regions, i, m0);

        // what remains may be empty, and then leaves an empty node
        region := Range(kernelPhysLimit.value, region.end);
      }
      FreePart(region, regions, i, m0);
    }

    /** Free entry `i`, or the part of it on one side of the limit. */
    method FreePart(part: Range, ghost regions: seq<Range>, ghost i: nat, ghost m0: seq<PageFrame>)
      requires Valid() && kernelPhysLimit.Some?
      requires i < |regions| && regions[i].start <= part.start < mem.Length && part.end <= regions[i].end < mem.Length
      requires 1 <= part.start && (part.end <= kernelPhysLimit.value || kernelPhysLimit.value <= part.start)
      requires part.start < part.end || part == regions[i]
        || (part.start == kernelPhysLimit.value && Marks(regions[i], kernelPhysLimit.value))
      requires BlockLists.Behind(if part.start < kernelPhysLimit.value then kernel.blocks else user.blocks, part)
      requires part.start < kernelPhysLimit.value ==>
        forall f: nat :: Footprint(kernel.blocks, f) ==> InitFrame(regions, kernelPhysLimit.value, f)
      requires part.start >= kernelPhysLimit.value ==>
        forall f: nat :: Footprint(user.blocks, f) ==> InitFrame(regions, kernelPhysLimit.value, f)
      requires WritesInitFrames(m0, mem[..], regions, kernelPhysLimit.value)
      modifies mem, kernel, user
      ensures Valid()
      ensures kernel.blocks == if part.start < kernelPhysLimit.value
                               then BlockLists.Free(old(kernel.blocks), part) else old(kernel.blocks)
      ensures user.blocks == if part.start < kernelPhysLimit.value
                             then old(user.blocks) else BlockLists.Free(old(user.blocks), part)
      ensures WritesInitFrames(m0, mem[..], regions, kernelPhysLimit.value)
    {
      hide BlockLists.Free, BlockLists.Freeable, BlockLists.Behind, Footprint, Ascending;
      ghost var blocks := if part.start < kernelPhysLimit.value then kernel.blocks else user.blocks;
      assert blocks == FramePool.ListOf(Pool([]), FramePool.Side(Pool([]), part));
      BlockLists.BehindIsFreeable(blocks, part);
      assert [part][0] == part;
      Free(part);
      PartFootprint(regions, i, kernelPhysLimit.value, part);
      WritesInitArea(m0, old(mem[..]), mem[..], blocks, part, regions, kernelPhysLimit.value);
    }

    /** `free` goes to the list on whose side of the limit the range starts. */
    method Free(frames: Range)
      requires Valid() && kernelPhysLimit.Some?
      requires BlockLists.Freeable(FramePool.ListOf(Pool([]), FramePool.Side(Pool([]), frames)), frames)
      requires Within([frames], FramePool.Lo(Pool([]), FramePool.Side(Pool([]), frames)),
                      FramePool.Hi(Pool([]), FramePool.Side(Pool([]), frames)))
      modifies mem, kernel, user
      ensures Valid()
      ensures var p, space := old(Pool([])), FramePool.Side(old(Pool([])), frames);
        && Pool([]) == FramePool.WithList(p, space, BlockLists.Free(FramePool.ListOf(p, space), frames))
        && WritesNodesIn(old(mem[..]), mem[..], FramePool.ListOf(p, space) + [frames])
    {
      ghost var p := Pool([]);
      ghost var space := FramePool.Side(p, frames);
      assert [frames][0] == frames;
      FramePool.FreeListWellFormed(FramePool.AsWritten, FramePool.ListOf(p, space), frames,
                                   FramePool.Lo(p, space), FramePool.Hi(p, space));
      ListsApartFrom(p, frames);
      FramePool.WithListWellFormed(p, space, BlockLists.Free(FramePool.ListOf(p, space), frames));
      if frames.start < kernelPhysLimit.value {
        kernel.FreeBlock(frames);
        ListUntouched(old(mem[..]), mem[..], user.head.next, user.blocks, p.kernel + [frames]);
      } else {
        user.FreeBlock(frames);
        ListUntouched(old(mem[..]), mem[..], kernel.head.next, kernel.blocks, p.user + [frames]);
      }
    }
  }

  lemma LimitInside(rs: seq<Range>, size: nat, limit: nat)
    requires Entries(rs, size) && ReachesInto(rs, limit)
    ensures 0 < limit < size
  {
    var r :| r in rs && r.start < limit <= r.end;
  }

  lemma LimitFound(regions: seq<Range>, sorted: seq<Range>, kernelHeapEnd: nat, limit: nat)
    requires sorted == SortByStart(regions) && limit >= kernelHeapEnd
    requires var reserve := ReserveFrames(MaxEnd(regions), 4);
      && Below(sorted, limit) * PAGE_SIZE >= reserve * PAGE_SIZE
      && (limit == kernelHeapEnd
          || (Below(sorted, limit) * PAGE_SIZE == reserve * PAGE_SIZE && ReachesInto(sorted, limit)))
    ensures LimitFor(regions, kernelHeapEnd, limit)
    ensures Below(regions, limit) >= ReserveFrames(MaxEnd(regions), 4)
  {
    hide ReserveFrames, MaxEnd, Below, SortByStart, ReachesInto;
    SortBelow(regions, limit);
    SortKeeps(regions);
    SameReach(regions, sorted, limit);
  }

  lemma FilledSorted(kernel: seq<Range>, user: seq<Range>, regions: seq<Range>, sorted: seq<Range>, limit: nat,
                     size: nat)
    requires sorted == SortByStart(regions) && Filled(kernel, user, sorted, limit, size)
    ensures Filled(kernel, user, regions, limit, size) && Total(kernel) == Below(regions, limit)
  {
    hide SortByStart, FilledShape, Below, Total, EndsAt, LeavesNode, Gap, RegionEndsAt, BlockLists.NodeNear;
    SortKeeps(regions);
    SortBelow(regions, limit);
    SameInitFrames(regions, sorted, limit);
    SameGaps(regions, sorted);
  }

  lemma WrittenSorted(m0: seq<PageFrame>, m1: seq<PageFrame>, regions: seq<Range>, sorted: seq<Range>, limit: nat)
    requires sorted == SortByStart(regions) && WritesInitFrames(m0, m1, sorted, limit)
    ensures WritesInitFrames(m0, m1, regions, limit)
  {
    hide SortByStart, InitFrame, EndsAt, LeavesNode;
    SortKeeps(regions);
    SameInitFrames(regions, sorted, limit);
  }

  /** The regions before `i` end at the frontier or before, and the others start there or behind. */
  ghost predicate Between(regions: seq<Range>, i: nat, frontier: nat, size: nat) {
    && frontier < size && i <= |regions|
    && EndBy(regions[..i], frontier)
    && (forall j :: i <= j < |regions| ==> frontier <= regions[j].start)
  }

  lemma NothingFilled(regions: seq<Range>, limit: nat, m: seq<PageFrame>)
    ensures Filled([], [], regions[..0], limit, 0) && WritesInitFrames(m, m, regions, limit)
    ensures |m| > 0 ==> Between(regions, 0, 0, |m|)
  {
  }

  lemma NextRegion(regions: seq<Range>, i: nat, frontier: nat, size: nat)
    requires Entries(regions, size) && Stacked(regions) && i < |regions| && Between(regions, i, frontier, size)
    ensures frontier <= regions[i].start < size && regions[i].end < size && Entry(regions[i])
    ensures EndBy(regions[..i], frontier)
    ensures Between(regions, i + 1, regions[i].start + regions[i].Count(), size)
  {
    forall j | i + 1 <= j < |regions|
      ensures regions[i].start + regions[i].Count() <= regions[j].start
    {
    }
    var done := regions[..i + 1];
    forall j | 0 <= j < |done|
      ensures done[j].start + done[j].Count() <= regions[i].start + regions[i].Count()
    {
      assert j < i ==> regions[..i][j] == done[j];
    }
  }

  lemma FilledWiden(kernel: seq<Range>, user: seq<Range>, regions: seq<Range>, limit: nat, frontier: nat, size: nat)
    requires Filled(kernel, user, regions[..|regions|], limit, frontier) && Between(regions, |regions|, frontier, size)
    ensures Filled(kernel, user, regions, limit, size)
  {
    hide EndBy, NodesClear, NodesAtGaps, GapsKept, EndsAt;
    assert regions[..|regions|] == regions;
  }

  ghost predicate WritesInitFrames(m0: seq<PageFrame>, m1: seq<PageFrame>, rs: seq<Range>, limit: nat) {
    && |m0| == |m1|
    && forall f :: 0 <= f < |m0| && !InitFrame(rs, limit, f) ==> m1[f] == m0[f]
  }

  lemma WritesInitArea(m0: seq<PageFrame>, m1: seq<PageFrame>, m2: seq<PageFrame>, area: seq<Range>, part: Range,
                       rs: seq<Range>, limit: nat)
    requires WritesInitFrames(m0, m1, rs, limit) && WritesNodesIn(m1, m2, area + [part])
    requires forall f: nat :: Footprint(area, f) ==> InitFrame(rs, limit, f)
    requires forall f: nat :: part.Touches(f) ==> InitFrame(rs, limit, f)
    ensures WritesInitFrames(m0, m2, rs, limit)
  {
    var all := area + [part];
    forall f: nat | Footprint(all, f)
      ensures InitFrame(rs, limit, f)
    {
      var i :| 0 <= i < |all| && all[i].Touches(f);
      if i < |area| {
        assert area[i].Touches(f);
      }
    }
  }

  /** The limit keeps the nodes of one list out of the footprint of the other. */
  lemma ListsApart(p: FramePool.Pool)
    requires FramePool.WellFormed(p)
    ensures forall i :: 0 <= i < |p.user| ==> !Footprint(p.kernel, p.user[i].start)
    ensures forall i :: 0 <= i < |p.kernel| ==> !Footprint(p.user, p.kernel[i].start)
  {
    assert p.kernel == FramePool.ListOf(p, FramePool.Kernel) && p.user == FramePool.ListOf(p, FramePool.User);
  }

  lemma ListsApartFrom(p: FramePool.Pool, frames: Range)
    requires FramePool.WellFormed(p)
    requires Within([frames], FramePool.Lo(p, FramePool.Side(p, frames)), FramePool.Hi(p, FramePool.Side(p, frames)))
    ensures FramePool.Side(p, frames).Kernel? ==>
      forall i :: 0 <= i < |p.user| ==> !Footprint(p.kernel + [frames], p.user[i].start)
    ensures FramePool.Side(p, frames).User? ==>
      forall i :: 0 <= i < |p.kernel| ==> !Footprint(p.user + [frames], p.kernel[i].start)
  {
    assert p.kernel == FramePool.ListOf(p, FramePool.Kernel) && p.user == FramePool.ListOf(p, FramePool.User);
    assert [frames][0] == frames;
  }

  /** After `init`, the two lists together own exactly the frames of the regions, each once:
      the starting point for `FramePool.RunSafe` and `FramePool.RunConserves`. */
  lemma InitIsSafe(p: FramePool.Pool, regions: seq<Range>)
    requires FramePool.WellFormed(p) && p.live == [] && Regions(regions, p.size)
    requires Filled(p.kernel, p.user, regions, p.limit, p.size)
    ensures FramePool.Safe(p, regions)
    ensures forall f: nat :: FramePool.Owners(p, f) == Cover(regions, f)
  {
    forall space, i | 0 <= i < |FramePool.ListOf(p, space)| && FramePool.ListOf(p, space)[i].Count() == 0
      ensures Cover(regions, FramePool.ListOf(p, space)[i].start) == 0
    {
      assert space.Kernel? || space.User?;
    }
  }

  /** What goes wrong depends on the regions and the end of the heap alone: a region ends at the
      limit, and no region goes on there. */
  ghost predicate EndsShort(regions: seq<Range>, kernelHeapEnd: nat) {
    var limit := KernelLimit(regions, kernelHeapEnd);
    EndsAt(regions, limit) && Cover(regions, limit) == 0
  }

  /** `init` keeps to the frames it was given exactly when it leaves no empty node behind: neither at
      the limit, nor for an entry without frames. */
  lemma InitStaysInsideExactlyWhen(p: FramePool.Pool, regions: seq<Range>, kernelHeapEnd: nat)
    requires FramePool.WellFormed(p) && Filled(p.kernel, p.user, regions, p.limit, p.size)
    requires p.limit == KernelLimit(regions, kernelHeapEnd)
    ensures (forall space, i :: 0 <= i < |FramePool.ListOf(p, space)|
              ==> Cover(regions, FramePool.ListOf(p, space)[i].start) > 0)
       <==> !EndsShort(regions, kernelHeapEnd) && forall f: nat :: !Gap(regions, f)
  {
    hide KernelLimit;
    if EmptyNodeFirst(p.user, p.limit) {
      assert FramePool.ListOf(p, FramePool.User)[0].start == p.limit;
    } else if f: nat :| Gap(regions, f) {
      var space, i := GapOutside(p, regions, f);
      assert Cover(regions, FramePool.ListOf(p, space)[i].start) == 0;
    } else {
      forall space, i | 0 <= i < |FramePool.ListOf(p, space)|
        ensures Cover(regions, FramePool.ListOf(p, space)[i].start) > 0
      {
        NodeInside(p, regions, FramePool.ListOf(p, space), i);
      }
    }
  }

  lemma GapOutside(p: FramePool.Pool, regions: seq<Range>, f: nat) returns (space: FramePool.Space, i: nat)
    requires Filled(p.kernel, p.user, regions, p.limit, p.size) && Gap(regions, f)
    ensures i < |FramePool.ListOf(p, space)| && Cover(regions, FramePool.ListOf(p, space)[i].start) == 0
  {
    hide Gap, EndsAt, FilledShape;
    space := if BlockLists.NodeNear(p.kernel, f) then FramePool.Kernel else FramePool.User;
    var blocks := FramePool.ListOf(p, space);
    assert BlockLists.NodeNear(blocks, f) && NodesClear(blocks, regions, p.limit);
    i :| 0 <= i < |blocks| && blocks[i].Count() == 0 && (blocks[i].start == f || blocks[i].start + 1 == f);
  }

  lemma NodeInside(p: FramePool.Pool, regions: seq<Range>, blocks: seq<Range>, i: nat)
    requires Filled(p.kernel, p.user, regions, p.limit, p.size) && (blocks == p.kernel || blocks == p.user)
    requires !EmptyNodeFirst(p.user, p.limit) && (forall f: nat :: !Gap(regions, f)) && i < |blocks|
    ensures Cover(regions, blocks[i].start) > 0
  {
    assert NodesClear(blocks, regions, p.limit) && NodesAtGaps(blocks, regions, p.limit);
    LimitNodeFirst(p, blocks, i);
    hide EndsAt, RegionEndsAt, FramelessAt;
    assert !Gap(regions, blocks[i].start);
    if blocks[i].Count() > 0 {
      CoverMember(blocks, i, blocks[i].start);
    }
  }

  lemma LimitNodeFirst(p: FramePool.Pool, blocks: seq<Range>, i: nat)
    requires FilledShape(p.kernel, p.user, p.limit, p.size) && (blocks == p.kernel || blocks == p.user) && i < |blocks|
    ensures blocks[i].start <= blocks[i].end
    ensures blocks[i] == Range(p.limit, p.limit) ==> EmptyNodeFirst(p.user, p.limit)
  {
    assert i > 0 && blocks == p.user ==> p.user[0].end < p.user[i].start;
  }

  /** It does happen: of ten frames, the reserve takes the four of [3, 7), and the limit is the
      frame behind them, which `init` was not given. */
  lemma InitLeavesInside()
    ensures Regions([Range(3, 7), Range(8, 10)], 11) && Total([Range(3, 7), Range(8, 10)]) >= ReserveFrames(10, 4)
    ensures KernelLimit([Range(3, 7), Range(8, 10)], 3) == 7 && EndsShort([Range(3, 7), Range(8, 10)], 3)
  {
    var a, b := Range(3, 7), Range(8, 10);
    var rs := [a, b];
    assert rs[1..] == [b] && [b][1..] == [];
    ReserveOfTen();
    LimitOfTwo(a, b, rs);
    hide ReserveFrames, SortByStart, ReserveEnd, MaxEnd, KernelLimit;
    forall f: nat
      ensures Cover(rs, f) == One(a, f) + One(b, f)
    {
      CoverConcat([a], [b], f);
      CoverSingle(a, f);
      CoverSingle(b, f);
      assert [a] + [b] == rs;
    }
  }

  lemma ReserveOfTen()
    ensures ReserveFrames(10, 4) == 4
  {
    assert ReserveAt(10, 0) == 1;
    assert ReserveAt(10, 1) == 1 && ReserveAt(10, 2) == 1 && ReserveAt(10, 3) == 1;
    assert ReserveFrames(10, 2) == ReserveFrames(10, 1) + 1 == 2;
    assert ReserveFrames(10, 4) == ReserveFrames(10, 3) + 1 == ReserveFrames(10, 2) + 2;
  }

  lemma LimitOfTwo(a: Range, b: Range, rs: seq<Range>)
    requires a == Range(3, 7) && b == Range(8, 10) && rs == [a, b] && ReserveFrames(10, 4) == 4
    ensures KernelLimit(rs, 3) == 7
  {
    hide ReserveFrames;
    assert rs[1..] == [b] && [b][1..] == [];
    assert SortByStart([b]) == [b] && SortByStart(rs) == [a] + [b] == rs;
    assert MaxEnd([b]) == 10 && MaxEnd(rs) == 10;
    assert ReserveEnd(rs, 4) == 7;
  }
}
