/** From the boot loader's memory map to the page-frame allocator: reserved regions are cut
out of the map before `init` sees it (os/kernel/src/boot.rs:128-138, 385-420). */
module Boot {
  import opened Ranges
  import opened PhysMemory
  import opened InitLists
  import opened Physical
  import BlockLists
  import FramePool

  // --- the memory map -----------------------------------------------------------------------

  /** An area of physical memory, in bytes. */
  datatype Area = Area(start: nat, end: nat, available: bool)

  /** The pages that lie in the area as a whole. An area shorter than a page can come out empty, or
      inverted. */
  function WholePages(area: Area): Range {
    Range((area.start + PAGE_SIZE - 1) / PAGE_SIZE, area.end / PAGE_SIZE)
  }

  function Scanned(areas: seq<Area>): seq<Range> {
    if areas == [] then []
    else (if areas[0].available then [WholePages(areas[0])] else []) + Scanned(areas[1..])
  }

  method ScanMemoryMap(areas: seq<Area>) returns (regions: seq<Range>)
    ensures regions == Scanned(areas)
  {
    regions := [];
    for i := 0 to |areas|
      invariant regions + Scanned(areas[i..]) == Scanned(areas)
    {
      ghost var before := regions;
      if areas[i].available {
        regions := regions + [WholePages(areas[i])];
      }
      ScanNext(before, regions, areas, i);
    }
  }

  lemma ScanNext(before: seq<Range>, after: seq<Range>, areas: seq<Area>, i: nat)
    requires i < |areas| && after == before + (if areas[i].available then [WholePages(areas[i])] else [])
    ensures before + Scanned(areas[i..]) == after + Scanned(areas[i + 1..])
  {
    assert areas[i..][1..] == areas[i + 1..];
  }

  /** How many of the available areas hold all bytes of page `f`. */
  function Holding(areas: seq<Area>, f: nat): nat {
    if areas == [] then 0
    else (if areas[0].available && areas[0].start <= f * PAGE_SIZE && (f + 1) * PAGE_SIZE <= areas[0].end then 1 else 0)
         + Holding(areas[1..], f)
  }

  /** A frame is in the list once for every available area that holds all of it. */
  lemma {:induction false} ScanIsExact(areas: seq<Area>, f: nat)
    ensures Cover(Scanned(areas), f) == Holding(areas, f)
  {
    if areas != [] {
      ScanIsExact(areas[1..], f);
      var first := if areas[0].available then [WholePages(areas[0])] else [];
      CoverConcat(first, Scanned(areas[1..]), f);
      CoverSingle(WholePages(areas[0]), f);
      WholeExactly(areas[0], f);
    }
  }

  lemma WholeExactly(area: Area, f: nat)
    ensures WholePages(area).Has(f) <==> area.start <= f * PAGE_SIZE && (f + 1) * PAGE_SIZE <= area.end
  {
  }

  /** Areas in ascending order, as firmware reports them. */
  ghost predicate Areas(areas: seq<Area>, size: nat) {
    && (forall i :: 0 <= i < |areas| ==> areas[i].start <= areas[i].end && areas[i].end + PAGE_SIZE <= size * PAGE_SIZE)
    && (forall i, j :: 0 <= i < j < |areas| ==> areas[i].end <= areas[j].start)
  }

  /** Every region stems from an area. */
  ghost predicate FromAreas(regions: seq<Range>, areas: seq<Area>) {
    forall i :: 0 <= i < |regions| ==> exists j :: 0 <= j < |areas| && regions[i] == WholePages(areas[j])
  }

  lemma PagesMayPrecede(a: Area, b: Area)
    requires a.start <= a.end <= b.start <= b.end
    ensures MayPrecede(WholePages(a), WholePages(b))
    ensures WholePages(a).start + WholePages(a).Count() <= WholePages(b).start
  {
    Quotients(a.start, a.end);
    Quotients(a.end, b.start);
  }

  lemma Quotients(x: nat, y: nat)
    requires x <= y
    ensures x / PAGE_SIZE <= y / PAGE_SIZE
    ensures (x + PAGE_SIZE - 1) / PAGE_SIZE <= (y + PAGE_SIZE - 1) / PAGE_SIZE <= y / PAGE_SIZE + 1
    ensures x / PAGE_SIZE <= (y + PAGE_SIZE - 1) / PAGE_SIZE
  {
  }

  /** The regions of areas in ascending order lie behind each other and may stand so. */
  lemma {:induction false} ScannedInOrder(areas: seq<Area>, size: nat)
    requires Areas(areas, size)
    ensures FromAreas(Scanned(areas), areas) && Untangled(Scanned(areas)) && Stacked(Scanned(areas))
  {
    if areas != [] {
      AreasTail(areas, size);
      ScannedInOrder(areas[1..], size);
      var rest := Scanned(areas[1..]);
      forall j | 0 <= j < |rest|
        ensures MayPrecede(WholePages(areas[0]), rest[j])
        ensures WholePages(areas[0]).start + WholePages(areas[0]).Count() <= rest[j].start
      {
        var k :| 0 <= k < |areas[1..]| && rest[j] == WholePages(areas[1..][k]);
        PagesMayPrecede(areas[0], areas[k + 1]);
      }
      hide WholePages, Areas, MayPrecede;
      HeadOfScan(areas, rest);
    }
  }

  lemma AreasTail(areas: seq<Area>, size: nat)
    requires Areas(areas, size) && areas != []
    ensures Areas(areas[1..], size)
  {
  }

  lemma HeadOfScan(areas: seq<Area>, rest: seq<Range>)
    requires areas != [] && FromAreas(rest, areas[1..]) && Untangled(rest) && Stacked(rest)
    requires forall j :: 0 <= j < |rest| ==>
      && MayPrecede(WholePages(areas[0]), rest[j])
      && WholePages(areas[0]).start + WholePages(areas[0]).Count() <= rest[j].start
    ensures var all := (if areas[0].available then [WholePages(areas[0])] else []) + rest;
      FromAreas(all, areas) && Untangled(all) && Stacked(all)
  {
    hide WholePages, MayPrecede;
    var all := (if areas[0].available then [WholePages(areas[0])] else []) + rest;
    var n := |all| - |rest|;
    assert forall i :: 0 <= i < |all| ==> all[i] == if i < n then WholePages(areas[0]) else rest[i - n];
    forall i | 0 <= i < |all|
      ensures exists j :: 0 <= j < |areas| && all[i] == WholePages(areas[j])
    {
      if i < n {
        assert all[i] == WholePages(areas[0]);
      } else {
        var j :| 0 <= j < |areas[1..]| && rest[i - n] == WholePages(areas[1..][j]);
        assert all[i] == WholePages(areas[j + 1]);
      }
    }
  }

  lemma StackedOnce(regions: seq<Range>, f: nat)
    requires Stacked(regions)
    ensures Cover(regions, f) <= 1
    decreases |regions|
  {
    if regions != [] {
      StackedOnce(regions[1..], f);
      if Cover(regions[1..], f) > 0 {
        var i := CoverWitness(regions[1..], f);
        assert regions[1..][i] == regions[i + 1];
      }
    }
  }

  /** The memory map of areas in ascending order is what the rest of the boot code requires. */
  lemma ScannedIsMemoryMap(areas: seq<Area>, size: nat)
    requires Areas(areas, size)
    ensures MemoryMap(Scanned(areas), size)
  {
    var regions := Scanned(areas);
    ScannedInOrder(areas, size);
    forall f: nat
      ensures Cover(regions, f) <= 1
    {
      StackedOnce(regions, f);
    }
    forall i | 0 <= i < |regions|
      ensures regions[i].start < size && regions[i].end < size && regions[i].start <= regions[i].end + 1
    {
      var j :| 0 <= j < |areas| && regions[i] == WholePages(areas[j]);
      Quotients(areas[j].start, areas[j].end);
      PageBound(areas[j].end, size);
    }
  }

  lemma PageBound(x: nat, size: nat)
    requires x + PAGE_SIZE <= size * PAGE_SIZE
    ensures x / PAGE_SIZE < size && (x + PAGE_SIZE - 1) / PAGE_SIZE < size
  {
  }

  // --- cutting regions out --------------------------------------------------------------------

  /** What is left of one region. */
  function CutOne(region: Range, reserved: Range): seq<Range> {
    if region.start < reserved.start && region.end >= reserved.start then
      if region.end <= reserved.end then [Range(region.start, reserved.start)]
      else [Range(region.start, reserved.start), Range(reserved.end, region.end)]
    else if region.start <= reserved.end && region.end >= reserved.start then
      if region.end <= reserved.end then [] else [Range(reserved.end, region.end)]
    else [region]
  }

  function Cut(regions: seq<Range>, reserved: Range): seq<Range> {
    if regions == [] then [] else CutOne(regions[0], reserved) + Cut(regions[1..], reserved)
  }

  method CutRegion(regions: seq<Range>, reserved: Range) returns (newRegions: seq<Range>)
    ensures newRegions == Cut(regions, reserved)
  {
    newRegions := [];
    for i := 0 to |regions|
      invariant newRegions + Cut(regions[i..], reserved) == Cut(regions, reserved)
    {
      var region := regions[i];
      ghost var before := newRegions; // each branch adds `CutOne` of the region to it
      if region.start < reserved.start && region.end >= reserved.start {
        if region.end <= reserved.end {
          newRegions := newRegions + [Range(region.start, reserved.start)];
        } else {
          newRegions := newRegions + [Range(region.start, reserved.start)];
          newRegions := newRegions + [Range(reserved.end, region.end)];
        }
      } else if region.start <= reserved.end && region.end >= reserved.start {
        if region.end > reserved.end {
          newRegions := newRegions + [Range(reserved.end, region.end)];
        }
      } else {
        newRegions := newRegions + [region];
      }
      CutNext(before, newRegions, regions, i, reserved);
    }
  }

  lemma CutNext(before: seq<Range>, after: seq<Range>, regions: seq<Range>, i: nat, reserved: Range)
    requires i < |regions| && after == before + CutOne(regions[i], reserved)
    ensures before + Cut(regions[i..], reserved) == after + Cut(regions[i + 1..], reserved)
  {
    assert regions[i..][1..] == regions[i + 1..];
  }

  /** `cut_region` is set difference, frame by frame and with multiplicities, on every list of
      regions: overlapping, unsorted, empty or inverted. */
  lemma {:induction false} CutIsDifference(regions: seq<Range>, reserved: Range, f: nat)
    requires reserved.start <= reserved.end
    ensures Cover(Cut(regions, reserved), f) == if reserved.Has(f) then 0 else Cover(regions, f)
  {
    if regions != [] {
      CutIsDifference(regions[1..], reserved, f);
      CoverConcat(CutOne(regions[0], reserved), Cut(regions[1..], reserved), f);
      CutOneIsDifference(regions[0], reserved, f);
    }
  }

  lemma CutOneIsDifference(r: Range, reserved: Range, f: nat)
    requires reserved.start <= reserved.end
    ensures Cover(CutOne(r, reserved), f) == if reserved.Has(f) then 0 else One(r, f)
  {
    var t := CutOne(r, reserved);
    if |t| == 2 {
      assert t == [t[0]] + [t[1]];
      CoverConcat([t[0]], [t[1]], f);
      CoverSingle(t[0], f);
      CoverSingle(t[1], f);
    } else if |t| == 1 {
      CoverSingle(t[0], f);
    }
  }

  /** A reserved region that is inverted would make frames appear twice. */
  lemma CutNeedsOrderedReserve()
    ensures Cover(Cut([Range(1, 9)], Range(6, 3)), 4) == 2
  {
    assert Cut([Range(1, 9)], Range(6, 3)) == [Range(1, 6), Range(3, 9)] + Cut([], Range(6, 3));
    assert [Range(1, 6), Range(3, 9)][1..] == [Range(3, 9)];
    CoverSingle(Range(3, 9), 4);
  }

  /** An area shorter than a page can arrive empty or inverted. Such an entry holds no frame; it is
      dropped if it touches the reserved region, and else it stays. */
  lemma EmptyEntryStaysExactlyWhen(entry: Range, reserved: Range)
    requires entry.end <= entry.start && reserved.start <= reserved.end
    ensures CutOne(entry, reserved)
      == if reserved.start <= entry.end && entry.start <= reserved.end then [] else [entry]
  {
  }

  /** Freed into a list that it does not extend, an entry that holds no frame leaves an empty node
      in the frame where it starts. */
  lemma EmptyEntryLeavesNode(blocks: seq<Range>, entry: Range)
    requires entry.end <= entry.start && BlockLists.Outcome(blocks, entry).Neither? && Ascending(blocks)
    ensures Range(entry.start, entry.start) in BlockLists.Free(blocks, entry)
    ensures forall f: nat :: Cover(BlockLists.Free(blocks, entry), f) == Cover(blocks, f)
  {
    var k := BlockLists.InsertPosition(blocks, entry.Written());
    assert BlockLists.Insert(blocks, entry.Written())[k] == Range(entry.start, entry.start);
    forall f: nat {
      BlockLists.InsertCover(blocks, entry.Written(), f);
    }
  }

  /** That frame can be a reserved one: an area that lies within the page below the heap arrives as
      [5, 4), survives the cut of the heap [5, 8), and the node is written to its first frame. */
  lemma EmptyEntryReachesHeap()
    ensures Cut([Range(5, 4)], Range(5, 8)) == [Range(5, 4)] && BlockLists.Free([], Range(5, 4)) == [Range(5, 5)]
  {
    assert Cut([], Range(5, 8)) == [] && [Range(5, 4)][1..] == [];
  }

  /** An entry without frames inside of a region would put its node into a free block. */
  lemma TangledEntryBreaksList()
    ensures BlockLists.Free([Range(3, 7)], Range(4, 4)) == [Range(3, 7), Range(4, 4)]
    ensures !Ascending([Range(3, 7), Range(4, 4)]) && !Untangled([Range(3, 7), Range(4, 4)])
  {
    hide *;
    NodeInBlock([Range(3, 7)], Range(4, 4));
    assert [Range(3, 7)] + [Range(4, 4)] == [Range(3, 7), Range(4, 4)];
    TangledPair([Range(3, 7), Range(4, 4)]);
  }

  lemma NodeInBlock(list: seq<Range>, entry: Range)
    requires list == [Range(3, 7)] && entry == Range(4, 4)
    ensures BlockLists.Free(list, entry) == list + [entry]
  {
    assert BlockLists.FuseAt(list, entry) == 0;
    hide BlockLists.FuseAt, BlockLists.Insert;
    BlockLists.InsertAt(list, entry, 1);
  }

  lemma TangledPair(list: seq<Range>)
    requires list == [Range(3, 7), Range(4, 4)]
    ensures !Ascending(list) && !Untangled(list)
  {
    assert list[0].Top() > list[1].start && !MayPrecede(list[0], list[1]);
  }

  ghost predicate NonEmpty(regions: seq<Range>) {
    forall i :: 0 <= i < |regions| ==> regions[i].start < regions[i].end
  }

  /** Every remaining region is a non-empty part of an old one, or an old entry without frames. */
  lemma {:induction false} CutParts(regions: seq<Range>, reserved: Range)
    requires reserved.start <= reserved.end
    ensures PartsOf(Cut(regions, reserved), regions)
    ensures NonEmpty(regions) ==> NonEmpty(Cut(regions, reserved))
  {
    if regions != [] {
      CutParts(regions[1..], reserved);
      var first, rest := CutOne(regions[0], reserved), Cut(regions[1..], reserved);
      var all := first + rest;
      forall i | 0 <= i < |all|
        ensures exists j :: 0 <= j < |regions| && PartOf(all[i], regions[j])
      {
        if i < |first| {
          assert PartOf(all[i], regions[0]);
        } else {
          assert all[i] == rest[i - |first|];
          var j :| 0 <= j < |regions[1..]| && PartOf(rest[i - |first|], regions[1..][j]);
          assert PartOf(all[i], regions[j + 1]);
        }
      }
    }
  }

  ghost predicate PartsOf(parts: seq<Range>, regions: seq<Range>) {
    forall i :: 0 <= i < |parts| ==> exists j :: 0 <= j < |regions| && PartOf(parts[i], regions[j])
  }

  predicate PartOf(a: Range, b: Range) {
    b.start <= a.start && a.end <= b.end && (a.Count() == 0 ==> a == b)
  }

  lemma PartsMayPrecede(a: Range, x: Range, b: Range, y: Range)
    requires PartOf(a, x) && PartOf(b, y) && MayPrecede(x, y)
    ensures MayPrecede(a, b)
  {
  }

  lemma OneUntangled(r: Range, reserved: Range)
    requires reserved.start <= reserved.end
    ensures Untangled(CutOne(r, reserved))
  {
  }

  /** Entries without frames stay where they may stand. */
  lemma {:induction false} CutUntangled(regions: seq<Range>, reserved: Range)
    requires Untangled(regions) && reserved.start <= reserved.end
    ensures Untangled(Cut(regions, reserved))
  {
    if regions != [] {
      UntangledTail(regions);
      CutUntangled(regions[1..], reserved);
      CutParts(regions[1..], reserved);
      var first, rest := CutOne(regions[0], reserved), Cut(regions[1..], reserved);
      forall i, j | 0 <= i < |first| && 0 <= j < |rest|
        ensures MayPrecede(first[i], rest[j])
      {
        var k :| 0 <= k < |regions[1..]| && PartOf(rest[j], regions[1..][k]);
        assert PartOf(first[i], regions[0]) && regions[1..][k] in regions[1..];
        PartsMayPrecede(first[i], regions[0], rest[j], regions[1..][k]);
      }
      OneUntangled(regions[0], reserved);
      hide CutOne, Cut, MayPrecede;
      JoinUntangled(first, rest);
    }
  }

  lemma JoinUntangled(a: seq<Range>, b: seq<Range>)
    requires Untangled(a) && Untangled(b)
    requires forall i, j :: 0 <= i < |a| && 0 <= j < |b| ==> MayPrecede(a[i], b[j])
    ensures Untangled(a + b)
  {
    hide MayPrecede;
    var all := a + b;
    forall i, j | 0 <= i < j < |all|
      ensures MayPrecede(all[i], all[j])
    {
      assert all[i] == if i < |a| then a[i] else b[i - |a|];
      assert all[j] == if j < |a| then a[j] else b[j - |a|];
    }
  }

  /** A sorted, disjoint memory map stays sorted and disjoint. */
  lemma {:induction false} CutAscending(regions: seq<Range>, reserved: Range)
    requires NonEmpty(regions) && Ascending(regions) && reserved.start <= reserved.end
    ensures Ascending(Cut(regions, reserved))
  {
    if regions != [] {
      CutAscending(regions[1..], reserved);
      CutParts(regions, reserved);
      CutParts(regions[1..], reserved);
      var first, rest := CutOne(regions[0], reserved), Cut(regions[1..], reserved);
      forall i, j | 0 <= i < |first| && 0 <= j < |rest|
        ensures first[i].Top() <= rest[j].start
      {
        var k :| 0 <= k < |regions[1..]| && PartOf(rest[j], regions[1..][k]);
        assert regions[0].Top() <= regions[k + 1].start;
      }
      ConcatAscending(first, rest);
    }
  }

  lemma ConcatAscending(left: seq<Range>, right: seq<Range>)
    requires Ascending(left) && Ascending(right)
    requires forall i, j :: 0 <= i < |left| && 0 <= j < |right| ==> left[i].Top() <= right[j].start
    ensures Ascending(left + right)
  {
  }

  // --- the three cuts of `start` ------------------------------------------------------------

  const NULL_REGION := Range(0, 1)

  function Available(memoryMap: seq<Range>, kernelImage: Range, heap: Range): seq<Range> {
    Cut(Cut(Cut(memoryMap, NULL_REGION), kernelImage), heap)
  }

  predicate Reserved(kernelImage: Range, heap: Range, f: nat) {
    f == 0 || kernelImage.Has(f) || heap.Has(f)
  }

  /** A memory map as the boot loader reports it: areas that do not overlap, of which those shorter
      than a page arrive without frames. */
  ghost predicate MemoryMap(memoryMap: seq<Range>, size: nat) {
    && Bounded(memoryMap, size) && Untangled(memoryMap)
    && (forall f: nat :: Cover(memoryMap, f) <= 1)
  }

  ghost predicate Bounded(regions: seq<Range>, size: nat) {
    forall i :: 0 <= i < |regions| ==>
      regions[i].start < size && regions[i].end < size && regions[i].start <= regions[i].end + 1
  }

  lemma AvailableCover(memoryMap: seq<Range>, kernelImage: Range, heap: Range, f: nat)
    requires kernelImage.start <= kernelImage.end && heap.start <= heap.end
    ensures Cover(Available(memoryMap, kernelImage, heap), f)
      == if Reserved(kernelImage, heap, f) then 0 else Cover(memoryMap, f)
  {
    CutIsDifference(memoryMap, NULL_REGION, f);
    CutIsDifference(Cut(memoryMap, NULL_REGION), kernelImage, f);
    CutIsDifference(Cut(Cut(memoryMap, NULL_REGION), kernelImage), heap, f);
  }

  lemma CutBounded(regions: seq<Range>, reserved: Range, size: nat)
    requires Bounded(regions, size) && reserved.start <= reserved.end
    ensures Bounded(Cut(regions, reserved), size)
  {
    CutParts(regions, reserved);
    var t := Cut(regions, reserved);
    forall i | 0 <= i < |t|
      ensures t[i].start < size && t[i].end < size && t[i].start <= t[i].end + 1
    {
      var j :| 0 <= j < |regions| && PartOf(t[i], regions[j]);
    }
  }

  lemma {:induction false} NullIsCut(regions: seq<Range>)
    ensures forall i :: 0 <= i < |Cut(regions, NULL_REGION)| ==> 1 <= Cut(regions, NULL_REGION)[i].start
  {
    if regions != [] {
      NullIsCut(regions[1..]);
    }
  }

  lemma CutStaysAbove(regions: seq<Range>, reserved: Range, lo: nat)
    requires reserved.start <= reserved.end && forall i :: 0 <= i < |regions| ==> lo <= regions[i].start
    ensures forall i :: 0 <= i < |Cut(regions, reserved)| ==> lo <= Cut(regions, reserved)[i].start
  {
    CutParts(regions, reserved);
    var t := Cut(regions, reserved);
    forall i | 0 <= i < |t|
      ensures lo <= t[i].start
    {
      var j :| 0 <= j < |regions| && PartOf(t[i], regions[j]);
    }
  }

  /** What is left of the memory map is what `init` requires. */
  lemma AvailableRegions(memoryMap: seq<Range>, kernelImage: Range, heap: Range, size: nat)
    requires MemoryMap(memoryMap, size)
    requires kernelImage.start <= kernelImage.end && heap.start <= heap.end
    ensures Regions(Available(memoryMap, kernelImage, heap), size)
  {
    hide Cut, Bounded, Untangled;
    var a := Cut(memoryMap, NULL_REGION);
    var b := Cut(a, kernelImage);
    var c := Cut(b, heap);
    CutUntangled(memoryMap, NULL_REGION);
    CutUntangled(a, kernelImage);
    CutUntangled(b, heap);
    CutBounded(memoryMap, NULL_REGION, size);
    CutBounded(a, kernelImage, size);
    CutBounded(b, heap, size);
    NullIsCut(memoryMap);
    CutStaysAbove(a, kernelImage, 1);
    CutStaysAbove(b, heap, 1);
    forall f: nat
      ensures Cover(c, f) <= 1
    {
      AvailableCover(memoryMap, kernelImage, heap, f);
    }
    BoundedEntries(c, size);
  }

  lemma BoundedEntries(regions: seq<Range>, size: nat)
    requires Bounded(regions, size) && forall i :: 0 <= i < |regions| ==> 1 <= regions[i].start
    ensures Entries(regions, size)
  {
  }

  /** There is memory, and room in it for the page-table reserve. */
  predicate CanInit(regions: seq<Range>) {
    regions != [] && Total(regions) >= ReserveFrames(MaxEnd(regions), 4)
  }

  /** Physical memory management as `start` brings it up. */
  method InitMemory(memory: PhysicalMemory, memoryMap: seq<Range>, kernelImage: Range, heap: Range) returns (ok: bool)
    requires memory.Valid() && memory.kernelPhysLimit.None? && memory.kernel.blocks == memory.user.blocks == []
    requires MemoryMap(memoryMap, memory.mem.Length)
    requires kernelImage.start <= kernelImage.end && heap.start <= heap.end && 1 <= heap.end < memory.mem.Length
    modifies memory, memory.mem, memory.kernel, memory.user
    ensures ok <==> CanInit(Available(memoryMap, kernelImage, heap))
    ensures ok ==> memory.Valid() && memory.physLimit == Some(MaxEnd(Available(memoryMap, kernelImage, heap)))
    ensures ok ==> IsHighestEnd(Available(memoryMap, kernelImage, heap), memory.physLimit.value)
    ensures ok ==> memory.kernelPhysLimit == Some(KernelLimit(Available(memoryMap, kernelImage, heap), heap.end))
    ensures ok ==> var regions := Available(memoryMap, kernelImage, heap);
      Total(memory.kernel.blocks) == Below(regions, KernelLimit(regions, heap.end))
    ensures ok ==> FramePool.Safe(memory.Pool([]), Available(memoryMap, kernelImage, heap))
    ensures ok ==> forall f: nat ::
      FramePool.Owners(memory.Pool([]), f) == if Reserved(kernelImage, heap, f) then 0 else Cover(memoryMap, f)
    ensures ok ==> heap.end <= memory.kernelPhysLimit.value
    ensures ok ==> WritesInitFrames(old(memory.mem[..]), memory.mem[..], Available(memoryMap, kernelImage, heap),
                                    memory.kernelPhysLimit.value)
  {
    var availableMemoryRegions := CutRegion(memoryMap, NULL_REGION);
    availableMemoryRegions := CutRegion(availableMemoryRegions, kernelImage);
    availableMemoryRegions := CutRegion(availableMemoryRegions, heap);
    AvailableRegions(memoryMap, kernelImage, heap, memory.mem.Length);
    ok := memory.Init(availableMemoryRegions, heap.end);
    if ok {
      InitIsSafe(memory.Pool([]), availableMemoryRegions);
      forall f: nat {
        AvailableCover(memoryMap, kernelImage, heap, f);
      }
    }
  }

  /** End to end: whatever is allocated and freed later, no caller ever holds a frame of the
      null page, the kernel image or the heap, nor one that the memory map does not list. */
  lemma NoReservedFrameEverAllocated(code: FramePool.Code, p: FramePool.Pool, ops: seq<FramePool.Op>,
                                     memoryMap: seq<Range>, kernelImage: Range, heap: Range, i: nat, f: nat)
    requires kernelImage.start <= kernelImage.end && heap.start <= heap.end
    requires FramePool.Safe(p, Available(memoryMap, kernelImage, heap))
    requires FramePool.Run(code, p, ops).Some?
    requires i < |FramePool.Run(code, p, ops).value.live| && FramePool.Run(code, p, ops).value.live[i].Has(f)
    ensures !Reserved(kernelImage, heap, f) && Cover(memoryMap, f) == 1
  {
    var given := Available(memoryMap, kernelImage, heap);
    FramePool.RunSafe(code, p, ops, given);
    FramePool.SafeMeansSole(FramePool.Run(code, p, ops).value, given, i, f);
    AvailableCover(memoryMap, kernelImage, heap, f);
  }

  /** With the areas that firmware reports: whatever is allocated later lies in one available area
      as a whole. */
  lemma AllocatedIsAvailable(code: FramePool.Code, p: FramePool.Pool, ops: seq<FramePool.Op>, areas: seq<Area>,
                             kernelImage: Range, heap: Range, i: nat, f: nat)
    requires kernelImage.start <= kernelImage.end && heap.start <= heap.end
    requires FramePool.Safe(p, Available(Scanned(areas), kernelImage, heap))
    requires FramePool.Run(code, p, ops).Some?
    requires i < |FramePool.Run(code, p, ops).value.live| && FramePool.Run(code, p, ops).value.live[i].Has(f)
    ensures !Reserved(kernelImage, heap, f) && Holding(areas, f) == 1
  {
    NoReservedFrameEverAllocated(code, p, ops, Scanned(areas), kernelImage, heap, i, f);
    ScanIsExact(areas, f);
  }
}
