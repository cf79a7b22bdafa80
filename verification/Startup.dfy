/** Physical and virtual memory as `start` brings them up one after the other
(os/kernel/src/boot.rs:131-143). */
module Startup {
  import opened Ranges
  import opened InitLists
  import opened Physical
  import opened PageTables
  import opened PagingTheorems
  import opened Paging
  import opened Boot
  import opened PagingSteps
  import opened PhysMemory
  import opened PageRights
  import FramePool

  /** The reserve of `init` is below the limit in any case. So the first address space can be built
      if and only if the tables need no more than the reserve, or the heap ends high enough. */
  lemma StartFitsExactlyWhen(regions: seq<Range>, heapEnd: nat, size: nat)
    requires Regions(regions, size) && CanInit(regions) && MaxEnd(regions) <= PAGES
    ensures 0 < MaxEnd(regions)
    ensures var needed, limit := TablesNeeded(MaxEnd(regions)), KernelLimit(regions, heapEnd);
      Below(regions, limit) >= needed <==>
        Shortfall(MaxEnd(regions)) == 0 || (limit == heapEnd && Below(regions, heapEnd) >= needed)
  {
    hide KernelLimit, ReserveFrames, TablesNeeded, Shortfall, SortByStart;
    ReservePositive(MaxEnd(regions));
    MaxEndPositive(regions, size);
    KernelLimitIs(regions, heapEnd, size);
    ReserveShortfall(MaxEnd(regions));
  }

  /** It does fall short: with all memory in [1, 262656), which is 513 groups of 512 pages less the
      null page, and a heap that ends low, `init` goes through and the tables need one frame more
      than it sets aside. */
  lemma StartFallsShort(heapEnd: nat)
    requires heapEnd <= 1
    ensures var regions := [Range(1, 513 * 512)];
      CanInit(regions) && Below(regions, KernelLimit(regions, heapEnd)) + 1 == TablesNeeded(MaxEnd(regions))
  {
    var regions := [Range(1, 513 * 512)];
    assert regions[1..] == [];
    assert MaxEnd(regions) == 513 * 512 && Total(regions) == 513 * 512 - 1;
    ReserveFallsShort();
    NeededForGroups();
    LimitOfOne(regions, 513 * 512, ReserveFrames(513 * 512, 4), heapEnd);
  }

  lemma NeededForGroups()
    ensures 2 <= TablesNeeded(513 * 512) < 1000
  {
    assert TablesFor(513 * 512, 1) == TablesFor(513, 0) == 513;
    assert TablesFor(513 * 512, 2) == TablesFor(513, 1) == TablesFor(2, 0) == 2;
    assert TablesFor(513 * 512, 3) == TablesFor(513, 2) == TablesFor(2, 1) == TablesFor(1, 0) == 1;
  }

  /** In a single region, the limit follows the reserve. */
  lemma LimitOfOne(regions: seq<Range>, end: nat, reserve: nat, heapEnd: nat)
    requires regions == [Range(1, end)] && reserve == ReserveFrames(MaxEnd(regions), 4) && 0 < reserve < end
    requires heapEnd <= 1
    ensures KernelLimit(regions, heapEnd) == 1 + reserve && Below(regions, 1 + reserve) == reserve
  {
    hide ReserveFrames;
    assert regions[1..] == [];
    assert SortByStart([]) == [] && SortByStart(regions) == regions;
    assert Below([], 1 + reserve) == 0;
  }

  lemma MaxEndPositive(regions: seq<Range>, size: nat)
    requires Regions(regions, size) && Total(regions) > 0
    ensures 0 < MaxEnd(regions) < size
  {
    MaxEndBounds(regions, size);
    SomeFrame(regions);
  }

  lemma {:induction false} SomeFrame(regions: seq<Range>)
    requires Total(regions) > 0
    ensures MaxEnd(regions) > 0
  {
    if regions[0].Count() == 0 {
      SomeFrame(regions[1..]);
    }
  }

  lemma ReservePositive(n: nat)
    ensures ReserveFrames(n, 4) > 0
  {
  }

  lemma {:induction false} MaxEndBounds(regions: seq<Range>, size: nat)
    requires size > 0 && forall i :: 0 <= i < |regions| ==> regions[i].end < size
    ensures MaxEnd(regions) < size
  {
    if regions != [] {
      MaxEndBounds(regions[1..], size);
    }
  }

  lemma {:induction false} FramesCovered(rs: seq<Range>, f: nat)
    requires f in Frames(rs)
    ensures Cover(rs, f) > 0
  {
    FramesIn(rs, f);
    var i :| 0 <= i < |rs| && rs[i].Has(f);
    CoverMember(rs, i, f);
  }

  lemma IdentityBelow(m: seq<PageFrame>, root: nat, regions: seq<Range>, limit: nat)
    requires IsIdentity(m, root, limit) && IsHighestEnd(regions, limit) && limit <= SPACE_END
    ensures forall f: nat :: Cover(regions, f) > 0 ==> FullyMapped(m, root, f, f)
  {
    hide FullyMapped, IsHighestEnd;
    forall f: nat | Cover(regions, f) > 0
      ensures FullyMapped(m, root, f, f)
    {
      CoveredBelowHighest(regions, limit, f);
    }
  }

  /** What the lists hold after `init`, they hold for the regions. */
  lemma ListedIsCovered(kernel: seq<Range>, user: seq<Range>, kernel1: seq<Range>, user1: seq<Range>,
                        regions: seq<Range>)
    requires forall f: nat :: Cover(kernel, f) + Cover(user, f) == Cover(regions, f)
    requires Shrinks(kernel, kernel1) && Shrinks(user, user1)
    ensures forall f: nat :: f in Frames(kernel1) || f in Frames(user1) ==> Cover(regions, f) > 0
  {
    forall f: nat | f in Frames(kernel1) || f in Frames(user1)
      ensures Cover(regions, f) > 0
    {
      FramesCovered(if f in Frames(kernel1) then kernel else user, f);
    }
  }

  lemma ListsCoverRegions(p: FramePool.Pool, memoryMap: seq<Range>, kernelImage: Range, heap: Range)
    requires kernelImage.start <= kernelImage.end && heap.start <= heap.end && p.live == []
    requires forall f: nat ::
      FramePool.Owners(p, f) == if Reserved(kernelImage, heap, f) then 0 else Cover(memoryMap, f)
    ensures forall f: nat ::
      Cover(p.kernel, f) + Cover(p.user, f) == Cover(Available(memoryMap, kernelImage, heap), f)
  {
    forall f: nat
      ensures Cover(p.kernel, f) + Cover(p.user, f) == Cover(Available(memoryMap, kernelImage, heap), f)
    {
      AvailableCover(memoryMap, kernelImage, heap, f);
    }
  }

  /** From the memory map to the first address space. It succeeds if and only if the reserve fits
      into memory and the tables for all of memory fit below the limit. The space then maps every
      available frame to itself, and so every frame that is in a list. */
  method StartMemory(memory: PhysicalMemory, code: Code, memoryMap: seq<Range>, kernelImage: Range, heap: Range)
    returns (manager: PageTableManager, r: Option<AddressSpace>)
    requires memory.Valid() && memory.kernelPhysLimit.None? && memory.kernel.blocks == memory.user.blocks == []
    requires MemoryMap(memoryMap, memory.mem.Length) && memory.mem.Length <= LOWER_HALF
    requires kernelImage.start <= kernelImage.end && heap.start <= heap.end && 1 <= heap.end < memory.mem.Length
    modifies memory, memory.mem, memory.kernel, memory.user
    ensures fresh(manager) && manager.phys == memory && manager.code == code
    ensures var regions := Available(memoryMap, kernelImage, heap);
      r.Some? <==> CanInit(regions) && Below(regions, KernelLimit(regions, heap.end)) >= TablesNeeded(MaxEnd(regions))
    ensures r.Some? ==> manager.Valid() && manager.addressSpaces == [r.value] && manager.Known(r.value)
    ensures r.Some? ==> memory.physLimit.Some? && IsIdentity(memory.mem[..], r.value.rootTable, memory.physLimit.value)
    ensures r.Some? ==> IsHighestEnd(Available(memoryMap, kernelImage, heap), memory.physLimit.value)
    ensures r.Some? ==> forall f: nat :: Cover(Available(memoryMap, kernelImage, heap), f) > 0 ==>
      FullyMapped(memory.mem[..], r.value.rootTable, f, f)
    ensures r.Some? ==> forall f: nat :: f in Frames(memory.kernel.blocks) || f in Frames(memory.user.blocks) ==>
      FullyMapped(memory.mem[..], r.value.rootTable, f, f)
  {
    hide PhysicalMemory.Valid, IsIdentity, TablesNeeded, KernelLimit, CanInit, Available, Regions, HasSpace, TablesOk;
    hide FullyMapped, IsHighestEnd, Shrinks, Cover, Frames, FramePool.Owners;
    AvailableRegions(memoryMap, kernelImage, heap, memory.mem.Length);
    manager := new PageTableManager(memory, code);
    var ok := InitMemory(memory, memoryMap, kernelImage, heap);
    if !ok {
      return manager, None;
    }
    ghost var p := memory.Pool([]);
    NoTables(manager.Now());
    CanInitHasRegions(Available(memoryMap, kernelImage, heap));
    MaxEndPositive(Available(memoryMap, kernelImage, heap), memory.mem.Length);
    r := manager.CreateKernelSpace();
    if r.Some? {
      ghost var regions := Available(memoryMap, kernelImage, heap);
      IdentityBelow(memory.mem[..], r.value.rootTable, regions, memory.physLimit.value);
      ListsCoverRegions(p, memoryMap, kernelImage, heap);
      ListedIsCovered(p.kernel, p.user, memory.kernel.blocks, memory.user.blocks, regions);
    }
  }

  lemma {:induction false} CoveredFrames(rs: seq<Range>, f: nat)
    requires Cover(rs, f) > 0
    ensures f in Frames(rs)
  {
    if rs[0].Has(f) {
      assert From(rs[0].start, rs[0].Count())[f - rs[0].start] == f;
    } else {
      CoveredFrames(rs[1..], f);
    }
  }

  lemma AscendingOnce(rs: seq<Range>, f: nat)
    requires Ascending(rs)
    ensures Cover(rs, f) <= 1
    decreases |rs|
  {
    if rs != [] {
      AscendingOnce(rs[1..], f);
      if Cover(rs[1..], f) > 0 {
        var i := CoverWitness(rs[1..], f);
        assert rs[1..][i] == rs[i + 1];
      }
    }
  }

  /** Both lists together hold every frame at most once, and no empty node lies in one of them. */
  lemma OwnListsAreSafe(p: FramePool.Pool)
    requires FramePool.WellFormed(p) && p.live == []
    ensures FramePool.Safe(p, p.kernel + p.user)
  {
    var given := p.kernel + p.user;
    assert Ascending(FramePool.ListOf(p, FramePool.Kernel)) && Ascending(FramePool.ListOf(p, FramePool.User));
    assert Within(FramePool.ListOf(p, FramePool.Kernel), 1, p.limit);
    assert Within(FramePool.ListOf(p, FramePool.User), p.limit, p.size);
    JoinedAscending(p.kernel, p.user, p.limit);
    forall f: nat
      ensures FramePool.Owners(p, f) <= Cover(given, f) <= 1
    {
      CoverConcat(p.kernel, p.user, f);
      AscendingOnce(given, f);
    }
    forall space, i | 0 <= i < |FramePool.ListOf(p, space)| && FramePool.ListOf(p, space)[i].Count() == 0
      ensures Cover(given, FramePool.ListOf(p, space)[i].start) == 0
    {
      var k := if space.Kernel? then i else |p.kernel| + i;
      assert given[k] == FramePool.ListOf(p, space)[i];
      EmptyIsApart(given, k);
    }
  }

  lemma JoinedAscending(a: seq<Range>, b: seq<Range>, limit: nat)
    requires Ascending(a) && Ascending(b) && Within(a, 1, limit) && (forall i :: 0 <= i < |b| ==> limit <= b[i].start)
    ensures Ascending(a + b)
  {
  }

  lemma EmptyIsApart(rs: seq<Range>, k: nat)
    requires Ascending(rs) && k < |rs| && rs[k].Count() == 0
    ensures Cover(rs, rs[k].start) == 0
  {
    forall i | 0 <= i < |rs|
      ensures !rs[i].Has(rs[k].start)
    {
      if i < k {
        assert rs[i].Top() <= rs[k].start;
      } else if k < i {
        assert rs[k].Top() <= rs[i].start;
      }
    }
    if Cover(rs, rs[k].start) > 0 {
      var i := CoverWitness(rs, rs[k].start);
    }
  }

  /** Whatever is allocated and freed from then on: every frame that a caller ever holds is mapped to
      itself by the first address space. */
  lemma HandedOutIsMapped(code: FramePool.Code, p: FramePool.Pool, ops: seq<FramePool.Op>, m: seq<PageFrame>, root: nat,
                          i: nat, f: nat)
    requires FramePool.WellFormed(p) && p.live == []
    requires forall g: nat :: g in Frames(p.kernel) || g in Frames(p.user) ==> FullyMapped(m, root, g, g)
    requires FramePool.Run(code, p, ops).Some?
    requires i < |FramePool.Run(code, p, ops).value.live| && FramePool.Run(code, p, ops).value.live[i].Has(f)
    ensures FullyMapped(m, root, f, f)
  {
    OwnListsAreSafe(p);
    hide FullyMapped, FramePool.WellFormed, FramePool.Run;
    FramePool.RunSafe(code, p, ops, p.kernel + p.user);
    FramePool.SafeMeansSole(FramePool.Run(code, p, ops).value, p.kernel + p.user, i, f);
    CoverConcat(p.kernel, p.user, f);
    if Cover(p.kernel, f) > 0 {
      CoveredFrames(p.kernel, f);
    } else {
      CoveredFrames(p.user, f);
    }
  }

  lemma CanInitHasRegions(regions: seq<Range>)
    requires CanInit(regions)
    ensures regions != [] && Total(regions) > 0
  {
    ReservePositive(MaxEnd(regions));
  }

  lemma NoTables(s: State)
    requires s.d == map[]
    ensures TablesOk(s)
  {
  }
}
