/** Address spaces: creating, mapping and copying page tables
(os/kernel/src/memory/virtual.rs:22-184). The tables lie in the same memory as the free
lists, and every new table is a frame taken from the kernel list. */
module Paging {
  import opened Ranges
  import opened PhysMemory
  import opened PageTables
  import opened PagingSteps
  import opened Physical
  import opened TableOrder
  import opened TableCopies
  import opened PagingTheorems
  import opened CopyTheorems
  import opened PageRights
  import FramePool

  lemma InRow(start: nat, index: nat)
    requires start % 512 + index < 512
    ensures (start + index) / 512 == start / 512
  {
  }

  datatype AddressSpace = AddressSpace(rootTable: nat, depth: nat)

  /** Present, writable and user accessible: the flags with which the kernel maps physical memory and
      user stacks. */
  const PAGE_FLAGS := 7

  class PageTableManager {
    const phys: PhysicalMemory
    /** `AsWritten` for the code of the repository, see `PageTables.Code`. */
    const code: Code
    /** The spaces that have been registered; the first is the kernel's. */
    var addressSpaces: seq<AddressSpace>
    /** The tables of all address spaces. */
    ghost var dir: Directory

    ghost function Now(): State
      reads this, phys, phys.mem, phys.kernel, phys.user
    {
      State(phys.mem[..], dir, phys.kernel.blocks, phys.user.blocks)
    }

    ghost predicate Valid()
      reads this, phys, phys.mem, phys.kernel, phys.user
    {
      phys.Valid() && TablesOk(Now())
    }

    constructor (phys: PhysicalMemory, code: Code)
      requires phys.Valid()
      ensures this.phys == phys && this.code == code && dir == map[] && addressSpaces == [] && Valid()
    {
      this.phys := phys;
      this.code := code;
      addressSpaces := [];
      dir := map[];
    }

    ghost predicate Known(space: AddressSpace)
      reads this, phys, phys.mem, phys.kernel, phys.user
    {
      space.depth == LEVELS && HasSpace(Now(), space.rootTable)
    }

    ghost predicate Rooted(space: AddressSpace)
      reads this, phys, phys.mem, phys.kernel, phys.user
    {
      space.depth == LEVELS && HasRoot(Now(), space.rootTable)
    }

    /** `physical::alloc(1, space).start`; 0 where the kernel stops with "Out of memory". */
    method TakeFrame(space: FramePool.Space) returns (f: nat)
      requires Valid()
      modifies phys.mem, phys.kernel, phys.user
      ensures Valid() && Taken(old(Now()), Now(), space, f)
    {
      ghost var p, s := phys.Pool([]), Now();
      var r := phys.AllocFrame(space);
      AllocatorTakes(s, p, Now(), phys.Pool([]), space, r);
      f := if r.None? then 0 else r.value.start;
    }

    /** The level-1 part of `map_in_table`: frames are entered for the pages from the start of
        the range, up to `LeafEnd`. `None` where no user frame is left. */
    method MapRow(table: nat, pages: Range, space: FramePool.Space, flags: nat, ghost key: Key)
      returns (r: Option<nat>, ghost placed: map<nat, nat>)
      requires Valid() && key in dir && dir[key] == table
      requires key.level == 1 && pages.start / 512 == key.prefix
      modifies phys.mem, phys.kernel, phys.user
      ensures Valid() && phys.kernel.blocks == old(phys.kernel.blocks)
      ensures Mapped(old(Now()), Now(), key.root, space, placed, flags)
      ensures Paid(space, placed, old(phys.user.blocks), phys.user.blocks)
      ensures PlacedIn(placed, pages.start, LeafEnd(code, pages.start, pages.Count()))
      ensures r.None? ==> space.User? && Total(phys.user.blocks) == 0
      ensures r.None? ==> pages.start + |placed| < LeafEnd(code, pages.start, pages.Count())
      ensures r.Some? ==> r.value == Min(pages.Count(), 512 - pages.start % 512)
      ensures r.Some? ==> PlacedAre(placed, pages.start, LeafEnd(code, pages.start, pages.Count()))
    {
      hide PhysicalMemory.Valid, Mapped, Paid, TablesOk, PlacedAre;
      hide PlacedIn, LeafEnd, Bound, PageTableIndex, HasOneMore;
      RowBounds(code, pages.start, pages.Count());
      var startIndex := PageTableIndex(pages.start, 1);
      var allocCount := Min(pages.Count(), 512 - startIndex);
      var bound := if code.AsWritten? then startIndex + allocCount else allocCount;
      placed := map[];
      NothingPlaced(Now(), key.root, space, flags);
      NonePlaced(pages.start);
      var index := 0;
      while startIndex + index < 512
        invariant 0 <= index <= bound && startIndex + index <= 512
        invariant Valid() && phys.kernel.blocks == old(phys.kernel.blocks)
        invariant Mapped(old(Now()), Now(), key.root, space, placed, flags)
        invariant Paid(space, placed, old(phys.user.blocks), phys.user.blocks)
        invariant PlacedAre(placed, pages.start, pages.start + index)
      {
        if index >= bound {
          break;
        }
        InRow(pages.start, index);
        ghost var before := placed;
        PlacedUpTo(before, pages.start, pages.start + index, LeafEnd(code, pages.start, pages.Count()));
        var ok;
        ok, placed := MapPage(table, pages.start + index, space, flags, key, before, old(Now()));
        if !ok {
          return None, placed;
        }
        PlacedNext(before, placed, pages.start, pages.start + index);
        index := index + 1;
      }
      PlacedUpTo(placed, pages.start, pages.start + index, LeafEnd(code, pages.start, pages.Count()));
      return Some(allocCount), placed;
    }

    /** Enter a frame for one page: its own number, or a frame taken from the user list. */
    method MapPage(table: nat, page: nat, space: FramePool.Space, flags: nat, ghost key: Key,
                   ghost placed: map<nat, nat>, ghost s0: State)
      returns (ok: bool, ghost placed1: map<nat, nat>)
      requires Valid() && key in dir && dir[key] == table && key.level == 1 && page / 512 == key.prefix
      requires page !in placed && Mapped(s0, Now(), key.root, space, placed, flags)
      requires Paid(space, placed, s0.user, phys.user.blocks)
      modifies phys.mem, phys.kernel, phys.user
      ensures Valid() && phys.kernel.blocks == old(phys.kernel.blocks)
      ensures Mapped(s0, Now(), key.root, space, placed1, flags)
      ensures Paid(space, placed1, s0.user, phys.user.blocks)
      ensures if ok then HasOneMore(placed, placed1, page)
              else placed1 == placed && space.User? && Total(phys.user.blocks) == 0
    {
      hide PhysicalMemory.Valid, Mapped, TablesOk, Paid, Total, Footprint, HasOneMore;
      var frame := page;
      if space.User? {
        frame := TakeUserFrame(key.root, placed, flags, s0);
        if frame == 0 {
          return false, placed;
        }
      }
      OneMorePlaced(space, placed, page, frame, s0.user, old(phys.user.blocks), phys.user.blocks);
      SetEntry(table, page, frame, space, flags, key, placed, s0);
      return true, placed[page := frame];
    }

    method TakeUserFrame(ghost root: nat, ghost placed: map<nat, nat>, ghost flags: nat, ghost s0: State)
      returns (f: nat)
      requires Valid() && Mapped(s0, Now(), root, FramePool.User, placed, flags)
      modifies phys.mem, phys.kernel, phys.user
      ensures Valid() && phys.kernel.blocks == old(phys.kernel.blocks)
      ensures Mapped(s0, Now(), root, FramePool.User, placed, flags)
      ensures f == 0 ==> Total(phys.user.blocks) == 0 && phys.user.blocks == old(phys.user.blocks)
      ensures f != 0 ==> f !in placed.Values && Footprint(s0.user, f) && !Footprint(phys.user.blocks, f)
      ensures f != 0 ==> Total(phys.user.blocks) + 1 == Total(old(phys.user.blocks))
    {
      f := TakeFrame(FramePool.User);
      UserFrameTaken(s0, old(Now()), Now(), root, placed, flags, f);
    }

    method SetEntry(table: nat, page: nat, frame: nat, ghost space: FramePool.Space, flags: nat, ghost key: Key,
                    ghost placed: map<nat, nat>, ghost s0: State)
      requires Valid() && key in dir && dir[key] == table && key.level == 1 && page / 512 == key.prefix
      requires page !in placed && Mapped(s0, Now(), key.root, space, placed, flags)
      requires CanPlace(s0, Now(), space, placed, page, frame)
      modifies phys.mem
      ensures Valid() && Mapped(s0, Now(), key.root, space, placed[page := frame], flags)
    {
      hide PhysicalMemory.Valid, TablesOk, Mapped, CanPlace;
      EnterPage(s0, Now(), key, space, placed, flags, page, frame);
      phys.WriteFrame(table, phys.mem[table][page % 512 := Word(frame, flags)]);
    }

    /** The entry is empty: allocate a page frame for the next table and zero it. */
    method NewTable(table: nat, index: nat, ghost key: Key, ghost page: nat, ghost space: FramePool.Space,
                    ghost flags: nat)
      returns (f: nat)
      requires Valid() && key in dir && dir[key] == table && key.level > 1 && index < 512
      requires Down(key, index) !in dir && Prefix(page, key.level - 1) == key.prefix * 512 + index
      modifies phys.mem, phys.kernel, phys.user, this`dir
      ensures Valid() && Mapped(old(Now()), Now(), key.root, space, map[], flags)
      ensures Grown(old(Now()), Now(), key.root, key.level, page, page + 1)
      ensures phys.user.blocks == old(phys.user.blocks)
      ensures if f == 0 then Total(phys.kernel.blocks) == 0 && dir == old(dir)
              else dir == old(dir)[Down(key, index) := f]
      ensures f != 0 ==> table < phys.mem.Length && LeadsTo(phys.mem[table][index], f)
    {
      hide PhysicalMemory.Valid, TablesOk, Mapped, Grown, Taken;
      ghost var s := Now();
      f := TakeFrame(FramePool.Kernel);
      KernelTaken(s, Now(), f);
      if f == 0 {
        NothingTaken(s, Now());
        NoTableTaken(s, Now(), key.root, key.level, page, page + 1, space, flags);
        return;
      }
      TableTaken(s, Now(), key, index, f, page, space, flags);
      phys.WriteFrame(table, phys.mem[table][index := Word(f, TABLE_FLAGS)]);
      phys.WriteFrame(f, ZeroFrame());
      dir := dir[Down(key, index) := f];
      EntryLeads(Now(), key, index);
    }

    /** The table below an entry, allocated if the entry is null; 0 if there is no frame for it. */
    method NextTable(table: nat, index: nat, ghost pages: Range, ghost space: FramePool.Space, ghost flags: nat,
                     ghost key: Key) returns (f: nat)
      requires Valid() && key in dir && dir[key] == table && key.level > 1 && index < 512
      requires Prefix(pages.start, key.level - 1) == key.prefix * 512 + index
      requires Passable(phys.mem[..], dir, key.root, pages.start, Upto(pages))
      modifies phys.mem, phys.kernel, phys.user, this`dir
      ensures Valid() && phys.user.blocks == old(phys.user.blocks)
      ensures Mapped(old(Now()), Now(), key.root, space, map[], flags)
      ensures Grown(old(Now()), Now(), key.root, key.level, pages.start, pages.start + 1)
      ensures if f == 0 then Total(phys.kernel.blocks) == 0 && Down(key, index) !in dir
              else Down(key, index) in dir && dir[Down(key, index)] == f
    {
      hide PhysicalMemory.Valid, TablesOk, Passable, Mapped, Grown;
      EntryOfChild(Now(), key, index, pages.start, Upto(pages));
      if phys.mem[table][index].frame == 0 {
        f := NewTable(table, index, key, pages.start, space, flags);
      } else {
        f := phys.mem[table][index].frame;
        NothingChanged(Now(), key.root, key.level, pages.start, pages.start + 1, space, flags);
      }
    }

    /** One round of the loop over the entries of a table above level 1. */
    method MapEntry(table: nat, index: nat, pages: Range, space: FramePool.Space, flags: nat, level: nat,
                    ghost key: Key)
      returns (r: Option<nat>, ghost placed: map<nat, nat>)
      requires Valid() && key in dir && dir[key] == table && key.level == level > 1 && index < 512
      requires Prefix(pages.start, level - 1) == key.prefix * 512 + index
      requires Passable(phys.mem[..], dir, key.root, pages.start, Upto(pages))
      modifies phys.mem, phys.kernel, phys.user, this`dir
      ensures Valid()
      ensures MapResult(code, old(Now()), Now(), key.root, level, pages, First(key.prefix * 512 + index + 1, level - 1),
                        space, flags, r, placed)
      decreases level, 0
    {
      hide PhysicalMemory.Valid, TablesOk, Passable, Mapped, Grown, MapResult;
      ghost var s := Now();
      ghost var end := First(key.prefix * 512 + index + 1, level - 1);
      var nextLevelTable := NextTable(table, index, pages, space, flags, key);
      ghost var s1 := Now();
      if nextLevelTable == 0 {
        MissingChild(code, s, s1, key, index, pages, space, flags);
        return None, map[];
      }
      StillPassable(s, s1, key.root, space, map[], flags, pages, pages.start);
      r, placed := MapInTable(nextLevelTable, pages, space, flags, level - 1, Down(key, index));
      VisitedByOne(pages, key.prefix * 512 + index, level - 1);
      LiftToEntry(code, s, s1, Now(), key, index, pages, end, space, flags, r, placed);
    }

    /** `map_in_table`: returns how many pages it has mapped, or `None` where the kernel stops
        because no frame is left. */
    method MapInTable(table: nat, pages: Range, space: FramePool.Space, flags: nat, level: nat, ghost key: Key)
      returns (r: Option<nat>, ghost placed: map<nat, nat>)
      requires Valid() && key in dir && dir[key] == table && key.level == level >= 1
      requires Prefix(pages.start, level) == key.prefix
      requires Passable(phys.mem[..], dir, key.root, pages.start, Upto(pages))
      modifies phys.mem, phys.kernel, phys.user, this`dir
      ensures Valid()
      ensures MapResult(code, old(Now()), Now(), key.root, level, pages, First(key.prefix + 1, level), space, flags, r,
                        placed)
      decreases level, 1
    {
      hide PhysicalMemory.Valid, TablesOk, Passable, Mapped, Grown, MapResult, SoFar, Reached;
      ghost var s0 := Now();
      ghost var end := First(key.prefix + 1, level);
      if level == 1 {
        r, placed := MapRow(table, pages, space, flags, key);
        RowResult(code, s0, Now(), key, pages, space, flags, r, placed);
        return;
      }

      var totalAllocatedPages := 0;
      var cur := pages.start;
      var index := PageTableIndex(pages.start, level);
      placed := map[];
      StartOfTable(code, s0, key, pages, space, flags);
      while index < 512
        invariant 0 <= index <= 512 && cur == pages.start + totalAllocatedPages
        invariant Valid()
        invariant SoFar(code, s0, Now(), key.root, level, pages, end, cur, space, flags, placed)
        invariant index < 512 ==> Reached(code, pages, end, cur) && Prefix(cur, level - 1) == key.prefix * 512 + index
        invariant index == 512 ==> cur == end && cur < pages.end && LeafEnd(code, pages.start, pages.Count()) <= cur
      {
        ghost var s1, before := Now(), placed;
        ghost var entryEnd := First(key.prefix * 512 + index + 1, level - 1);
        EntryBounds(key, index, cur);
        StillThere(code, s0, s1, key, pages, end, cur, space, flags, placed);
        var allocatedPages;
        allocatedPages, placed := MapEntry(table, index, Range(cur, pages.end), space, flags, level, key);
        OneMoreEntry(code, s0, s1, Now(), key.root, level, pages, end, cur, entryEnd, space, flags, allocatedPages,
                     before, placed);
        placed := before + placed;
        if allocatedPages.None? {
          return None, placed;
        }
        cur := cur + allocatedPages.value;
        totalAllocatedPages := totalAllocatedPages + allocatedPages.value;
        if cur >= pages.end {
          return Some(totalAllocatedPages), placed;
        }
        index := index + 1;
      }
      EndOfTable(code, s0, Now(), key.root, level, pages, end, space, flags, placed);
      return Some(totalAllocatedPages), placed;
    }

    /** The last level of `copy_table`: a 1:1 copy of the page table, entry by entry. */
    method CopyRow(source: nat, target: nat, ghost skey: Key, ghost tkey: Key)
      requires Valid() && CanCopy(Now(), skey, tkey) && tkey.level == 1
      requires dir[skey] == source && dir[tkey] == target
      modifies phys.mem
      ensures Valid() && Copied(code, old(Now()), Now(), skey.root, tkey, tkey.prefix * 512 + 512)
    {
      hide PhysicalMemory.Valid, TablesOk, Copied, Tidy, NoneIn;
      ghost var s0 := Now();
      TablesDiffer(s0, skey, tkey);
      assert s0.m[source][..0] + s0.m[target][0..] == s0.m[target] && s0.m[target := s0.m[target]] == s0.m;
      for index := 0 to 512
        invariant Valid() && |phys.mem[target]| == 512
        invariant Now() == s0.(m := s0.m[target := s0.m[source][..index] + s0.m[target][index..]])
      {
        var entry := phys.mem[source][index];
        ghost var row := s0.m[source][..index + 1] + s0.m[target][index + 1..];
        assert phys.mem[target][index := entry] == row;
        RowWritten(s0, tkey, row);
        phys.WriteFrame(target, phys.mem[target][index := Word(entry.frame, entry.flags)]);
        assert Now().m == s0.m[target := row];
      }
      assert phys.mem[target] == s0.m[source];
      RowCopied(code, s0, Now(), skey, tkey);
    }

    /** One round of the loop over the entries of a table above level 1. `false` where the
        kernel stops because no frame is left. */
    method CopyEntry(source: nat, target: nat, index: nat, level: nat, ghost skey: Key, ghost tkey: Key,
                     ghost s0: State)
      returns (ok: bool)
      requires Valid() && CanCopy(s0, skey, tkey) && 1 < level == tkey.level <= LEVELS && index < 512
      requires skey in s0.d && tkey in s0.d && skey.level == tkey.level && skey.prefix == tkey.prefix
      requires s0.d[skey] == source && s0.d[tkey] == target
      requires Copied(code, s0, Now(), skey.root, tkey, tkey.prefix * 512 + index)
      modifies phys.mem, phys.kernel, phys.user, this`dir
      ensures Valid()
      ensures ok ==> Copied(code, s0, Now(), skey.root, tkey, tkey.prefix * 512 + index + 1)
      ensures !ok ==> Total(s0.kernel) < |Listed(s0.d, skey, 512)|
      decreases level, 0
    {
      hide PhysicalMemory.Valid, Copied, LinkedIn, CountKept, TablesOk, Tidy, CanCopy, Listed;
      ghost var s := Now();
      ghost var c := tkey.prefix * 512 + index;
      SourceKept(code, s0, s, skey, tkey, c);
      EntryOfTidy(s, skey, index);
      var sourceEntry := phys.mem[source][index];
      if sourceEntry == ZERO_WORD {
        SkipEntry(code, s0, s, skey, tkey, c);
        return true;
      }
      NotLinkedYet(code, s0, s, skey, tkey, c);
      var physFrame := LinkNewTable(target, index, sourceEntry.flags, tkey);
      if physFrame == 0 {
        LinkFails(code, s0, s, skey, tkey, c);
        return false;
      }
      ghost var s1 := Now();
      ReadyToRecurse(code, s0, s, s1, skey, tkey, c, physFrame);
      ok := CopyTable(sourceEntry.frame, physFrame, level - 1, Down(skey, index), Down(tkey, index));
      if ok {
        JoinsReady(code, s0, s, s1, Now(), skey, tkey, c, physFrame);
        JoinEntry(code, s0, s, s1, Now(), skey, tkey, c, physFrame);
      } else {
        CopyFails(code, s0, s, s1, skey, tkey, c, physFrame);
      }
    }

    /** Take a frame for a table and enter it into the table above. As written it is not zeroed. */
    method LinkNewTable(target: nat, index: nat, flags: nat, ghost tkey: Key) returns (f: nat)
      requires Valid() && tkey in dir && dir[tkey] == target && tkey.level > 1 && index < 512
      requires Down(tkey, index) !in dir && flags == TABLE_FLAGS
      modifies phys.mem, phys.kernel, phys.user, this`dir
      ensures Valid()
      ensures f == 0 ==> Total(old(phys.kernel.blocks)) == 0
      ensures f != 0 ==>
        LinkedIn(code, old(Now()), Now(), tkey, tkey.prefix * 512 + index, f) && CountKept(old(Now()), Now())
      ensures f != 0 ==> dir == old(dir)[Down(tkey, index) := f]
    {
      hide PhysicalMemory.Valid, TablesOk, LinkedIn, CountKept, Taken;
      ghost var s := Now();
      f := TakeFrame(FramePool.Kernel);
      if f == 0 {
        NothingTaken(s, Now());
      } else {
        LinkEntry(code, s, Now(), tkey, index, f);
        phys.WriteFrame(target, phys.mem[target][index := Word(f, flags)]);
        if code.Intended? {
          phys.WriteFrame(f, ZeroFrame());
        }
        dir := dir[Down(tkey, index) := f];
      }
    }

    method CopyTable(source: nat, target: nat, level: nat, ghost skey: Key, ghost tkey: Key) returns (ok: bool)
      requires Valid() && CanCopy(Now(), skey, tkey) && 1 <= level == tkey.level <= LEVELS
      requires dir[skey] == source && dir[tkey] == target
      modifies phys.mem, phys.kernel, phys.user, this`dir
      ensures Valid()
      ensures ok ==> Copied(code, old(Now()), Now(), skey.root, tkey, tkey.prefix * 512 + 512)
      ensures !ok ==> Total(old(phys.kernel.blocks)) < |Listed(old(dir), skey, 512)|
      decreases level, 1
    {
      hide PhysicalMemory.Valid, Copied, CanCopy, TablesOk, Listed;
      ghost var s0 := Now();
      CopyNeedsKeys(s0, skey, tkey);
      if level > 1 {
        NothingCopied(code, s0, skey.root, tkey);
        for index := 0 to 512
          invariant Valid() && Copied(code, s0, Now(), skey.root, tkey, tkey.prefix * 512 + index)
        {
          ok := CopyEntry(source, target, index, level, skey, tkey, s0);
          if !ok {
            return;
          }
        }
      } else {
        CopyRow(source, target, skey, tkey);
      }
      ok := true;
    }

    /** `AddressSpace::new`: a root table without entries. */
    method NewSpace(depth: nat) returns (r: Option<AddressSpace>)
      requires Valid() && depth == LEVELS
      modifies phys.mem, phys.kernel, phys.user, this`dir
      ensures Valid()
      ensures r.None? ==> Total(old(phys.kernel.blocks)) == 0
      ensures r.Some? ==> r.value.depth == LEVELS && SpaceAdded(old(Now()), Now(), r.value.rootTable)
    {
      hide PhysicalMemory.Valid, SpaceAdded;
      ghost var s := Now();
      var rootTable := TakeFrame(FramePool.Kernel);
      if rootTable == 0 {
        return None;
      }
      RootTaken(s, Now(), rootTable);
      phys.WriteFrame(rootTable, ZeroFrame());
      dir := dir[Key(rootTable, LEVELS, 0) := rootTable];
      AddedIsOk(s, Now(), rootTable);
      r := Some(AddressSpace(rootTable, depth));
    }

    /** `AddressSpace::from_other`. */
    method FromOther(other: AddressSpace) returns (r: Option<AddressSpace>)
      requires Valid() && Known(other)
      modifies phys.mem, phys.kernel, phys.user, this`dir
      ensures Valid()
      ensures r.Some? <==> Total(old(phys.kernel.blocks)) >= |TablesOf(old(dir), other.rootTable)|
      ensures r.Some? ==> r.value.depth == LEVELS && CopyOf(code, old(Now()), Now(), other.rootTable, r.value.rootTable)
    {
      hide PhysicalMemory.Valid, TablesOk, SpaceAdded, CopyOf, CanCopy, Copied, HasSpace, Listed, TablesOf;
      ghost var s0 := Now();
      SourceHasTables(s0, other.rootTable);
      r := NewSpace(other.depth);
      if r.Some? {
        ghost var s1 := Now();
        ghost var source, target := other.rootTable, r.value.rootTable;
        ReadyToCopy(s0, s1, source, target);
        CopyNeedsKeys(s1, Key(source, LEVELS, 0), Key(target, LEVELS, 0));
        var ok := CopyTable(other.rootTable, r.value.rootTable, other.depth, Key(source, LEVELS, 0),
                            Key(target, LEVELS, 0));
        if ok {
          CopyWholeSpace(code, s0, s1, Now(), source, target);
          CopyHadFrames(code, s0, Now(), source, target);
        } else {
          TooFewFrames(s0, s1, source, target);
          r := None;
        }
      }
    }

    /** `AddressSpace::map`, for ranges with canonical addresses below the hole. The space may
        have stray entries, but none on the way of these pages that points to a frame. */
    method Map(address: AddressSpace, pages: Range, space: FramePool.Space, flags: nat)
      returns (r: Option<nat>, ghost placed: map<nat, nat>)
      requires Valid() && Rooted(address) && pages.start < LOWER_HALF && pages.end < LOWER_HALF
      requires Passable(phys.mem[..], dir, address.rootTable, pages.start, Upto(pages))
      modifies phys.mem, phys.kernel, phys.user, this`dir
      ensures Valid()
      ensures MapResult(code, old(Now()), Now(), address.rootTable, LEVELS, pages, First(1, LEVELS), space, flags, r,
                        placed)
      ensures forall v :: v in placed && v < SPACE_END ==>
        MappedWith(phys.mem[..], address.rootTable, v, placed[v], flags)
    {
      hide PhysicalMemory.Valid, TablesOk, MapResult, Passable, MappedWith;
      ghost var s0 := Now();
      ghost var key := Key(address.rootTable, LEVELS, 0);
      StartsInSpace(Now(), address.rootTable, pages.start);
      r, placed := MapInTable(address.rootTable, pages, space, flags, address.depth, key);
      PlacedAreMapped(code, s0, Now(), address.rootTable, pages, space, flags, r, placed);
    }

    /** `create_address_space`: the first space maps all of physical memory, every further one
        is a copy of it. */
    method CreateAddressSpace() returns (r: Option<AddressSpace>)
      requires Valid() && phys.physLimit.Some? && 0 < phys.physLimit.value < LOWER_HALF
      requires addressSpaces != [] ==> Known(addressSpaces[0])
      modifies phys.mem, phys.kernel, phys.user, this
      ensures Valid()
      ensures old(addressSpaces) == [] ==>
        (r.Some? <==> Total(old(phys.kernel.blocks)) >= TablesNeeded(phys.physLimit.value))
      ensures old(addressSpaces) == [] && r.Some? ==> addressSpaces == [r.value] && Known(r.value)
      ensures old(addressSpaces) == [] && r.Some? ==> IsIdentity(phys.mem[..], r.value.rootTable, phys.physLimit.value)
      ensures old(addressSpaces) == [] && r.Some? ==>
        var root := r.value.rootTable;
        dir.Keys == old(dir).Keys + {Key(root, LEVELS, 0)} + KeysFor(root, phys.physLimit.value)
      ensures old(addressSpaces) != [] ==> addressSpaces == old(addressSpaces)
      ensures old(addressSpaces) != [] ==>
        (r.Some? <==> Total(old(phys.kernel.blocks)) >= |TablesOf(old(dir), addressSpaces[0].rootTable)|)
      ensures old(addressSpaces) != [] && r.Some? ==> Known(addressSpaces[0]) && Rooted(r.value)
      ensures old(addressSpaces) != [] && r.Some? ==>
        CopyOf(code, old(Now()), Now(), addressSpaces[0].rootTable, r.value.rootTable)
      ensures old(addressSpaces) != [] && r.Some? ==>
        MapsAlike(old(phys.mem[..]), addressSpaces[0].rootTable, phys.mem[..], r.value.rootTable)
    {
      if addressSpaces == [] {
        r := CreateKernelSpace();
      } else {
        r := CreateUserSpace();
      }
    }

    method CreateKernelSpace() returns (r: Option<AddressSpace>)
      requires Valid() && phys.physLimit.Some? && 0 < phys.physLimit.value < LOWER_HALF && addressSpaces == []
      modifies phys.mem, phys.kernel, phys.user, this
      ensures Valid()
      ensures r.Some? <==> Total(old(phys.kernel.blocks)) >= TablesNeeded(phys.physLimit.value)
      ensures r.Some? ==> addressSpaces == [r.value] && Known(r.value)
      ensures r.Some? ==> IsIdentity(phys.mem[..], r.value.rootTable, phys.physLimit.value)
      ensures r.Some? ==> Shrinks(old(phys.kernel.blocks), phys.kernel.blocks)
      ensures r.Some? ==> Shrinks(old(phys.user.blocks), phys.user.blocks)
      ensures r.Some? ==>
        var root := r.value.rootTable;
        dir.Keys == old(dir).Keys + {Key(root, LEVELS, 0)} + KeysFor(root, phys.physLimit.value)
    {
      hide PhysicalMemory.Valid, TablesOk, SpaceAdded, HasSpace, HasRoot;
      hide MapResult, IsIdentity, TablesNeeded, KeysFor, Passable, Shrinks, MappedWith;
      ghost var s0 := Now();
      r := NewSpace(4);
      if r.None? {
        TablesNeededPositive(phys.physLimit.value);
        return;
      }
      ghost var s1 := Now();
      var maxPhysAddr := phys.physLimit.value;
      AddedIsKnown(s0, s1, r.value.rootTable, Range(0, maxPhysAddr));
      var mapped;
      ghost var placed;
      mapped, placed := Map(r.value, Range(0, maxPhysAddr), FramePool.Kernel, PAGE_FLAGS);
      FirstSpaceTables(code, s0, s1, Now(), r.value.rootTable, maxPhysAddr, PAGE_FLAGS, mapped, placed);
      if mapped.None? {
        return None;
      }
      KernelSpaceBuilt(code, s0, s1, Now(), r.value.rootTable, maxPhysAddr, mapped, placed);
      ListsShrink(code, s0, s1, Now(), r.value.rootTable, Range(0, maxPhysAddr), PAGE_FLAGS, mapped, placed);
      addressSpaces := addressSpaces + [r.value];
    }

    method CreateUserSpace() returns (r: Option<AddressSpace>)
      requires Valid() && addressSpaces != [] && Known(addressSpaces[0])
      modifies phys.mem, phys.kernel, phys.user, this`dir
      ensures Valid()
      ensures r.Some? <==> Total(old(phys.kernel.blocks)) >= |TablesOf(old(dir), addressSpaces[0].rootTable)|
      ensures r.Some? ==> Known(addressSpaces[0]) && Rooted(r.value)
      ensures r.Some? ==> CopyOf(code, old(Now()), Now(), addressSpaces[0].rootTable, r.value.rootTable)
      ensures r.Some? ==> MapsAlike(old(phys.mem[..]), addressSpaces[0].rootTable, phys.mem[..], r.value.rootTable)
    {
      hide PhysicalMemory.Valid, TablesOk, CopyOf, HasSpace, HasRoot, TablesOf, MapsAlike;
      ghost var s0 := Now();
      r := FromOther(addressSpaces[0]);
      if r.Some? {
        CopyKeepsKnown(code, s0, Now(), addressSpaces[0].rootTable, r.value.rootTable);
        CopyMapsAlike(code, s0, Now(), addressSpaces[0].rootTable, r.value.rootTable);
      }
    }

    /** The address space of a new user thread (os/kernel/src/thread/thread.rs:47-53): a copy of
        the kernel's, into which the user stack is mapped. `None` where the kernel stops for
        lack of frames. */
    method NewUserSpace() returns (r: Option<AddressSpace>, ghost placed: map<nat, nat>)
      requires Valid() && addressSpaces != [] && Known(addressSpaces[0])
      requires Key(addressSpaces[0].rootTable, 3, 128) !in dir
      modifies phys.mem, phys.kernel, phys.user, this`dir
      ensures Valid()
      ensures var needed := |TablesOf(old(dir), addressSpaces[0].rootTable)| + 3;
        r.Some? <==> Total(old(phys.kernel.blocks)) >= needed && Total(old(phys.user.blocks)) >= 16
      ensures r.Some? ==> HasUserStack(old(Now()), Now(), addressSpaces[0].rootTable, r.value.rootTable, placed)
    {
      hide PhysicalMemory.Valid, TablesOk, CopyOf, HasSpace, HasRoot, TablesOf, MapResult, Passable, HasUserStack;
      hide MapsAlike, MappedWith;
      ghost var s0 := Now();
      placed := map[];
      r := CreateUserSpace();
      if r.None? {
        return;
      }
      ghost var s1 := Now();
      UserStackIsPassable(code, s0, s1, addressSpaces[0].rootTable, r.value.rootTable);
      var mapped;
      mapped, placed := Map(r.value, USER_STACK, FramePool.User, PAGE_FLAGS);
      UserStackFits(code, s0, s1, Now(), addressSpaces[0].rootTable, r.value.rootTable, mapped, placed);
      if mapped.None? {
        return None, placed;
      }
      UserStackMapped(code, s0, s1, Now(), addressSpaces[0].rootTable, r.value.rootTable, mapped, placed);
    }
  }

  /** The space of a user thread: its stack lies in frames of its own from the user list, every
      other page that the source maps is translated as there, and the source is as before. */
  ghost predicate HasUserStack(s0: State, s1: State, source: nat, target: nat, placed: map<nat, nat>) {
    && HasRoot(s1, target) && HasSpace(s1, source)
    && (forall v :: USER_STACK.Has(v) <==> v in placed)
    && (forall v, w :: v in placed && w in placed && placed[v] == placed[w] ==> v == w)
    && (forall v :: v in placed ==> Footprint(s0.user, placed[v]) && !Footprint(s1.user, placed[v]))
    && (forall v :: v in placed ==> FullyMapped(s1.m, target, v, placed[v]))
    && (forall v: nat :: v < SPACE_END && v !in placed && Translate(s0.m, source, v).Some? ==>
          SameMapping(s0.m, source, s1.m, target, v))
    && (forall v: nat :: v < SPACE_END ==> SameMapping(s0.m, source, s1.m, source, v))
  }

  /** The stack takes 16 user frames and a table on each level below the root. */
  lemma UserStackFits(code: Code, s0: State, s1: State, s2: State, source: nat, target: nat, r: Option<nat>,
                      placed: map<nat, nat>)
    requires HasSpace(s0, source) && CopyOf(code, s0, s1, source, target) && Key(source, 3, 128) !in s0.d
    requires MapResult(code, s1, s2, target, LEVELS, USER_STACK, First(1, LEVELS), FramePool.User, PAGE_FLAGS, r,
                       placed)
    ensures r.Some? <==> Total(s0.kernel) >= |TablesOf(s0.d, source)| + 3 && Total(s0.user) >= 16
  {
    CopyCost(code, s0, s1, source, target);
    UserStackTables(code, s0, s1, source, target);
    MapStaysInRangeExactlyWhen(code, USER_STACK);
    hide *;
    MapSucceedsExactlyWhen(code, s1, s2, target, USER_STACK, FramePool.User, PAGE_FLAGS, r, placed);
    StackBounds(code);
  }

  lemma StackBounds(code: Code)
    ensures USER_STACK.start < SPACE_END && VisitEnd(USER_STACK, SPACE_END) == USER_STACK.end
    ensures WriteEnd(code, USER_STACK, SPACE_END) - USER_STACK.start == 16
  {
    MapStaysInRangeExactlyWhen(code, USER_STACK);
  }

  lemma CopyCost(code: Code, s0: State, s1: State, source: nat, target: nat)
    requires HasSpace(s0, source) && CopyOf(code, s0, s1, source, target)
    ensures Total(s0.kernel) == |TablesOf(s0.d, source)| + Total(s1.kernel) && s1.user == s0.user
  {
    OrderSize(s0, source);
    FramesLeft(s0, s1, Order(s0.d, source), target);
  }

  lemma UserStackTables(code: Code, s0: State, s1: State, source: nat, target: nat)
    requires HasSpace(s0, source) && CopyOf(code, s0, s1, source, target) && Key(source, 3, 128) !in s0.d
    ensures |TablesBetween(target, USER_STACK.start, USER_STACK.end) - s1.d.Keys| == 3
  {
    CopiedKey(s0.d, s1.d, source, target, Key(target, 3, 128));
    TablesLinked(s1);
    assert InSpace(Key(target, 3, 128), source) == Key(source, 3, 128);
    StackTablesMissing(s1.m, s1.d, target);
    StackTables(target);
    hide *;
    ThreeMissing(Key(target, 1, 0x200_0000), Key(target, 2, 0x1_0000), Key(target, 3, 128), s1.d.Keys);
  }

  lemma ThreeMissing(a: Key, b: Key, c: Key, keys: set<Key>)
    requires a != b && b != c && a != c && a !in keys && b !in keys && c !in keys
    ensures |{a, b, c} - keys| == 3
  {
    assert {a, b, c} - keys == {a, b, c};
  }

  lemma StackTables(root: nat)
    ensures TablesBetween(root, USER_STACK.start, USER_STACK.end)
      == {Key(root, 1, 0x200_0000), Key(root, 2, 0x1_0000), Key(root, 3, 128)}
  {
    StackPrefixes();
    hide Prefix;
  }

  lemma StackPrefixes()
    ensures Prefix(USER_STACK.start, 1) == Prefix(USER_STACK.end - 1, 1) == 0x200_0000
    ensures Prefix(USER_STACK.start, 2) == Prefix(USER_STACK.end - 1, 2) == 0x1_0000
    ensures Prefix(USER_STACK.start, 3) == Prefix(USER_STACK.end - 1, 3) == 128
  {
  }

  lemma StackTablesMissing(m: seq<PageFrame>, d: Directory, root: nat)
    requires Links(m, d) && Key(root, 3, 128) !in d
    ensures Key(root, 2, 0x1_0000) !in d && Key(root, 1, 0x200_0000) !in d
  {
    assert Up(Key(root, 2, 0x1_0000)) == Key(root, 3, 128) && Up(Key(root, 1, 0x200_0000)) == Key(root, 2, 0x1_0000);
    assert Key(root, 2, 0x1_0000) in d ==> Linked(m, d, Key(root, 2, 0x1_0000));
    assert Key(root, 1, 0x200_0000) in d ==> Linked(m, d, Key(root, 1, 0x200_0000));
  }

  lemma UserStackMapped(code: Code, s0: State, s1: State, s2: State, source: nat, target: nat, r: Option<nat>,
                        placed: map<nat, nat>)
    requires HasSpace(s0, source) && CopyOf(code, s0, s1, source, target) && TablesOk(s2)
    requires MapResult(code, s1, s2, target, LEVELS, USER_STACK, First(1, LEVELS), FramePool.User, PAGE_FLAGS, r,
                       placed)
    requires r.Some?
    ensures HasUserStack(s0, s2, source, target, placed)
  {
    UserFramesPlaced(code, s0, s1, s2, source, target, r, placed);
    CopyKeepsTidy(code, s0, s1, source, target, source);
    MapKeepsTidy(code, s1, s2, target, USER_STACK, FramePool.User, PAGE_FLAGS, r, placed, source);
    assert HasRoot(s1, target) && source != target by {
      CopiedKey(s0.d, s1.d, source, target, Key(target, LEVELS, 0));
    }
    forall v: nat | v < SPACE_END
      ensures v in placed ==> HasRoot(s2, target) && FullyMapped(s2.m, target, v, placed[v])
      ensures v !in placed && Translate(s0.m, source, v).Some? ==> SameMapping(s0.m, source, s2.m, target, v)
      ensures SameMapping(s0.m, source, s2.m, source, v)
    {
      UserPage(code, s0, s1, s2, source, target, r, placed, v);
    }
    assert HasRoot(s2, target) by {
      assert USER_STACK.start in placed;
    }
  }

  lemma UserFramesPlaced(code: Code, s0: State, s1: State, s2: State, source: nat, target: nat, r: Option<nat>,
                         placed: map<nat, nat>)
    requires CopyOf(code, s0, s1, source, target) && r.Some?
    requires MapResult(code, s1, s2, target, LEVELS, USER_STACK, First(1, LEVELS), FramePool.User, PAGE_FLAGS, r,
                       placed)
    ensures forall v :: USER_STACK.Has(v) <==> v in placed
    ensures forall v, w :: v in placed && w in placed && placed[v] == placed[w] ==> v == w
    ensures forall v :: v in placed ==> Footprint(s0.user, placed[v]) && !Footprint(s2.user, placed[v])
    ensures forall v :: v in placed ==> v < SPACE_END
  {
    hide EntriesKept, LeavesSet, Grown, HasWanted, KeysDoubled;
    hide LeavesDoubled, UnusedKept, StaleBetween, FramesUsed, RootTidy, TablesOk;
    SpaceEnd();
    MapStaysInRangeExactlyWhen(code, USER_STACK);
  }

  lemma UserPage(code: Code, s0: State, s1: State, s2: State, source: nat, target: nat, r: Option<nat>,
                 placed: map<nat, nat>, v: nat)
    requires HasSpace(s0, source) && CopyOf(code, s0, s1, source, target)
    requires TablesOk(s2) && v < SPACE_END && source != target
    requires MapResult(code, s1, s2, target, LEVELS, USER_STACK, First(1, LEVELS), FramePool.User, PAGE_FLAGS, r,
                       placed)
    requires HasRoot(s1, target)
    ensures v in placed ==> HasRoot(s2, target) && FullyMapped(s2.m, target, v, placed[v])
    ensures v !in placed && Translate(s0.m, source, v).Some? ==> SameMapping(s0.m, source, s2.m, target, v)
    ensures SameMapping(s0.m, source, s2.m, source, v)
  {
    hide HasSpace, CopyOf, TablesOk, MapResult, Translate, NoStray, RightsOf;
    CopyMapsOthers(code, s0, s1, source, target, source, v);
    MapMaps(code, s1, s2, target, USER_STACK, FramePool.User, PAGE_FLAGS, r, placed, source, v);
    if v in placed {
      MapMaps(code, s1, s2, target, USER_STACK, FramePool.User, PAGE_FLAGS, r, placed, target, v);
    } else if Translate(s0.m, source, v).Some? {
      CopyMaps(code, s0, s1, source, target, v);
      MapMaps(code, s1, s2, target, USER_STACK, FramePool.User, PAGE_FLAGS, r, placed, target, v);
    }
  }

  lemma AddedIsOk(s0: State, s1: State, root: nat)
    requires SpaceAdded(s0, s1, root)
    ensures TablesOk(s1)
  {
  }

  lemma AddedIsKnown(s0: State, s1: State, root: nat, pages: Range)
    requires SpaceAdded(s0, s1, root)
    ensures HasSpace(s1, root) && HasRoot(s1, root) && Passable(s1.m, s1.d, root, pages.start, Upto(pages))
  {
    TidyIsPassable(s1.m, s1.d, root, pages.start, Upto(pages));
  }

  lemma CopyKeepsKnown(code: Code, s0: State, s1: State, source: nat, target: nat)
    requires HasSpace(s0, source) && CopyOf(code, s0, s1, source, target)
    ensures HasSpace(s1, source) && HasRoot(s1, target)
  {
    CopyKeepsTidy(code, s0, s1, source, target, source);
    CopiedKey(s0.d, s1.d, source, target, Key(target, LEVELS, 0));
  }

  // --- frames for a copy ------------------------------------------------------------------------

  lemma SourceHasTables(s: State, source: nat)
    requires HasSpace(s, source)
    ensures |TablesOf(s.d, source)| == 1 + |Listed(s.d, Key(source, LEVELS, 0), 512)|
  {
    OrderSize(s, source);
  }

  lemma CopyHadFrames(code: Code, s0: State, s1: State, source: nat, target: nat)
    requires HasSpace(s0, source) && CopyOf(code, s0, s1, source, target)
    ensures Total(s0.kernel) >= |TablesOf(s0.d, source)|
  {
    OrderSize(s0, source);
    FramesTotal(s0.kernel);
  }

  lemma TooFewFrames(s0: State, s1: State, source: nat, target: nat)
    requires HasSpace(s0, source) && SpaceAdded(s0, s1, target)
    requires Total(s1.kernel) < |Listed(s1.d, Key(source, LEVELS, 0), 512)|
    ensures Total(s0.kernel) < |TablesOf(s0.d, source)|
  {
    OrderSize(s0, source);
    AddedCost(s0, s1, target);
    AddedParts(s0, s1, target);
    ListedSame(s0.d, s1.d, Key(source, LEVELS, 0), 512);
  }

  lemma JoinsReady(code: Code, s0: State, s: State, s1: State, s2: State, skey: Key, tkey: Key, c: nat, f: nat)
    requires CanCopy(s0, skey, tkey) && tkey.level > 1 && TablesOk(s) && TablesOk(s1) && TablesOk(s2)
    requires tkey.prefix * 512 <= c < tkey.prefix * 512 + 512
    requires Copied(code, s0, s, skey.root, tkey, c) && Key(skey.root, skey.level - 1, c) in s0.d
    requires Key(tkey.root, tkey.level - 1, c) !in s.d
    requires LinkedIn(code, s, s1, tkey, c, f) && CountKept(s, s1)
    requires Copied(code, s1, s2, skey.root, Key(tkey.root, tkey.level - 1, c), c * 512 + 512)
    ensures Joins(code, s0, s, s1, s2, skey, tkey, c, f)
  {
    hide CanCopy, TablesOk, Copied, LinkedIn, CountKept;
  }

  lemma CopyNeedsKeys(s: State, skey: Key, tkey: Key)
    requires CanCopy(s, skey, tkey)
    ensures skey in s.d && tkey in s.d && skey.level == tkey.level && skey.prefix == tkey.prefix
  {
  }

  lemma StartsInSpace(s: State, root: nat, page: nat)
    requires HasRoot(s, root) && page < SPACE_END
    ensures Key(root, LEVELS, 0) in s.d && s.d[Key(root, LEVELS, 0)] == root && Prefix(page, LEVELS) == 0
  {
    SpaceEnd();
    PrefixBelow(page, 1, LEVELS);
    assert Linked(s.m, s.d, Key(root, LEVELS, 0));
  }

  lemma TablesNeededPositive(n: nat)
    ensures TablesNeeded(n) > 0
  {
  }

  /** The space maps the pages [0, n) to the frames of the same numbers, for all uses, and nothing
      else. */
  ghost predicate IsIdentity(m: seq<PageFrame>, root: nat, n: nat) {
    forall v: nat :: v < SPACE_END ==> if v < n then FullyMapped(m, root, v, v) else Translate(m, root, v) == None
  }

  lemma KernelSpaceBuilt(code: Code, s0: State, s1: State, s2: State, root: nat, n: nat, r: Option<nat>,
                         placed: map<nat, nat>)
    requires TablesOk(s0) && SpaceAdded(s0, s1, root) && TablesOk(s2) && 0 < n <= SPACE_END
    requires MapResult(code, s1, s2, root, LEVELS, Range(0, n), First(1, LEVELS), FramePool.Kernel, PAGE_FLAGS, r,
                       placed)
    requires r.Some?
    ensures HasSpace(s2, root) && IsIdentity(s2.m, root, n)
  {
    hide TablesOk, SpaceAdded, MapResult, HasSpace, Translate, RightsOf, WriteEnd;
    AddedIsKnown(s0, s1, root, Range(0, n));
    MapKeepsTidy(code, s1, s2, root, Range(0, n), FramePool.Kernel, PAGE_FLAGS, r, placed, root);
    forall v: nat | v < SPACE_END
      ensures if v < n then FullyMapped(s2.m, root, v, v) else Translate(s2.m, root, v) == None
    {
      IdentityMapped(code, s0, s1, s2, root, n, PAGE_FLAGS, r, placed, v);
      MapCovers(code, s1, s2, root, Range(0, n), FramePool.Kernel, PAGE_FLAGS, r, placed, v);
      if v < n {
        MapGivesRights(code, s1, s2, root, Range(0, n), FramePool.Kernel, PAGE_FLAGS, r, placed, root, v);
      }
    }
  }

  lemma ListsShrink(code: Code, s0: State, s1: State, s2: State, root: nat, pages: Range, flags: nat, r: Option<nat>,
                    placed: map<nat, nat>)
    requires SpaceAdded(s0, s1, root)
    requires MapResult(code, s1, s2, root, LEVELS, pages, First(1, LEVELS), FramePool.Kernel, flags, r, placed)
    ensures Shrinks(s0.kernel, s2.kernel) && Shrinks(s0.user, s2.user)
  {
  }

  lemma UserFrameTaken(s0: State, s: State, s1: State, root: nat, placed: map<nat, nat>, flags: nat, f: nat)
    requires TablesOk(s) && Mapped(s0, s, root, FramePool.User, placed, flags) && Taken(s, s1, FramePool.User, f)
    ensures Mapped(s0, s1, root, FramePool.User, placed, flags) && s1.kernel == s.kernel
    ensures if f == 0 then s1.user == s.user && Total(s1.user) == 0 else Total(s1.user) + 1 == Total(s.user)
    ensures f != 0 ==> f !in placed.Values && Footprint(s0.user, f) && !Footprint(s1.user, f)
  {
    hide *;
    MappedFrames(s0, s, root, placed, flags);
    UserFrameFresh(s0, s, s1, placed, f);
    TakenTables(s, s1, f);
    MappedNothing(s, s1, root, FramePool.User, flags);
    MappedTrans(s0, s, s1, root, FramePool.User, placed, map[], flags);
    assert placed + map[] == placed;
  }

  lemma MappedFrames(s0: State, s: State, root: nat, placed: map<nat, nat>, flags: nat)
    requires Mapped(s0, s, root, FramePool.User, placed, flags)
    ensures Placement(FramePool.User, placed, s0.user, s.user) && Shrinks(s0.user, s.user)
  {
  }

  lemma TakenTables(s: State, s1: State, f: nat)
    requires TablesOk(s) && Taken(s, s1, FramePool.User, f)
    ensures EntriesKept(s.m, s.d, s1.m, s1.d) && SameLeaves(s.m, s.d, s1.m, s1.d) && Shrinks(s.user, s1.user)
  {
    hide EntriesKept, SameLeaves;
    SameTablesKeep(s.m, s1.m, s.d);
  }

  lemma UserFrameFresh(s0: State, s: State, s1: State, placed: map<nat, nat>, f: nat)
    requires Placement(FramePool.User, placed, s0.user, s.user) && Shrinks(s0.user, s.user)
    requires Taken(s, s1, FramePool.User, f)
    ensures s1.kernel == s.kernel
    ensures if f == 0 then s1.user == s.user && Total(s1.user) == 0 else Total(s1.user) + 1 == Total(s.user)
    ensures f != 0 ==> f !in placed.Values && Footprint(s0.user, f) && !Footprint(s1.user, f)
  {
    if f != 0 {
      assert Range(f, f + 1).Has(f);
    }
  }

  /** The frame is the one that the mapping is to give to the page. */
  ghost predicate CanPlace(s0: State, s: State, space: FramePool.Space, placed: map<nat, nat>, v: nat, f: nat) {
    match space
    case Kernel => f == v
    case User => f !in placed.Values && Footprint(s0.user, f) && !Footprint(s.user, f)
  }

  /** Entering a frame for a page into its level-1 table. */
  lemma EnterPage(s0: State, s: State, k: Key, space: FramePool.Space, placed: map<nat, nat>, flags: nat, v: nat,
                  f: nat)
    requires TablesOk(s) && k in s.d && k.level == 1 && v / 512 == k.prefix
    requires v !in placed && Mapped(s0, s, k.root, space, placed, flags) && CanPlace(s0, s, space, placed, v, f)
    ensures Writable(s, s.d[k])
    ensures var s1 := s.(m := s.m[s.d[k] := s.m[s.d[k]][v % 512 := Word(f, flags)]]);
      TablesOk(s1) && Mapped(s0, s1, k.root, space, placed[v := f], flags)
  {
    assert Linked(s.m, s.d, k);
    SetOne(s.m, s.d, k, flags, v, f);
    var s1 := s.(m := s.m[s.d[k] := s.m[s.d[k]][v % 512 := Word(f, flags)]]);
    EntriesKeptTrans(s0.m, s0.d, s.m, s.d, s1.m, s1.d);
    hide EntriesKept, LeavesSet, Placement, CanPlace, Links, Distinct, Shrinks;
    EnterLeaf(s0.m, s0.d, s.m, s1.m, s.d, k.root, placed, flags, v, f);
    EnterPlacement(s0, s, space, placed, v, f);
  }

  lemma EnterLeaf(m0: seq<PageFrame>, d0: Directory, m: seq<PageFrame>, m1: seq<PageFrame>, d: Directory,
                  root: nat, placed: map<nat, nat>, flags: nat, v: nat, f: nat)
    requires LeavesSet(m0, d0, m, d, root, placed, flags) && LeavesSet(m, d, m1, d, root, map[v := f], flags)
    ensures LeavesSet(m0, d0, m1, d, root, placed[v := f], flags)
  {
    hide Leaf;
    forall w: nat | w in placed[v := f]
      ensures Key(root, 1, w / 512) in d
    {
      assert w in placed || w in map[v := f];
    }
    forall r: nat, w: nat
      ensures Leaf(m1, d, r, w)
        == if r == root && w in placed[v := f] then Word(placed[v := f][w], flags) else Leaf(m0, d0, r, w)
    {
      assert Leaf(m1, d, r, w) == if r == root && w in map[v := f] then Word(f, flags) else Leaf(m, d, r, w);
    }
  }

  lemma EnterPlacement(s0: State, s: State, space: FramePool.Space, placed: map<nat, nat>, v: nat, f: nat)
    requires v !in placed && Placement(space, placed, s0.user, s.user) && CanPlace(s0, s, space, placed, v, f)
    ensures Placement(space, placed[v := f], s0.user, s.user)
  {
    forall w | w in placed
      ensures placed[w] in placed.Values
    {
    }
  }

  /** `Passable` for the rest of a range. */
  lemma StillPassable(s: State, s1: State, root: nat, space: FramePool.Space, placed: map<nat, nat>, flags: nat,
                      pages: Range, cur: nat)
    requires Mapped(s, s1, root, space, placed, flags) && Passable(s.m, s.d, root, pages.start, Upto(pages))
    requires cur == pages.start || pages.start <= cur < pages.end
    ensures Passable(s1.m, s1.d, root, cur, Upto(Range(cur, pages.end)))
  {
    StaysPassable(s.m, s.d, s1.m, s1.d, root, pages.start, Upto(pages), cur, Upto(Range(cur, pages.end)));
  }

  lemma StillThere(code: Code, s: State, s1: State, key: Key, pages: Range, end: nat, cur: nat,
                   space: FramePool.Space, flags: nat, placed: map<nat, nat>)
    requires SoFar(code, s, s1, key.root, key.level, pages, end, cur, space, flags, placed)
    requires Reached(code, pages, end, cur)
    requires Passable(s.m, s.d, key.root, pages.start, Upto(pages)) && key in s.d
    ensures Passable(s1.m, s1.d, key.root, cur, Upto(Range(cur, pages.end))) && key in s1.d && s1.d[key] == s.d[key]
  {
    hide Mapped, LeafEnd, Passable, HasWanted;
    StillPassable(s, s1, key.root, space, placed, flags, pages, cur);
  }

  lemma NothingPlaced(s: State, root: nat, space: FramePool.Space, flags: nat)
    requires TablesOk(s)
    ensures Mapped(s, s, root, space, map[], flags) && Paid(space, map[], s.user, s.user)
  {
    SameTablesKeep(s.m, s.m, s.d);
    MappedNothing(s, s, root, space, flags);
  }

  lemma RowBounds(code: Code, start: nat, count: nat)
    ensures PageTableIndex(start, 1) == start % 512
    ensures LeafEnd(code, start, count) == start + Min(Bound(code, start, count), 512 - start % 512)
    ensures var allocCount := Min(count, 512 - start % 512);
      Bound(code, start, count) == if code.AsWritten? then start % 512 + allocCount else allocCount
  {
    assert Prefix(start, 0) == start;
  }

  lemma NonePlaced(start: nat)
    ensures PlacedAre(map[], start, start)
  {
  }

  lemma PlacedUpTo(placed: map<nat, nat>, lo: nat, mid: nat, hi: nat)
    requires PlacedAre(placed, lo, mid) && lo <= mid <= hi
    ensures mid !in placed && lo + |placed| == mid && PlacedIn(placed, lo, hi)
  {
    PlacedSize(placed, lo, mid);
  }

  ghost predicate HasOneMore(before: map<nat, nat>, placed: map<nat, nat>, page: nat) {
    placed.Keys == before.Keys + {page}
  }

  lemma PlacedNext(before: map<nat, nat>, placed: map<nat, nat>, lo: nat, page: nat)
    requires PlacedAre(before, lo, page) && lo <= page && HasOneMore(before, placed, page)
    ensures PlacedAre(placed, lo, page + 1)
  {
    forall v: nat
      ensures v in placed <==> lo <= v < page + 1
    {
      assert v in placed <==> v in placed.Keys;
    }
  }

  lemma OneMorePlaced(space: FramePool.Space, placed: map<nat, nat>, page: nat, frame: nat,
                      user0: seq<Range>, user1: seq<Range>, user2: seq<Range>)
    requires page !in placed && Paid(space, placed, user0, user1)
    requires if space.Kernel? then user2 == user1 else Total(user2) + 1 == Total(user1)
    ensures HasOneMore(placed, placed[page := frame], page) && Paid(space, placed[page := frame], user0, user2)
  {
    assert placed[page := frame].Keys == placed.Keys + {page};
  }

  lemma KernelTaken(s: State, s1: State, f: nat)
    requires Taken(s, s1, FramePool.Kernel, f)
    ensures s1.user == s.user
  {
  }

  /** What the level-1 loop does is what `map_in_table` promises on level 1. */
  lemma RowResult(code: Code, s0: State, s1: State, key: Key, pages: Range, space: FramePool.Space, flags: nat,
                  r: Option<nat>, placed: map<nat, nat>)
    requires key.level == 1 && pages.start / 512 == key.prefix && s1.d == s0.d && s1.kernel == s0.kernel
    requires Mapped(s0, s1, key.root, space, placed, flags) && Paid(space, placed, s0.user, s1.user)
    requires PlacedIn(placed, pages.start, LeafEnd(code, pages.start, pages.Count()))
    requires r.None? ==> space.User? && Total(s1.user) == 0
    requires r.None? ==> pages.start + |placed| < LeafEnd(code, pages.start, pages.Count())
    requires r.Some? ==> r.value == Min(pages.Count(), 512 - pages.start % 512)
    requires r.Some? ==> PlacedAre(placed, pages.start, LeafEnd(code, pages.start, pages.Count()))
    ensures MapResult(code, s0, s1, key.root, 1, pages, First(key.prefix + 1, 1), space, flags, r, placed)
  {
    hide Mapped, Paid;
    assert First(key.prefix + 1, 1) == First((key.prefix + 1) * 512, 0) == (key.prefix + 1) * 512;
    assert pages.start == 512 * (pages.start / 512) + pages.start % 512;
    LeafEndBounds(code, pages.start, pages.Count());
    hide LeafEnd;
  }

  lemma StartOfTable(code: Code, s: State, key: Key, pages: Range, space: FramePool.Space, flags: nat)
    requires TablesOk(s) && key.level > 1 && Prefix(pages.start, key.level) == key.prefix
    ensures var end := First(key.prefix + 1, key.level);
      && SoFar(code, s, s, key.root, key.level, pages, end, pages.start, space, flags, map[])
      && Reached(code, pages, end, pages.start)
      && Prefix(pages.start, key.level - 1) == key.prefix * 512 + PageTableIndex(pages.start, key.level)
  {
    hide Mapped, Grown, LeafEnd, TablesOk, HasWanted, PlacedAre, First, Prefix;
    var end := First(key.prefix + 1, key.level);
    PrefixIs(pages.start, key.prefix, key.level);
    NothingChanged(s, key.root, key.level, pages.start, VisitEnd(pages, end), space, flags);
    NonePlaced(pages.start);
    NoneWanted(s.d, key.root, key.level, pages.start);
    IndexInTable(pages.start, key.prefix, key.level);
  }

  lemma NoneWanted(d: Directory, root: nat, level: nat, page: nat)
    ensures HasWanted(d, root, level, page, page)
  {
  }

  lemma IndexInTable(page: nat, prefix: nat, level: nat)
    requires level >= 1 && Prefix(page, level) == prefix
    ensures Prefix(page, level - 1) == prefix * 512 + PageTableIndex(page, level)
  {
  }

  lemma EntryBounds(key: Key, index: nat, cur: nat)
    requires key.level > 1 && index < 512 && Prefix(cur, key.level - 1) == key.prefix * 512 + index
    ensures var entryEnd := First(key.prefix * 512 + index + 1, key.level - 1);
      && cur < entryEnd <= First(key.prefix + 1, key.level) && entryEnd % 512 == 0
      && Prefix(entryEnd, key.level - 1) == key.prefix * 512 + index + 1
      && (index == 511 ==> entryEnd == First(key.prefix + 1, key.level))
      && (index < 511 ==> entryEnd < First(key.prefix + 1, key.level))
  {
    var p := key.prefix * 512 + index;
    PrefixIs(cur, p, key.level - 1);
    FirstAligned(p + 1, key.level - 1);
    PrefixOfFirst(p + 1, key.level - 1);
    assert First(key.prefix + 1, key.level) == First(key.prefix * 512 + 512, key.level - 1);
    if index < 511 {
      FirstMonotone(p + 1, key.prefix * 512 + 512, key.level - 1);
    }
  }

  lemma EndOfTable(code: Code, s0: State, s1: State, root: nat, level: nat, pages: Range, end: nat,
                   space: FramePool.Space, flags: nat, placed: map<nat, nat>)
    requires SoFar(code, s0, s1, root, level, pages, end, end, space, flags, placed)
    requires pages.start < end < pages.end && LeafEnd(code, pages.start, pages.Count()) <= end
    ensures MapResult(code, s0, s1, root, level, pages, end, space, flags, Some(end - pages.start), placed)
  {
  }
}
