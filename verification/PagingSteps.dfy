/** States of the paging code, and what one mapping step does to them. */
module PagingSteps {
  import opened Ranges
  import opened PhysMemory
  import opened PageTables
  import FreeLists
  import FramePool

  /** Physical memory, the tables in it, and both free lists. */
  datatype State = State(m: seq<PageFrame>, d: Directory, kernel: seq<Range>, user: seq<Range>)

  function ListOf(s: State, space: FramePool.Space): seq<Range> {
    if space.Kernel? then s.kernel else s.user
  }

  /** The tables form a forest of distinct frames, none of which is in a free list. */
  ghost predicate TablesOk(s: State) {
    && Links(s.m, s.d) && Distinct(s.d)
    && forall k :: k in s.d ==> !Footprint(s.kernel, s.d[k]) && !Footprint(s.user, s.d[k])
  }

  lemma TablesLinked(s: State)
    requires TablesOk(s)
    ensures Links(s.m, s.d)
  {
  }

  ghost predicate Shrinks(before: seq<Range>, after: seq<Range>) {
    && (forall f: nat :: Footprint(after, f) ==> Footprint(before, f))
    && (forall f: nat :: f in Frames(after) ==> f in Frames(before))
  }

  // --- taking a frame -----------------------------------------------------------------------

  /** A frame that holds no table and is in no list, but still carries the node of the free
      block it was cut from, with its count. */
  ghost predicate FreshFrame(s: State, f: nat, count: nat) {
    && 0 < f < |s.m| && f !in s.d.Values
    && !Footprint(s.kernel, f) && !Footprint(s.user, f)
    && s.m[f][0] == CountWord(count) && s.m[f][1] == ZERO_WORD
  }

  /** One call of the allocator by the paging code: `f` is the frame it got, or 0. */
  ghost predicate Taken(s0: State, s1: State, space: FramePool.Space, f: nat) {
    && s1.d == s0.d && SameTables(s0.m, s1.m, s0.d)
    && (space.Kernel? ==> s1.user == s0.user)
    && (space.User? ==> s1.kernel == s0.kernel)
    && (f == 0 ==> ListOf(s1, space) == ListOf(s0, space) && Total(ListOf(s0, space)) == 0)
    && (f != 0 ==> FramePool.Granted(ListOf(s0, space), ListOf(s1, space), Range(f, f + 1)))
    && (f != 0 ==> FreshFrame(s1, f, RunFrom(ListOf(s0, space), f)))
    && (forall g, i :: 0 <= g < |s1.m| && 2 <= i < 512 ==> s1.m[g][i] == s0.m[g][i])
  }

  /** A frame of one list is not in the footprint of the other. */
  lemma ListsDisjoint(p: FramePool.Pool, space: FramePool.Space)
    requires FramePool.WellFormed(p)
    ensures forall f: nat :: Footprint(FramePool.ListOf(p, space), f) ==> f >= 1
    ensures forall f: nat ::
      Footprint(FramePool.ListOf(p, space), f) ==>
        !Footprint(FramePool.ListOf(p, if space.Kernel? then FramePool.User else FramePool.Kernel), f)
  {
  }

  /** The allocator leaves the tables alone and hands out a fresh frame. */
  lemma AllocatorTakes(s0: State, p0: FramePool.Pool, s1: State, p1: FramePool.Pool,
                       space: FramePool.Space, r: Option<Range>)
    requires FramePool.WellFormed(p0) && |s0.m| == p0.size
    requires s0.kernel == p0.kernel && s0.user == p0.user && s1.kernel == p1.kernel && s1.user == p1.user
    requires TablesOk(s0) && s1.d == s0.d
    requires FreeLists.WritesNodesIn(s0.m, s1.m, ListOf(s0, space))
    requires FramePool.GrantsOne(p0, space, r, p1)
    requires r.Some? ==> FreeLists.StaleNode(s1.m[r.value.start], RunFrom(ListOf(s0, space), r.value.start))
    ensures Taken(s0, s1, space, if r.None? then 0 else r.value.start)
    ensures TablesOk(s1)
  {
    ListsDisjoint(p0, space);
    assert Shrinks(s0.kernel, s1.kernel) && Shrinks(s0.user, s1.user);
    SameTablesKeep(s0.m, s1.m, s0.d);
    if r.Some? {
      var f := r.value.start;
      assert r.value.Has(f) && r.value == Range(f, f + 1);
      assert Footprint(ListOf(s0, space), f);
    }
  }

  // --- mapping ------------------------------------------------------------------------------

  /** What the frames of placed pages are: the pages' own numbers for a kernel mapping, and
      otherwise distinct frames that have left the user list. */
  ghost predicate Placement(space: FramePool.Space, placed: map<nat, nat>, user0: seq<Range>, user1: seq<Range>) {
    match space
    case Kernel => forall v :: v in placed ==> placed[v] == v
    case User =>
      && (forall v, w :: v in placed && w in placed && placed[v] == placed[w] ==> v == w)
      && (forall v :: v in placed ==> Footprint(user0, placed[v]) && !Footprint(user1, placed[v]))
  }

  /** Every placed page of a user mapping has cost one frame of the user list. */
  ghost predicate Paid(space: FramePool.Space, placed: map<nat, nat>, user0: seq<Range>, user1: seq<Range>) {
    if space.Kernel? then user1 == user0 else Total(user1) + |placed| == Total(user0)
  }

  /** The pages from `lo` up to `hi` are the ones that have been placed. */
  ghost predicate PlacedAre(placed: map<nat, nat>, lo: nat, hi: nat) {
    forall v: nat :: v in placed <==> lo <= v < hi
  }

  ghost predicate PlacedIn(placed: map<nat, nat>, lo: nat, hi: nat) {
    forall v: nat :: v in placed ==> lo <= v < hi
  }

  function Numbers(lo: nat, hi: nat): (r: set<nat>)
    ensures forall v :: v in r <==> lo <= v < hi
    ensures lo <= hi ==> |r| == hi - lo
    decreases hi
  {
    if lo >= hi then {} else Numbers(lo, hi - 1) + {hi - 1}
  }

  lemma PlacedSize(placed: map<nat, nat>, lo: nat, hi: nat)
    requires PlacedAre(placed, lo, hi) && lo <= hi
    ensures |placed| == hi - lo
  {
    assert placed.Keys == Numbers(lo, hi);
    assert |placed| == |placed.Keys|;
  }

  lemma JoinSize(a: map<nat, nat>, b: map<nat, nat>)
    requires a.Keys !! b.Keys
    ensures |a + b| == |a| + |b|
  {
    assert (a + b).Keys == a.Keys + b.Keys;
    assert |a + b| == |(a + b).Keys| == |a.Keys| + |b.Keys|;
  }

  /** What mapping has done between two states: the leaves of the placed pages are set, all
      other leaves are as before, and so are the entries that point to no table. */
  ghost predicate Mapped(s0: State, s1: State, root: nat, space: FramePool.Space, placed: map<nat, nat>, flags: nat) {
    && EntriesKept(s0.m, s0.d, s1.m, s1.d)
    && LeavesSet(s0.m, s0.d, s1.m, s1.d, root, placed, flags)
    && Placement(space, placed, s0.user, s1.user)
    && Shrinks(s0.user, s1.user)
  }

  lemma MappedNothing(s0: State, s1: State, root: nat, space: FramePool.Space, flags: nat)
    requires EntriesKept(s0.m, s0.d, s1.m, s1.d) && SameLeaves(s0.m, s0.d, s1.m, s1.d)
    requires Shrinks(s0.user, s1.user)
    ensures Mapped(s0, s1, root, space, map[], flags)
  {
  }

  lemma MappedTrans(s0: State, s1: State, s2: State, root: nat, space: FramePool.Space,
                    a: map<nat, nat>, b: map<nat, nat>, flags: nat)
    requires Mapped(s0, s1, root, space, a, flags) && Mapped(s1, s2, root, space, b, flags)
    ensures Mapped(s0, s2, root, space, a + b, flags)
  {
    EntriesKeptTrans(s0.m, s0.d, s1.m, s1.d, s2.m, s2.d);
    hide EntriesKept;
    forall r: nat, v: nat
      ensures Leaf(s2.m, s2.d, r, v)
        == if r == root && v in a + b then Word((a + b)[v], flags) else Leaf(s0.m, s0.d, r, v)
    {
      assert Leaf(s2.m, s2.d, r, v) == if r == root && v in b then Word(b[v], flags) else Leaf(s1.m, s1.d, r, v);
    }
    PlacementTrans(space, a, b, s0.user, s1.user, s2.user);
  }

  lemma PlacementTrans(space: FramePool.Space, a: map<nat, nat>, b: map<nat, nat>,
                       user0: seq<Range>, user1: seq<Range>, user2: seq<Range>)
    requires Placement(space, a, user0, user1) && Placement(space, b, user1, user2)
    requires Shrinks(user0, user1) && Shrinks(user1, user2)
    ensures Placement(space, a + b, user0, user2)
  {
  }

  /** Rewriting one entry of a level-1 table. */
  lemma SetOne(m: seq<PageFrame>, d: Directory, k: Key, flags: nat, v: nat, f: nat)
    requires Links(m, d) && Distinct(d) && k in d && k.level == 1 && d[k] < |m| && v / 512 == k.prefix
    ensures var m1 := m[d[k] := m[d[k]][v % 512 := Word(f, flags)]];
      Links(m1, d) && EntriesKept(m, d, m1, d) && LeavesSet(m, d, m1, d, k.root, map[v := f], flags)
  {
    var row := m[d[k]][v % 512 := Word(f, flags)];
    SetRow(m, d, k, row);
    var m1 := m[d[k] := row];
    forall r: nat, w: nat
      ensures Leaf(m1, d, r, w) == if r == k.root && w in map[v := f] then Word(f, flags) else Leaf(m, d, r, w)
    {
      if r == k.root && w / 512 == k.prefix {
        assert w == 512 * (w / 512) + w % 512 && v == 512 * (v / 512) + v % 512;
        assert Key(r, 1, w / 512) == k;
      }
    }
  }

  // --- which tables come into being ---------------------------------------------------------

  /** The last page that a table ending at `end` maps of the range, plus one. */
  function Stop(pages: Range, end: nat): nat {
    if pages.end <= pages.start then pages.start else if pages.end < end then pages.end else end
  }

  /** Even an empty range visits the tables of its first page. */
  function VisitEnd(pages: Range, end: nat): nat {
    if Stop(pages, end) == pages.start then pages.start + 1 else Stop(pages, end)
  }

  /** The same for the whole of a range. */
  function Upto(pages: Range): nat {
    if pages.end <= pages.start then pages.start + 1 else pages.end
  }

  /** The end of the pages that the level-1 loops write, see `PageTables.LeafEnd`. */
  function WriteEnd(code: Code, pages: Range, end: nat): nat {
    var leafEnd := LeafEnd(code, pages.start, pages.Count());
    if Stop(pages, end) < leafEnd then leafEnd else Stop(pages, end)
  }

  /** New tables are wanted ones, and each has cost one frame of the kernel list. */
  ghost predicate Grown(s0: State, s1: State, root: nat, level: nat, lo: nat, hi: nat) {
    && Grows(s0.d, s1.d, root, level, lo, hi)
    && |s1.d| + Total(s1.kernel) == |s0.d| + Total(s0.kernel)
    && Shrinks(s0.kernel, s1.kernel)
  }

  lemma WantedWiden(k: Key, root: nat, level: nat, lo: nat, hi: nat, level': nat, lo': nat, hi': nat)
    requires Wanted(k, root, level, lo, hi) && level <= level' && lo' <= lo && hi <= hi'
    ensures Wanted(k, root, level', lo', hi')
  {
    VisitsWiden(k.level, k.prefix, lo, hi, lo', hi');
  }

  lemma GrownTrans(s0: State, s1: State, s2: State, root: nat, level: nat, lo: nat, hi: nat,
                   level': nat, lo': nat, hi': nat)
    requires Grown(s0, s1, root, level, lo, hi) && Grown(s1, s2, root, level', lo', hi')
    requires level' <= level && lo <= lo' && hi' <= hi
    ensures Grown(s0, s2, root, level, lo, hi)
  {
    forall k | k in s2.d && k !in s0.d
      ensures Wanted(k, root, level, lo, hi)
    {
      if k !in s1.d {
        WantedWiden(k, root, level', lo', hi', level, lo, hi);
      }
    }
  }

  lemma GrownWiden(s0: State, s1: State, root: nat, level: nat, lo: nat, hi: nat, level': nat, lo': nat, hi': nat)
    requires Grown(s0, s1, root, level, lo, hi) && level <= level' && lo' <= lo && hi <= hi'
    ensures Grown(s0, s1, root, level', lo', hi')
  {
    forall k | k in s1.d && k !in s0.d
      ensures Wanted(k, root, level', lo', hi')
    {
      WantedWiden(k, root, level, lo, hi, level', lo', hi');
    }
  }

  /** What `map_in_table` promises for the part of `pages` before page `end`, on a table of
      level `level` or on the one entry of it that covers the start of the range. */
  ghost predicate MapResult(code: Code, s0: State, s1: State, root: nat, level: nat, pages: Range, end: nat,
                            space: FramePool.Space, flags: nat, r: Option<nat>, placed: map<nat, nat>) {
    && Mapped(s0, s1, root, space, placed, flags)
    && Grown(s0, s1, root, level, pages.start, VisitEnd(pages, end))
    && Paid(space, placed, s0.user, s1.user)
    && PlacedIn(placed, pages.start, WriteEnd(code, pages, end))
    && (r.Some? ==>
          && r.value == Stop(pages, end) - pages.start
          && PlacedAre(placed, pages.start, WriteEnd(code, pages, end))
          && HasWanted(s1.d, root, level, pages.start, VisitEnd(pages, end)))
    && (r.None? ==>
          || (Total(s1.kernel) == 0 && !HasWanted(s1.d, root, level, pages.start, VisitEnd(pages, end)))
          || (space.User? && Total(s1.user) == 0 && pages.start + |placed| < WriteEnd(code, pages, end)))
  }

  /** Out of memory while a table is needed: nothing has changed. */
  lemma NoTableTaken(s: State, s1: State, root: nat, level: nat, lo: nat, hi: nat, space: FramePool.Space, flags: nat)
    requires TablesOk(s) && Taken(s, s1, FramePool.Kernel, 0)
    ensures Mapped(s, s1, root, space, map[], flags) && Grown(s, s1, root, level, lo, hi)
    ensures Total(s1.kernel) == 0
  {
    SameTablesKeep(s.m, s1.m, s.d);
    MappedNothing(s, s1, root, space, flags);
  }

  lemma GrownByTable(s: State, s2: State, k: Key, i: nat, f: nat, page: nat)
    requires k in s.d && k.level > 1 && i < 512 && Down(k, i) !in s.d && s2.d == s.d[Down(k, i) := f]
    requires Prefix(page, k.level - 1) == k.prefix * 512 + i
    requires FramePool.Granted(s.kernel, s2.kernel, Range(f, f + 1))
    ensures Grown(s, s2, k.root, k.level, page, page + 1)
  {
    assert Visits(k.level - 1, k.prefix * 512 + i, page, page + 1);
    assert Wanted(Down(k, i), k.root, k.level, page, page + 1);
    assert s2.d.Keys == s.d.Keys + {Down(k, i)};
    assert |s2.d.Keys| == |s.d.Keys| + 1;
  }

  /** A frame that belongs to neither free list. */
  ghost predicate Writable(s: State, f: nat) {
    f < |s.m| && !Footprint(s.kernel, f) && !Footprint(s.user, f)
  }

  lemma NothingTaken(s: State, s1: State)
    requires Taken(s, s1, FramePool.Kernel, 0)
    ensures Total(s.kernel) == 0 && Total(s1.kernel) == 0 && s1.d == s.d
  {
  }

  /** A fresh frame becomes the zeroed table for entry `i` of table `k`. */
  lemma TableTaken(s: State, s1: State, k: Key, i: nat, f: nat, page: nat, space: FramePool.Space, flags: nat)
    requires TablesOk(s) && TablesOk(s1) && Taken(s, s1, FramePool.Kernel, f) && f != 0
    requires k in s.d && k.level > 1 && i < 512 && Down(k, i) !in s.d
    requires Prefix(page, k.level - 1) == k.prefix * 512 + i
    ensures Linked(s1.m, s1.d, k) && Writable(s1, s.d[k]) && Writable(s1, f) && s1.d == s.d
    ensures var s2 := State(WithTable(s1.m, s1.d, k, i, f), s1.d[Down(k, i) := f], s1.kernel, s1.user);
      && TablesOk(s2) && Down(k, i) in s2.d
      && Mapped(s, s2, k.root, space, map[], flags)
      && Grown(s, s2, k.root, k.level, page, page + 1)
  {
    var s2 := State(WithTable(s1.m, s1.d, k, i, f), s1.d[Down(k, i) := f], s1.kernel, s1.user);
    GrownByTable(s, s2, k, i, f, page);
    hide Grown;
    SameTablesKeep(s.m, s1.m, s.d);
    AddTable(s1.m, s1.d, k, i, f);
    SameLeavesTrans(s.m, s.d, s1.m, s1.d, s2.m, s2.d);
    MappedNothing(s, s2, k.root, space, flags);
  }

  lemma SameLeavesTrans(m0: seq<PageFrame>, d0: Directory, m1: seq<PageFrame>, d1: Directory,
                        m2: seq<PageFrame>, d2: Directory)
    requires SameLeaves(m0, d0, m1, d1) && SameLeaves(m1, d1, m2, d2)
    ensures SameLeaves(m0, d0, m2, d2)
  {
    forall r: nat, v: nat
      ensures Leaf(m2, d2, r, v) == Leaf(m0, d0, r, v)
    {
      assert Leaf(m2, d2, r, v) == Leaf(m1, d1, r, v);
    }
  }

  // --- one entry ----------------------------------------------------------------------------

  lemma EntryOfTable(s: State, k: Key, i: nat)
    requires TablesOk(s) && k in s.d && k.level > 1 && i < 512
    ensures s.d[k] < |s.m|
    ensures Down(k, i) in s.d ==> s.m[s.d[k]][i] == Word(s.d[Down(k, i)], TABLE_FLAGS) && s.d[Down(k, i)] != 0
  {
    assert Linked(s.m, s.d, k);
    UpDown(k, i);
    assert Down(k, i) in s.d ==> Linked(s.m, s.d, Down(k, i));
  }

  /** On the way of the pages an entry is null exactly where the table below it is missing. */
  lemma EntryOfChild(s: State, k: Key, i: nat, page: nat, hi: nat)
    requires TablesOk(s) && k in s.d && k.level > 1 && i < 512
    requires Passable(s.m, s.d, k.root, page, hi) && page < hi && Prefix(page, k.level - 1) == k.prefix * 512 + i
    ensures s.d[k] < |s.m|
    ensures if Down(k, i) in s.d then s.m[s.d[k]][i].frame == s.d[Down(k, i)] != 0 else s.m[s.d[k]][i].frame == 0
  {
    EntryOfTable(s, k, i);
    assert Visits(k.level - 1, k.prefix * 512 + i, page, hi);
  }

  /** In a tidy space an entry is unused exactly where the table below it is missing. */
  lemma EntryOfTidy(s: State, k: Key, i: nat)
    requires TablesOk(s) && Tidy(s.m, s.d, k.root) && k in s.d && k.level > 1 && i < 512
    ensures s.d[k] < |s.m|
    ensures if Down(k, i) in s.d then s.m[s.d[k]][i] == Word(s.d[Down(k, i)], TABLE_FLAGS) && s.d[Down(k, i)] != 0
            else s.m[s.d[k]][i] == ZERO_WORD
  {
    EntryOfTable(s, k, i);
  }

  lemma NothingChanged(s: State, root: nat, level: nat, lo: nat, hi: nat, space: FramePool.Space, flags: nat)
    requires TablesOk(s)
    ensures Mapped(s, s, root, space, map[], flags) && Grown(s, s, root, level, lo, hi)
  {
    SameTablesKeep(s.m, s.m, s.d);
    MappedNothing(s, s, root, space, flags);
  }

  ghost predicate AllIn(level: nat, prefix: nat, lo: nat, hi: nat) {
    forall v :: lo <= v < hi ==> Prefix(v, level) == prefix
  }

  /** The pages of the range up to the end of one table all lie in that table. */
  lemma VisitedByOne(pages: Range, prefix: nat, level: nat)
    requires level >= 1 && Prefix(pages.start, level) == prefix
    ensures pages.start < VisitEnd(pages, First(prefix + 1, level)) <= First(prefix + 1, level)
    ensures AllIn(level, prefix, pages.start, VisitEnd(pages, First(prefix + 1, level)))
  {
    PrefixIs(pages.start, prefix, level);
    forall v | pages.start <= v < VisitEnd(pages, First(prefix + 1, level))
      ensures Prefix(v, level) == prefix
    {
      PrefixIs(v, prefix, level);
    }
  }

  /** A table missing for entry `i` is a wanted table that is not there. */
  lemma MissingChild(code: Code, s: State, s1: State, k: Key, i: nat, pages: Range, space: FramePool.Space, flags: nat)
    requires k.level > 1 && i < 512 && Prefix(pages.start, k.level - 1) == k.prefix * 512 + i
    requires Mapped(s, s1, k.root, space, map[], flags) && Grown(s, s1, k.root, k.level, pages.start, pages.start + 1)
    requires Down(k, i) !in s1.d && Total(s1.kernel) == 0 && s1.user == s.user
    ensures MapResult(code, s, s1, k.root, k.level, pages, First(k.prefix * 512 + i + 1, k.level - 1), space, flags,
                      None, map[])
  {
    var end := First(k.prefix * 512 + i + 1, k.level - 1);
    VisitedByOne(pages, k.prefix * 512 + i, k.level - 1);
    hide Mapped, LeafEnd;
    GrownWiden(s, s1, k.root, k.level, pages.start, pages.start + 1, k.level, pages.start, VisitEnd(pages, end));
    assert Visits(k.level - 1, k.prefix * 512 + i, pages.start, VisitEnd(pages, end));
    assert Wanted(Down(k, i), k.root, k.level, pages.start, VisitEnd(pages, end));
  }

  /** From the table below entry `i` to the entry itself. */
  lemma LiftToEntry(code: Code, s: State, s1: State, s2: State, k: Key, i: nat, pages: Range, end: nat,
                    space: FramePool.Space, flags: nat, r: Option<nat>, placed: map<nat, nat>)
    requires k.level > 1 && i < 512 && Down(k, i) in s1.d
    requires end == First(k.prefix * 512 + i + 1, k.level - 1)
    requires AllIn(k.level - 1, k.prefix * 512 + i, pages.start, VisitEnd(pages, end))
    requires pages.start < VisitEnd(pages, end)
    requires Mapped(s, s1, k.root, space, map[], flags) && Grown(s, s1, k.root, k.level, pages.start, pages.start + 1)
    requires MapResult(code, s1, s2, k.root, k.level - 1, pages, end, space, flags, r, placed) && s1.user == s.user
    ensures MapResult(code, s, s2, k.root, k.level, pages, end, space, flags, r, placed)
  {
    hide Mapped, Grown, HasWanted, LeafEnd, AllIn, Paid, PlacedIn, PlacedAre;
    var hi := VisitEnd(pages, end);
    MappedTrans(s, s1, s2, k.root, space, map[], placed, flags);
    assert map[] + placed == placed;
    LiftGrown(s, s1, s2, k, i, pages.start, hi);
  }

  lemma LiftGrown(s: State, s1: State, s2: State, k: Key, i: nat, lo: nat, hi: nat)
    requires k.level > 1 && i < 512 && Down(k, i) in s1.d && lo < hi && AllIn(k.level - 1, k.prefix * 512 + i, lo, hi)
    requires Grown(s, s1, k.root, k.level, lo, lo + 1) && Grown(s1, s2, k.root, k.level - 1, lo, hi)
    ensures Grown(s, s2, k.root, k.level, lo, hi)
    ensures HasWanted(s2.d, k.root, k.level - 1, lo, hi) <==> HasWanted(s2.d, k.root, k.level, lo, hi)
  {
    GrownWiden(s, s1, k.root, k.level, lo, lo + 1, k.level, lo, hi);
    GrownTrans(s, s1, s2, k.root, k.level, lo, hi, k.level - 1, lo, hi);
    DirectoryGrew(s1, s2, k.root, k.level - 1, lo, hi, Down(k, i));
    WantedAtEntry(s2.d, k, i, lo, hi);
    LackCarriesOver(s2.d, k.root, k.level - 1, lo, hi, k.level, lo, hi);
  }

  lemma DirectoryGrew(s0: State, s1: State, root: nat, level: nat, lo: nat, hi: nat, k: Key)
    requires Grown(s0, s1, root, level, lo, hi) && k in s0.d
    ensures k in s1.d && s1.d[k] == s0.d[k]
  {
  }

  lemma WantedAtEntry(d: Directory, k: Key, i: nat, lo: nat, hi: nat)
    requires k.level > 1 && Down(k, i) in d
    requires AllIn(k.level - 1, k.prefix * 512 + i, lo, hi)
    ensures HasWanted(d, k.root, k.level - 1, lo, hi) ==> HasWanted(d, k.root, k.level, lo, hi)
  {
    if HasWanted(d, k.root, k.level - 1, lo, hi) {
      forall j | Wanted(j, k.root, k.level, lo, hi)
        ensures j in d
      {
        if j.level == k.level - 1 {
          var v :| lo <= v < hi && Prefix(v, j.level) == j.prefix;
          assert j == Down(k, i);
        } else {
          assert Wanted(j, k.root, k.level - 1, lo, hi);
        }
      }
    }
  }

  /** What is missing for a part is missing for the whole. */
  lemma LackCarriesOver(d: Directory, root: nat, level: nat, lo: nat, hi: nat, level': nat, lo': nat, hi': nat)
    requires level <= level' && lo' <= lo && hi <= hi'
    ensures !HasWanted(d, root, level, lo, hi) ==> !HasWanted(d, root, level', lo', hi')
  {
    if !HasWanted(d, root, level, lo, hi) {
      var k :| Wanted(k, root, level, lo, hi) && k !in d;
      WantedWiden(k, root, level, lo, hi, level', lo', hi');
    }
  }

  // --- one table ----------------------------------------------------------------------------

  /** Where the walk over the entries of a table stands: all pages before `cur` are done. */
  ghost predicate Reached(code: Code, pages: Range, end: nat, cur: nat) {
    && pages.start <= cur < end
    && (cur == pages.start || (cur < pages.end && cur % 512 == 0 && LeafEnd(code, pages.start, pages.Count()) <= cur))
  }

  ghost predicate SoFar(code: Code, s0: State, s1: State, root: nat, level: nat, pages: Range, end: nat, cur: nat,
                        space: FramePool.Space, flags: nat, placed: map<nat, nat>) {
    && Mapped(s0, s1, root, space, placed, flags)
    && Grown(s0, s1, root, level, pages.start, VisitEnd(pages, end))
    && Paid(space, placed, s0.user, s1.user)
    && HasWanted(s1.d, root, level, pages.start, cur)
    && PlacedAre(placed, pages.start, cur)
  }

  lemma {:induction false} FirstAligned(p: nat, level: nat)
    requires level >= 1
    ensures First(p, level) % 512 == 0
    decreases level
  {
    if level > 1 {
      FirstAligned(p * 512, level - 1);
    }
  }

  /** The pages a level-1 loop writes stay within its table, and within the range from an
      aligned start on, or where the range goes beyond the table. */
  lemma LeafEndBounds(code: Code, start: nat, count: nat)
    ensures start + (if count < 512 - start % 512 then count else 512 - start % 512)
      <= LeafEnd(code, start, count) <= start + (512 - start % 512)
    ensures start % 512 == 0 ==> LeafEnd(code, start, count) <= start + count
    ensures count >= 512 - start % 512 ==> LeafEnd(code, start, count) == start + (512 - start % 512)
  {
  }

  lemma NextAligned(start: nat, end: nat)
    requires start < end && end % 512 == 0
    ensures start + (512 - start % 512) <= end
  {
  }

  /** The arithmetic of going on from `cur` to the end of an entry. */
  lemma Advance(code: Code, pages: Range, end: nat, cur: nat, entryEnd: nat)
    requires Reached(code, pages, end, cur) && cur < entryEnd <= end && entryEnd % 512 == 0
    ensures var rest := Range(cur, pages.end);
      && VisitEnd(rest, entryEnd) <= VisitEnd(pages, end) && cur < VisitEnd(rest, entryEnd)
      && cur <= Stop(rest, entryEnd) && WriteEnd(code, rest, entryEnd) <= WriteEnd(code, pages, end)
      && cur <= WriteEnd(code, rest, entryEnd)
      && (Stop(rest, entryEnd) >= pages.end ==>
            && Stop(rest, entryEnd) == Stop(pages, end)
            && WriteEnd(code, rest, entryEnd) == WriteEnd(code, pages, end)
            && VisitEnd(rest, entryEnd) == VisitEnd(pages, end))
      && (Stop(rest, entryEnd) < pages.end ==>
            && Stop(rest, entryEnd) == WriteEnd(code, rest, entryEnd) == VisitEnd(rest, entryEnd) == entryEnd
            && LeafEnd(code, pages.start, pages.Count()) <= entryEnd)
  {
    NextAligned(cur, entryEnd);
    LeafEndBounds(code, cur, Range(cur, pages.end).Count());
    LeafEndBounds(code, pages.start, pages.Count());
  }

  lemma WantedJoin(d: Directory, root: nat, level: nat, lo: nat, mid: nat, hi: nat)
    requires HasWanted(d, root, level, lo, mid) && HasWanted(d, root, level, mid, hi)
    ensures HasWanted(d, root, level, lo, hi)
  {
    forall k | Wanted(k, root, level, lo, hi)
      ensures k in d
    {
      VisitsSplit(k.level, k.prefix, lo, mid, hi);
      assert Wanted(k, root, level, lo, mid) || Wanted(k, root, level, mid, hi);
    }
  }

  lemma WantedKept(d: Directory, d1: Directory, root: nat, level: nat, lo: nat, hi: nat)
    requires HasWanted(d, root, level, lo, hi) && forall k :: k in d ==> k in d1
    ensures HasWanted(d1, root, level, lo, hi)
  {
  }

  lemma PlacedJoin(a: map<nat, nat>, b: map<nat, nat>, lo: nat, mid: nat, hi: nat)
    requires PlacedAre(a, lo, mid) && PlacedAre(b, mid, hi) && lo <= mid <= hi
    ensures PlacedAre(a + b, lo, hi)
  {
  }

  /** One more entry of the table is done. */
  lemma OneMoreEntry(code: Code, s0: State, s1: State, s2: State, root: nat, level: nat, pages: Range, end: nat,
                     cur: nat, entryEnd: nat,
                     space: FramePool.Space, flags: nat, r: Option<nat>, a: map<nat, nat>, b: map<nat, nat>)
    requires Reached(code, pages, end, cur) && cur < entryEnd <= end && entryEnd % 512 == 0
    requires SoFar(code, s0, s1, root, level, pages, end, cur, space, flags, a)
    requires MapResult(code, s1, s2, root, level, Range(cur, pages.end), entryEnd, space, flags, r, b)
    ensures r.None? ==> MapResult(code, s0, s2, root, level, pages, end, space, flags, None, a + b)
    ensures r.Some? && cur + r.value >= pages.end ==>
      MapResult(code, s0, s2, root, level, pages, end, space, flags, Some(cur + r.value - pages.start), a + b)
    ensures r.Some? && cur + r.value < pages.end ==>
      cur + r.value == entryEnd && SoFar(code, s0, s2, root, level, pages, end, entryEnd, space, flags, a + b)
    ensures r.Some? && cur + r.value < pages.end ==> entryEnd < end ==> Reached(code, pages, end, entryEnd)
  {
    var rest := Range(cur, pages.end);
    hide Mapped, Grown, Paid, HasWanted, PlacedAre, PlacedIn, LeafEnd;
    Advance(code, pages, end, cur, entryEnd);
    MappedTrans(s0, s1, s2, root, space, a, b, flags);
    GrownTrans(s0, s1, s2, root, level, pages.start, VisitEnd(pages, end), level, cur, VisitEnd(rest, entryEnd));
    JoinPaid(space, a, b, s0.user, s1.user, s2.user, pages.start, cur, WriteEnd(code, rest, entryEnd),
             WriteEnd(code, pages, end));
    if r.None? {
      LackCarriesOver(s2.d, root, level, cur, VisitEnd(rest, entryEnd), level, pages.start, VisitEnd(pages, end));
    } else {
      GrownExtends(s1, s2, root, level, cur, VisitEnd(rest, entryEnd));
      WantedKept(s1.d, s2.d, root, level, pages.start, cur);
      WantedJoin(s2.d, root, level, pages.start, cur, VisitEnd(rest, entryEnd));
      PlacedJoin(a, b, pages.start, cur, WriteEnd(code, rest, entryEnd));
    }
  }

  lemma GrownExtends(s0: State, s1: State, root: nat, level: nat, lo: nat, hi: nat)
    requires Grown(s0, s1, root, level, lo, hi)
    ensures forall k :: k in s0.d ==> k in s1.d
  {
  }

  /** Two parts of a range are paid for one after the other. */
  lemma JoinPaid(space: FramePool.Space, a: map<nat, nat>, b: map<nat, nat>, user0: seq<Range>, user1: seq<Range>,
                 user2: seq<Range>,
                 lo: nat, mid: nat, hi: nat, hi': nat)
    requires Paid(space, a, user0, user1) && Paid(space, b, user1, user2)
    requires PlacedAre(a, lo, mid) && PlacedIn(b, mid, hi) && lo <= mid <= hi <= hi'
    ensures Paid(space, a + b, user0, user2) && PlacedIn(a + b, lo, hi')
    ensures lo + |a + b| == mid + |b|
  {
    PlacedSize(a, lo, mid);
    JoinSize(a, b);
  }
}
