/** What mapping means for the translations a processor performs, and how many tables and frames
it takes (os/kernel/src/memory/virtual.rs:88-101, 127-184). */
module PagingTheorems {
  import opened Ranges
  import opened PhysMemory
  import opened PageTables
  import opened PagingSteps
  import opened Physical
  import FramePool

  /** Four levels cover 2^36 pages, half of which have canonical addresses below the hole. */
  const SPACE_END := 0x10_0000_0000
  const LOWER_HALF := 0x8_0000_0000

  lemma SpaceEnd()
    ensures First(1, LEVELS) == SPACE_END
  {
    assert First(1, 4) == First(512, 3) == First(512 * 512, 2);
    assert First(512 * 512, 2) == First(512 * 512 * 512, 1) == First(512 * 512 * 512 * 512, 0);
  }

  // --- mapping ------------------------------------------------------------------------------

  function Translation(entry: Word): Option<Word> {
    if Present(entry) then Some(entry) else None
  }

  ghost predicate HasRoot(s: State, root: nat) {
    TablesOk(s) && Key(root, LEVELS, 0) in s.d
  }

  /** A space without leftover words: where it has no table there is no entry either. */
  ghost predicate HasSpace(s: State, root: nat) {
    HasRoot(s, root) && Tidy(s.m, s.d, root)
  }

  lemma TranslateLeaf(s: State, root: nat, v: nat)
    requires HasRoot(s, root) && NoStray(s.m, s.d, root, v) && v < SPACE_END
    ensures Translate(s.m, root, v) == Translation(Leaf(s.m, s.d, root, v))
  {
    SpaceEnd();
    TranslateIsLeaf(s.m, s.d, root, v);
  }

  lemma TranslateInTidy(s: State, root: nat, v: nat)
    requires HasSpace(s, root) && v < SPACE_END
    ensures NoStray(s.m, s.d, root, v) && Translate(s.m, root, v) == Translation(Leaf(s.m, s.d, root, v))
  {
    TidyHasNoStray(s.m, s.d, root, v);
    TranslateLeaf(s, root, v);
  }

  lemma MappedKeeps(s0: State, s1: State, root: nat, space: FramePool.Space, placed: map<nat, nat>, flags: nat,
                    other: nat, v: nat)
    requires HasRoot(s0, other) && TablesOk(s1) && Mapped(s0, s1, root, space, placed, flags)
    requires NoStray(s0.m, s0.d, other, v) || (other == root && v in placed)
    ensures HasRoot(s1, other) && NoStray(s1.m, s1.d, other, v)
    ensures Leaf(s1.m, s1.d, other, v)
      == if other == root && v in placed then Word(placed[v], flags) else Leaf(s0.m, s0.d, other, v)
  {
    if NoStray(s0.m, s0.d, other, v) {
      StaysNoStray(s0.m, s0.d, s1.m, s1.d, other, v);
    } else {
      TableHasNoStray(s1.m, s1.d, other, v);
    }
  }

  /** After `map`, a walk from any page written reaches the frame placed for it with the given
      flags; every other page of this space, and every page of every other space, is translated
      as before. A space may have stray entries elsewhere, as long as none is on the way to the
      page itself; there never is one on the way to a level-1 table, nor to a page just written. */
  lemma MapTranslates(code: Code, s0: State, s1: State, root: nat, pages: Range, space: FramePool.Space, flags: nat,
                      r: Option<nat>, placed: map<nat, nat>, other: nat, v: nat)
    requires HasRoot(s0, other) && TablesOk(s1) && v < SPACE_END
    requires MapResult(code, s0, s1, root, LEVELS, pages, First(1, LEVELS), space, flags, r, placed)
    requires NoStray(s0.m, s0.d, other, v) || (other == root && v in placed)
    ensures HasRoot(s1, other) && NoStray(s1.m, s1.d, other, v)
    ensures Translate(s1.m, other, v) == if other == root && v in placed then Translation(Word(placed[v], flags))
                                         else Translate(s0.m, other, v)
  {
    hide TablesOk, NoStray, Mapped, Grown, Leaf, Translate, HasWanted, Paid, LeafEnd;
    MappedKeeps(s0, s1, root, space, placed, flags, other, v);
    TranslateLeaf(s1, other, v);
    if NoStray(s0.m, s0.d, other, v) {
      TranslateLeaf(s0, other, v);
    }
  }

  lemma MapKeepsTidy(code: Code, s0: State, s1: State, root: nat, pages: Range, space: FramePool.Space, flags: nat,
                     r: Option<nat>, placed: map<nat, nat>, other: nat)
    requires HasSpace(s0, other) && TablesOk(s1)
    requires MapResult(code, s0, s1, root, LEVELS, pages, First(1, LEVELS), space, flags, r, placed)
    ensures HasSpace(s1, other)
  {
    StaysTidy(s0.m, s0.d, s1.m, s1.d, other);
  }

  /** The pages written are those of the range, and then some. */
  lemma MapCovers(code: Code, s0: State, s1: State, root: nat, pages: Range, space: FramePool.Space, flags: nat,
                  r: Option<nat>, placed: map<nat, nat>, v: nat)
    requires MapResult(code, s0, s1, root, LEVELS, pages, First(1, LEVELS), space, flags, r, placed)
    requires r.Some? && pages.end <= SPACE_END
    ensures r.value == pages.Count()
    ensures pages.Has(v) ==> v in placed
    ensures v in placed <==> pages.start <= v < WriteEnd(code, pages, SPACE_END)
    ensures space.Kernel? && v in placed ==> placed[v] == v
  {
    hide EntriesKept, LeavesSet, Grown, HasWanted, LeafEnd;
    SpaceEnd();
  }

  /** How many pages a table of a level covers. */
  function Span(level: nat): (n: nat)
    ensures n > 0
  {
    if level == 0 then 1 else 512 * Span(level - 1)
  }

  lemma {:induction false} FirstIsProduct(p: nat, level: nat)
    ensures First(p, level) == p * Span(level)
    decreases level
  {
    if level > 0 {
      FirstIsProduct(p * 512, level - 1);
      assert p * 512 * Span(level - 1) == p * (512 * Span(level - 1));
    }
  }

  lemma EndOfSpan(v: nat, level: nat)
    ensures First(Prefix(v, level) + 1, level) == v + (Span(level) - v % Span(level))
  {
    var p, n := Prefix(v, level), Span(level);
    PrefixIs(v, p, level);
    FirstIsProduct(p, level);
    FirstIsProduct(p + 1, level);
    assert (p + 1) * n == p * n + n;
    Remainder(v, p, n);
  }

  lemma Remainder(v: nat, p: nat, n: nat)
    requires n > 0 && p * n <= v < p * n + n
    ensures v % n == v - p * n
  {
    var q := v / n;
    assert v == q * n + v % n;
    Multiples(q, p, n);
    Multiples(p, q, n);
  }

  lemma Multiples(a: nat, b: nat, n: nat)
    ensures a < b ==> a * n + n <= b * n
  {
    if a < b {
      var c := b - a - 1;
      assert b * n == (a + 1 + c) * n == a * n + n + c * n;
    }
  }

  /** Every recursive call of `map_in_table` returns the smaller of the pages left and the pages
      from the start to the end of its table, so that the entry visited next always is the one
      for the next page. */
  lemma MapReturns(code: Code, s0: State, s1: State, root: nat, level: nat, pages: Range, space: FramePool.Space,
                   flags: nat,
                   r: Option<nat>, placed: map<nat, nat>)
    requires MapResult(code, s0, s1, root, level, pages, First(Prefix(pages.start, level) + 1, level), space, flags, r,
                       placed)
    requires r.Some?
    ensures var rest := Span(level) - pages.start % Span(level);
      r.value == if pages.Count() < rest then pages.Count() else rest
  {
    hide Mapped, Grown, HasWanted, Paid, LeafEnd;
    EndOfSpan(pages.start, level);
  }

  /** The range starts at a level-1 table's first entry, or reaches the end of the table that it
      starts in. */
  predicate FillsRow(pages: Range) {
    pages.start % 512 == 0 || pages.end >= (pages.start / 512 + 1) * 512
  }

  /** As written, `map` keeps to its range exactly when this holds. Otherwise it goes on to write
      entries behind the range, up to the end of that table at most. */
  lemma MapStaysInRangeExactlyWhen(code: Code, pages: Range)
    requires pages.start <= pages.end <= SPACE_END
    ensures WriteEnd(code, pages, SPACE_END) == pages.end <==> code.Intended? || FillsRow(pages)
    ensures pages.end <= WriteEnd(code, pages, SPACE_END)
    ensures WriteEnd(code, pages, SPACE_END) <= (if pages.end >= (pages.start / 512 + 1) * 512 then pages.end
                                                 else (pages.start / 512 + 1) * 512)
  {
    LeafEndBounds(code, pages.start, pages.Count());
    assert pages.start == 512 * (pages.start / 512) + pages.start % 512;
  }

  /** What `map` does to the pages outside of its range: those up to the end of the writes are
      mapped to the frames placed for them, and all others are translated as before. With the
      bound as intended, and as written for ranges that fill their row, there are no such pages. */
  lemma MapOutsideRange(code: Code, s0: State, s1: State, root: nat, pages: Range, space: FramePool.Space, flags: nat,
                        r: Option<nat>, placed: map<nat, nat>, v: nat)
    requires HasRoot(s0, root) && TablesOk(s1) && v < SPACE_END && NoStray(s0.m, s0.d, root, v)
    requires MapResult(code, s0, s1, root, LEVELS, pages, First(1, LEVELS), space, flags, r, placed)
    requires r.Some? && pages.start <= pages.end <= SPACE_END && !pages.Has(v)
    ensures pages.end <= v < WriteEnd(code, pages, SPACE_END) ==>
      v in placed && Translate(s1.m, root, v) == Translation(Word(placed[v], flags))
    ensures !(pages.end <= v < WriteEnd(code, pages, SPACE_END)) ==>
      Translate(s1.m, root, v) == Translate(s0.m, root, v)
    ensures code.Intended? || FillsRow(pages) ==> Translate(s1.m, root, v) == Translate(s0.m, root, v)
  {
    hide MapResult, TablesOk, NoStray, WriteEnd, Translate;
    MapCovers(code, s0, s1, root, pages, space, flags, r, placed, v);
    MapTranslates(code, s0, s1, root, pages, space, flags, r, placed, root, v);
    MapStaysInRangeExactlyWhen(code, pages);
  }

  /** As written, `c` pages from entry `i` of a table on are written, and then `i` more, up to the end
      of the table. */
  lemma MapWritesExactly(pages: Range)
    requires pages.start <= pages.end <= (pages.start / 512 + 1) * 512 && pages.end <= SPACE_END
    ensures WriteEnd(AsWritten, pages, SPACE_END) - pages.start
      == Min(pages.start % 512 + pages.Count(), 512 - pages.start % 512)
  {
    assert pages.start == 512 * (pages.start / 512) + pages.start % 512;
  }

  /** A request for the single page 3 also maps pages 4, 5 and 6. */
  lemma MapWritesBeyondRange()
    ensures WriteEnd(AsWritten, Range(3, 4), SPACE_END) == 7
  {
  }

  // --- the forest of tables -----------------------------------------------------------------

  /** The frame of the table that a walk for page `v` reads on a level. */
  function TableAt(m: seq<PageFrame>, root: nat, level: nat, v: nat): Option<nat>
    decreases LEVELS - level
  {
    if level >= LEVELS then Some(root)
    else
      var above := TableAt(m, root, level + 1, v);
      if above.None? || above.value >= |m| then None
      else
        var entry := m[above.value][PageTableIndex(v, level + 1)];
        if Present(entry) then Some(entry.frame) else None
  }

  /** One step of a walk: an entry is present exactly where there is a table, and points to it. */
  lemma OneTableDown(s: State, root: nat, level: nat, v: nat)
    requires TablesOk(s) && 1 <= level < LEVELS && NoStray(s.m, s.d, root, v)
    ensures var k, above := Key(root, level, Prefix(v, level)), Key(root, level + 1, Prefix(v, level + 1));
      if above in s.d then
        && s.d[above] < |s.m|
        && var entry := s.m[s.d[above]][PageTableIndex(v, level + 1)];
        && (Present(entry) <==> k in s.d)
        && (k in s.d ==> entry.frame == s.d[k])
      else k !in s.d
  {
    var k, above := Key(root, level, Prefix(v, level)), Key(root, level + 1, Prefix(v, level + 1));
    assert Up(k) == above && StopsAt(s.m, s.d, root, v, level + 1);
    if above in s.d {
      EntryOfTable(s, above, PageTableIndex(v, level + 1));
      assert Down(above, PageTableIndex(v, level + 1)) == k;
    } else {
      assert k in s.d ==> Linked(s.m, s.d, k);
    }
  }

  lemma {:induction false} TableAtIs(s: State, root: nat, level: nat, v: nat)
    requires HasRoot(s, root) && NoStray(s.m, s.d, root, v) && v < SPACE_END && 1 <= level <= LEVELS
    ensures var k := Key(root, level, Prefix(v, level));
      TableAt(s.m, root, level, v) == if k in s.d then Some(s.d[k]) else None
    decreases LEVELS - level
  {
    hide TablesOk, NoStray;
    if level == LEVELS {
      SpaceEnd();
      PrefixBelow(v, 1, LEVELS);
      TablesLinked(s);
      assert Linked(s.m, s.d, Key(root, LEVELS, 0));
    } else {
      TableAtIs(s, root, level + 1, v);
      OneTableDown(s, root, level, v);
    }
  }

  /** No table is reached by two entries or shared by two spaces: two walks that meet no stray
      entry read the same frame only as the same table of the same space, and no such frame is
      in a free list. */
  lemma TablesFormForest(s: State, r1: nat, l1: nat, v1: nat, r2: nat, l2: nat, v2: nat)
    requires HasRoot(s, r1) && HasRoot(s, r2) && v1 < SPACE_END && v2 < SPACE_END
    requires NoStray(s.m, s.d, r1, v1) && NoStray(s.m, s.d, r2, v2)
    requires 1 <= l1 <= LEVELS && 1 <= l2 <= LEVELS
    requires TableAt(s.m, r1, l1, v1).Some?
    ensures TableAt(s.m, r1, l1, v1) == TableAt(s.m, r2, l2, v2)
       <==> r1 == r2 && l1 == l2 && Prefix(v1, l1) == Prefix(v2, l2)
    ensures !Footprint(s.kernel, TableAt(s.m, r1, l1, v1).value) && !Footprint(s.user, TableAt(s.m, r1, l1, v1).value)
  {
    hide NoStray, Links;
    TableAtIs(s, r1, l1, v1);
    TableAtIs(s, r2, l2, v2);
  }

  // --- how many tables ----------------------------------------------------------------------

  lemma {:induction false} FirstBelow(p: nat, n: nat, level: nat)
    ensures First(p, level) < n <==> p < TablesFor(n, level)
    decreases level
  {
    if level > 0 {
      FirstBelow(p * 512, n, level - 1);
    }
  }

  lemma VisitsFromZero(level: nat, p: nat, n: nat)
    ensures Visits(level, p, 0, n) <==> p < TablesFor(n, level)
  {
    FirstBelow(p, n, level);
    PrefixOfFirst(p, level);
    if Visits(level, p, 0, n) {
      var v :| 0 <= v < n && Prefix(v, level) == p;
      PrefixIs(v, p, level);
    }
  }

  function KeysBetween(root: nat, level: nat, a: nat, b: nat): (r: set<Key>)
    ensures forall k :: k in r <==> k.root == root && k.level == level && a <= k.prefix < b
    ensures a <= b ==> |r| == b - a
    decreases b
  {
    if a >= b then {} else KeysBetween(root, level, a, b - 1) + {Key(root, level, b - 1)}
  }

  function KeysFor(root: nat, n: nat): set<Key> {
    KeysBetween(root, 1, 0, TablesFor(n, 1)) + KeysBetween(root, 2, 0, TablesFor(n, 2))
      + KeysBetween(root, 3, 0, TablesFor(n, 3))
  }

  lemma KeysForSize(root: nat, n: nat)
    ensures |KeysFor(root, n)| == TablesNeeded(n) - 1
  {
    var a, b, c := KeysBetween(root, 1, 0, TablesFor(n, 1)), KeysBetween(root, 2, 0, TablesFor(n, 2)),
                   KeysBetween(root, 3, 0, TablesFor(n, 3));
    assert a !! b && a + b !! c;
    assert |a + b + c| == |a| + |b| + |c|;
  }

  lemma VisitsBetween(level: nat, p: nat, lo: nat, hi: nat)
    requires lo < hi
    ensures Visits(level, p, lo, hi) <==> Prefix(lo, level) <= p <= Prefix(hi - 1, level)
  {
    if Visits(level, p, lo, hi) {
      var v :| lo <= v < hi && Prefix(v, level) == p;
      PrefixMonotone(lo, v, level);
      PrefixMonotone(v, hi - 1, level);
    }
    PrefixBelow(lo, p, level);
    PrefixBelow(hi - 1, p, level);
    PrefixOfFirst(p, level);
    if Prefix(lo, level) < p <= Prefix(hi - 1, level) {
      assert lo <= First(p, level) < hi;
    }
  }

  /** The tables below the root that cover the pages from `lo` up to `hi`. */
  function TablesBetween(root: nat, lo: nat, hi: nat): set<Key>
    requires lo < hi
  {
    KeysBetween(root, 1, Prefix(lo, 1), Prefix(hi - 1, 1) + 1)
      + KeysBetween(root, 2, Prefix(lo, 2), Prefix(hi - 1, 2) + 1)
      + KeysBetween(root, 3, Prefix(lo, 3), Prefix(hi - 1, 3) + 1)
  }

  lemma WantedBetween(root: nat, lo: nat, hi: nat)
    requires lo < hi
    ensures forall k :: Wanted(k, root, LEVELS, lo, hi) <==> k in TablesBetween(root, lo, hi)
  {
    forall k: Key
      ensures Wanted(k, root, LEVELS, lo, hi) <==> k in TablesBetween(root, lo, hi)
    {
      VisitsBetween(k.level, k.prefix, lo, hi);
    }
  }

  lemma GrownWithin(s0: State, s1: State, root: nat, lo: nat, hi: nat, wanted: set<Key>)
    requires Grown(s0, s1, root, LEVELS, lo, hi)
    requires forall k :: Wanted(k, root, LEVELS, lo, hi) <==> k in wanted
    ensures s0.d.Keys <= s1.d.Keys <= s0.d.Keys + wanted
    ensures |s1.d.Keys| + Total(s1.kernel) == |s0.d.Keys| + Total(s0.kernel)
  {
    hide Wanted, Shrinks;
  }

  /** What grows by wanted tables, one frame each, has them all exactly if there were enough
      frames; else it has used up all frames. */
  lemma GrownExactlyWhen(s0: State, s1: State, root: nat, lo: nat, hi: nat, wanted: set<Key>)
    requires Grown(s0, s1, root, LEVELS, lo, hi)
    requires forall k :: Wanted(k, root, LEVELS, lo, hi) <==> k in wanted
    ensures HasWanted(s1.d, root, LEVELS, lo, hi) ==>
      s1.d.Keys == s0.d.Keys + wanted && Total(s1.kernel) + |wanted - s0.d.Keys| == Total(s0.kernel)
    ensures !HasWanted(s1.d, root, LEVELS, lo, hi) && Total(s1.kernel) == 0 ==> Total(s0.kernel) < |wanted - s0.d.Keys|
  {
    GrownWithin(s0, s1, root, lo, hi, wanted);
    HasAllExactlyWhen(s1.d, root, lo, hi, wanted);
    hide Grown, HasWanted;
    GrowthSize(s0.d.Keys, s1.d.Keys, wanted);
  }

  lemma HasAllExactlyWhen(d: Directory, root: nat, lo: nat, hi: nat, wanted: set<Key>)
    requires forall k :: Wanted(k, root, LEVELS, lo, hi) <==> k in wanted
    ensures HasWanted(d, root, LEVELS, lo, hi) <==> wanted <= d.Keys
  {
    hide Wanted;
  }

  lemma GrowthSize<T>(a: set<T>, c: set<T>, wanted: set<T>)
    requires a <= c <= a + wanted
    ensures if wanted <= c then c == a + wanted && |c| == |a| + |wanted - a| else |c| < |a| + |wanted - a|
  {
    var all := a + (wanted - a);
    assert all == a + wanted;
    assert |all| == |a| + |wanted - a|;
    if wanted <= c {
      assert c == all;
    } else {
      SmallerSet(c, all);
    }
  }

  /** `map` goes through exactly if the kernel list holds a frame for every table that is missing
      and, for a user mapping, the user list one for every page written, which as written may
      be pages behind the range. That many frames it takes. */
  lemma MapSucceedsExactlyWhen(code: Code, s0: State, s1: State, root: nat, pages: Range, space: FramePool.Space,
                               flags: nat,
                               r: Option<nat>, placed: map<nat, nat>)
    requires MapResult(code, s0, s1, root, LEVELS, pages, First(1, LEVELS), space, flags, r, placed)
    requires pages.start < SPACE_END
    ensures pages.start < VisitEnd(pages, SPACE_END) && pages.start <= WriteEnd(code, pages, SPACE_END)
    ensures var missing := TablesBetween(root, pages.start, VisitEnd(pages, SPACE_END)) - s0.d.Keys;
      var written := WriteEnd(code, pages, SPACE_END) - pages.start;
      && (r.Some? <==> Total(s0.kernel) >= |missing| && (space.User? ==> Total(s0.user) >= written))
      && (r.Some? ==> Total(s1.kernel) == Total(s0.kernel) - |missing|)
      && (r.Some? ==> Total(s1.user) == Total(s0.user) - (if space.User? then written else 0))
  {
    hide Mapped, Grown, HasWanted, LeafEnd, TablesBetween;
    SpaceEnd();
    var hi := VisitEnd(pages, SPACE_END);
    LeafEndBounds(code, pages.start, pages.Count());
    WantedBetween(root, pages.start, hi);
    GrownExactlyWhen(s0, s1, root, pages.start, hi, TablesBetween(root, pages.start, hi));
    if r.Some? {
      PlacedSize(placed, pages.start, WriteEnd(code, pages, SPACE_END));
    }
  }

  lemma WantedFromZero(root: nat, n: nat)
    ensures forall k :: Wanted(k, root, LEVELS, 0, n) <==> k in KeysFor(root, n)
  {
    forall k: Key
      ensures Wanted(k, root, LEVELS, 0, n) <==> k in KeysFor(root, n)
    {
      VisitsFromZero(k.level, k.prefix, n);
    }
  }

  /** Mapping the pages [0, n) into a fresh space takes exactly one table for each started
      group of 512, 512^2 and 512^3 pages, and succeeds exactly if there are that many frames
      in the kernel list. */
  lemma FreshSpaceTables(code: Code, s0: State, s1: State, root: nat, n: nat, flags: nat, r: Option<nat>,
                         placed: map<nat, nat>)
    requires 0 < n <= SPACE_END && forall k :: k in s0.d && k.root == root ==> k.level == LEVELS
    requires MapResult(code, s0, s1, root, LEVELS, Range(0, n), First(1, LEVELS), FramePool.Kernel, flags, r, placed)
    ensures r.Some? ==> s1.d.Keys == s0.d.Keys + KeysFor(root, n)
    ensures r.Some? ==> |s1.d| == |s0.d| + TablesNeeded(n) - 1
    ensures r.Some? ==> Total(s1.kernel) == Total(s0.kernel) - (TablesNeeded(n) - 1)
    ensures r.Some? <==> Total(s0.kernel) >= TablesNeeded(n) - 1
  {
    FreshSpaceGrown(code, s0, s1, root, n, flags, r, placed);
    hide MapResult, Grown, HasWanted, KeysFor, TablesNeeded;
    WantedFromZero(root, n);
    KeysForSize(root, n);
    KeysAreNew(s0.d, root, n);
    GrownExactlyWhen(s0, s1, root, 0, n, KeysFor(root, n));
    GrownCount(s0, s1, root, n);
  }

  lemma FreshSpaceGrown(code: Code, s0: State, s1: State, root: nat, n: nat, flags: nat, r: Option<nat>,
                        placed: map<nat, nat>)
    requires 0 < n <= SPACE_END
    requires MapResult(code, s0, s1, root, LEVELS, Range(0, n), First(1, LEVELS), FramePool.Kernel, flags, r, placed)
    ensures Grown(s0, s1, root, LEVELS, 0, n)
    ensures if r.Some? then HasWanted(s1.d, root, LEVELS, 0, n)
            else Total(s1.kernel) == 0 && !HasWanted(s1.d, root, LEVELS, 0, n)
  {
    hide Mapped, Grown, HasWanted, LeafEnd;
    SpaceEnd();
    assert VisitEnd(Range(0, n), First(1, LEVELS)) == n;
  }

  lemma GrownCount(s0: State, s1: State, root: nat, n: nat)
    requires Grown(s0, s1, root, LEVELS, 0, n)
    ensures |s1.d| + Total(s1.kernel) == |s0.d| + Total(s0.kernel)
  {
  }

  lemma KeysAreNew(d: Directory, root: nat, n: nat)
    requires forall k :: k in d && k.root == root ==> k.level == LEVELS
    ensures KeysFor(root, n) - d.Keys == KeysFor(root, n)
  {
  }

  lemma {:induction false} SmallerSet<T>(a: set<T>, b: set<T>)
    requires a < b
    ensures |a| < |b|
  {
    var rest := b - a;
    assert b == a + rest && a !! rest;
    assert rest != {};
  }
}
