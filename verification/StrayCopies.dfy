/** When a copy of an address space has stray entries: `copy_table` does not zero the tables it
takes, so that an entry which it skips is what the frame held before
(os/kernel/src/memory/virtual.rs:103-118). */
module StrayCopies {
  import opened Ranges
  import opened PhysMemory
  import opened PageTables
  import opened TableOrder
  import opened StrayEntries
  import opened PagingSteps
  import opened TableCopies
  import opened PagingTheorems
  import opened CopyTheorems
  import FramePool

  // --- the order of the tables ----------------------------------------------------------------

  lemma OrderHas(s: State, source: nat, k: Key) returns (j: nat)
    requires HasRoot(s, source) && k in s.d && k.root == source
    ensures j < |Order(s.d, source)| && Order(s.d, source)[j] == k
  {
    var root := Key(source, LEVELS, 0);
    BelowRoot(s, k);
    TablesLinked(s);
    ListedOnce(s.m, s.d, root, 512);
    if k == root {
      j := 0;
    } else {
      assert k in TableOrder.Below(s.d, root, 512);
      j :| 0 <= j < |Listed(s.d, root, 512)| && Listed(s.d, root, 512)[j] == k;
      j := j + 1;
    }
  }

  lemma OrderIn(s: State, source: nat, j: nat)
    requires HasRoot(s, source) && j < |Order(s.d, source)|
    ensures Order(s.d, source)[j] in s.d && Order(s.d, source)[j].root == source
  {
    TablesLinked(s);
    ListedOnce(s.m, s.d, Key(source, LEVELS, 0), 512);
    if j > 0 {
      assert Order(s.d, source)[j] in Listed(s.d, Key(source, LEVELS, 0), 512);
      assert Order(s.d, source)[j] in TableOrder.Below(s.d, Key(source, LEVELS, 0), 512);
    }
  }

  // --- what the unused entries of a copy read -----------------------------------------------------

  /** What the unused entries of table `k` read as if it is copied to the free frame `f`: the
      first is the count of the list node there, the second its null link. */
  ghost predicate WillRead(s: State, k: Key, f: nat, p: Word -> bool)
    requires k.level >= 1
  {
    && (Down(k, 0) !in s.d ==> p(CountWord(RunFrom(s.kernel, f))))
    && forall i :: 2 <= i < 512 && Down(k, i) !in s.d ==> f < |s.m| && p(s.m[f][i])
  }

  /** The same for all tables that are copied without being zeroed, in the frames that the copy
      is going to take for them. */
  ghost predicate AllWillRead(s: State, source: nat, p: Word -> bool) {
    forall j :: 0 <= j < |Order(s.d, source)| && 1 < Order(s.d, source)[j].level < LEVELS ==>
      j < |Frames(s.kernel)| && WillRead(s, Order(s.d, source)[j], Frames(s.kernel)[j], p)
  }

  lemma InTarget(s0: State, s1: State, source: nat, target: nat, k: Key, i: nat)
    requires KeysDoubled(s0.d, s1.d, source, target) && k.root == source && 1 < k.level <= LEVELS
    ensures InSpace(k, target) in s1.d <==> k in s0.d
    ensures Down(InSpace(k, target), i) in s1.d <==> Down(k, i) in s0.d
  {
    var copy := InSpace(k, target);
    CopiedKey(s0.d, s1.d, source, target, copy);
    CopiedKey(s0.d, s1.d, source, target, Down(copy, i));
    assert InSpace(copy, source) == k && InSpace(Down(copy, i), source) == Down(k, i);
  }

  /** One table of the copy, table `k` of the source. */
  lemma TableReads(s0: State, s1: State, source: nat, target: nat, k: Key, p: Word -> bool)
    requires KeysDoubled(s0.d, s1.d, source, target) && StaleBetween(AsWritten, s0, s1, target) && p(ZERO_WORD)
    requires k.root == source && 1 < k.level < LEVELS && InSpace(k, target) in s1.d
    ensures WillRead(s0, k, s1.d[InSpace(k, target)], p)
       <==> TableUnusedAre(s1, InSpace(k, target), p)
  {
    var copy := InSpace(k, target);
    var f := s1.d[copy];
    forall i | 0 <= i < 512
      ensures Down(copy, i) in s1.d <==> Down(k, i) in s0.d
      ensures Down(copy, i) in s1.d || (f < |s0.m| && f < |s1.m| && StaleEntry(AsWritten, s0, s1, f, i))
    {
      InTarget(s0, s1, source, target, k, i);
    }
    hide KeysDoubled, StaleBetween;
    ReadsStale(s0, s1, k, copy, f, p);
  }

  ghost predicate TableUnusedAre(s: State, k: Key, p: Word -> bool)
    requires k in s.d && k.level > 1
  {
    forall i :: 0 <= i < 512 && Down(k, i) !in s.d ==> s.d[k] < |s.m| && p(s.m[s.d[k]][i])
  }

  lemma ReadsStale(s0: State, s1: State, k: Key, copy: Key, f: nat, p: Word -> bool)
    requires k.level > 1 && copy in s1.d && s1.d[copy] == f && copy.level > 1 && p(ZERO_WORD)
    requires forall i :: 0 <= i < 512 ==> (Down(copy, i) in s1.d <==> Down(k, i) in s0.d)
    requires forall i :: 0 <= i < 512 && Down(copy, i) !in s1.d ==>
      f < |s0.m| && f < |s1.m| && StaleEntry(AsWritten, s0, s1, f, i)
    ensures WillRead(s0, k, f, p) <==> TableUnusedAre(s1, copy, p)
  {
    if TableUnusedAre(s1, copy, p) {
      assert Down(k, 0) !in s0.d ==> StaleEntry(AsWritten, s0, s1, f, 0) && p(s1.m[f][0]);
      forall i | 2 <= i < 512 && Down(k, i) !in s0.d
        ensures f < |s0.m| && p(s0.m[f][i])
      {
        assert Down(copy, i) !in s1.d && StaleEntry(AsWritten, s0, s1, f, i) && p(s1.m[f][i]);
      }
    }
    if WillRead(s0, k, f, p) {
      forall i | 0 <= i < 512 && Down(copy, i) !in s1.d
        ensures f < |s1.m| && p(s1.m[f][i])
      {
        assert Down(k, i) !in s0.d && StaleEntry(AsWritten, s0, s1, f, i);
      }
    }
  }

  /** The unused entries of the tables between root and last level. */
  ghost predicate BetweenUnusedAre(s: State, root: nat, p: Word -> bool) {
    forall k :: k in s.d && k.root == root && 1 < k.level < LEVELS ==> TableUnusedAre(s, k, p)
  }

  lemma RootIsClean(s: State, root: nat, p: Word -> bool)
    requires TablesOk(s) && root < |s.m| && RootTidy(s, root) && p(ZERO_WORD)
    ensures UnusedAre(s.m, s.d, root, p) <==> BetweenUnusedAre(s, root, p)
  {
    if BetweenUnusedAre(s, root, p) {
      forall k, i | k in s.d && k.root == root && k.level > 1 && 0 <= i < 512 && Down(k, i) !in s.d
        ensures s.d[k] < |s.m| && p(s.m[s.d[k]][i])
      {
        TopOrBetween(s, k);
        hide RootTidy, BetweenUnusedAre, TablesOk;
        if k.level == LEVELS {
          RootEntryIsZero(s, k, i);
        } else {
          BetweenHas(s, root, k, p);
        }
      }
    }
    hide RootTidy, TablesOk;
  }

  lemma BetweenHas(s: State, root: nat, k: Key, p: Word -> bool)
    requires BetweenUnusedAre(s, root, p) && k in s.d && k.root == root && 1 < k.level < LEVELS
    ensures TableUnusedAre(s, k, p)
  {
  }

  lemma BetweenReads(s0: State, s1: State, source: nat, target: nat, p: Word -> bool)
    requires HasRoot(s0, source) && p(ZERO_WORD)
    requires KeysDoubled(s0.d, s1.d, source, target) && StaleBetween(AsWritten, s0, s1, target)
    requires FramesUsed(s0, s1, Order(s0.d, source), target)
    ensures BetweenUnusedAre(s1, target, p) <==> AllWillRead(s0, source, p)
  {
    hide KeysDoubled, StaleBetween, Order, Frames, HasRoot, WillRead, TableUnusedAre;
    var list, frames := Order(s0.d, source), Frames(s0.kernel);
    forall j | 0 <= j < |list| && 1 < list[j].level < LEVELS
      ensures j < |frames| && InSpace(list[j], target) in s1.d
      ensures WillRead(s0, list[j], frames[j], p) <==> TableUnusedAre(s1, InSpace(list[j], target), p)
    {
      OrderIn(s0, source, j);
      TableReads(s0, s1, source, target, list[j], p);
    }
    if AllWillRead(s0, source, p) {
      forall k | k in s1.d && k.root == target && 1 < k.level < LEVELS
        ensures TableUnusedAre(s1, k, p)
      {
        CopiedKey(s0.d, s1.d, source, target, k);
        var j := OrderHas(s0, source, InSpace(k, source));
        assert InSpace(list[j], target) == k;
      }
    }
  }

  lemma IntendedReads(s0: State, s1: State, target: nat, p: Word -> bool)
    requires StaleBetween(Intended, s0, s1, target) && p(ZERO_WORD)
    ensures BetweenUnusedAre(s1, target, p)
  {
    forall k | k in s1.d && k.root == target && 1 < k.level < LEVELS
      ensures TableUnusedAre(s1, k, p)
    {
      forall i | 0 <= i < 512 && Down(k, i) !in s1.d
        ensures s1.d[k] < |s1.m| && p(s1.m[s1.d[k]][i])
      {
        assert StaleEntry(Intended, s0, s1, s1.d[k], i);
      }
    }
  }

  lemma UnusedExactlyWhen(code: Code, s0: State, s1: State, source: nat, target: nat, p: Word -> bool)
    requires HasSpace(s0, source) && CopyOf(code, s0, s1, source, target) && p(ZERO_WORD)
    ensures UnusedAre(s1.m, s1.d, target, p) <==> code.Intended? || AllWillRead(s0, source, p)
  {
    hide TablesOk, KeysDoubled, LeavesDoubled, UnusedKept, RootTidy, StaleBetween, Tidy, CountKept;
    hide FramesUsed, Order, UnusedAre, AllWillRead, BetweenUnusedAre;
    RootIsClean(s1, target, p);
    if code.Intended? {
      IntendedReads(s0, s1, target, p);
    } else {
      BetweenReads(s0, s1, source, target, p);
    }
  }

  // --- stray entries ------------------------------------------------------------------------------

  /** Table `k`, copied to the free frame `f`, gets no stray entry: if its first entry is unused,
      the block that begins at `f` has an even count, and its unused entries from the third on
      happen to be absent. */
  ghost predicate ReadsAbsent(s: State, k: Key, f: nat)
    requires k.level >= 1
  {
    && (Down(k, 0) !in s.d ==> RunFrom(s.kernel, f) % 2 == 0)
    && forall i :: 2 <= i < 512 && Down(k, i) !in s.d ==> f < |s.m| && !Present(s.m[f][i])
  }

  /** What can be said before the copy is made: as written, no table between root and last level
      gets a frame in which an unused entry of it is present. */
  ghost predicate WillBeStraight(code: Code, s: State, source: nat) {
    code.Intended? || forall j :: 0 <= j < |Order(s.d, source)| && 1 < Order(s.d, source)[j].level < LEVELS ==>
      j < |Frames(s.kernel)| && ReadsAbsent(s, Order(s.d, source)[j], Frames(s.kernel)[j])
  }

  lemma CountWordPresent(n: nat)
    ensures Present(CountWord(n)) <==> n % 2 == 1
  {
  }

  lemma ReadsAbsentIs(s: State, k: Key, f: nat)
    requires k.level >= 1
    ensures ReadsAbsent(s, k, f) <==> WillRead(s, k, f, IsAbsent)
  {
    CountWordPresent(RunFrom(s.kernel, f));
    hide RunFrom, CountWord;
  }

  lemma WillBeStraightIs(code: Code, s: State, source: nat)
    ensures WillBeStraight(code, s, source) <==> code.Intended? || AllWillRead(s, source, IsAbsent)
  {
    hide Order, Frames, ReadsAbsent, WillRead;
    forall k: Key, f: nat | k.level >= 1
      ensures ReadsAbsent(s, k, f) <==> WillRead(s, k, f, IsAbsent)
    {
      ReadsAbsentIs(s, k, f);
    }
  }

  /** A copy has no stray entry, so that no walk in it is led astray, if and only if this could be
      foreseen. */
  lemma CopyStraightExactlyWhen(code: Code, s0: State, s1: State, source: nat, target: nat)
    requires HasSpace(s0, source) && CopyOf(code, s0, s1, source, target)
    ensures Straight(s1.m, s1.d, target) <==> WillBeStraight(code, s0, source)
    ensures WillBeStraight(code, s0, source) <==> forall v: nat :: v < SPACE_END ==> NoStray(s1.m, s1.d, target, v)
  {
    UnusedExactlyWhen(code, s0, s1, source, target, IsAbsent);
    WillBeStraightIs(code, s0, source);
    assert TablesOk(s1);
    TablesLinked(s1);
    hide CopyOf, HasSpace, WillBeStraight, UnusedAre, NoStray, AllWillRead, TablesOk;
    StraightExactlyWhen(s1.m, s1.d, target);
    SpaceEnd();
  }

  /** As written, an unused first entry leads its pages astray in the copy exactly if the block
      that begins at the frame taken has an odd count. The walk then goes on in the frame that the
      count gives, which for fewer than 4096 frames is frame 0. */
  lemma UnusedFirstEntryGoesAstrayExactlyWhen(s0: State, s1: State, source: nat, target: nat, k: Key, v: nat)
    requires HasSpace(s0, source) && CopyOf(AsWritten, s0, s1, source, target)
    requires k in s0.d && k.root == source && 1 < k.level < LEVELS && Down(k, 0) !in s0.d
    requires Prefix(v, k.level - 1) == k.prefix * 512
    ensures InSpace(k, target) in s1.d
    ensures var count := RunFrom(s0.kernel, s1.d[InSpace(k, target)]);
      && (NoStray(s1.m, s1.d, target, v) <==> count % 2 == 0)
      && (count % 2 == 1 ==> Walk(s1.m, target, LEVELS, v) == Walk(s1.m, count / PAGE_SIZE, k.level - 1, v))
  {
    var copy := InSpace(k, target);
    InTarget(s0, s1, source, target, k, 0);
    CopiedTables(s0, s1, source, target);
    CopiedStale(s0, s1, source, target, copy, 0);
    CountWordPresent(RunFrom(s0.kernel, s1.d[copy]));
    hide CopyOf, HasSpace, NoStray, RunFrom, Walk;
    NoStrayBelow(s1.m, s1.d, copy, 0, v);
    WalkPast(s1.m, s1.d, copy, 0, v);
  }

  lemma CopiedTables(s0: State, s1: State, source: nat, target: nat)
    requires CopyOf(AsWritten, s0, s1, source, target)
    ensures TablesOk(s1) && Links(s1.m, s1.d)
  {
  }

  lemma CopiedStale(s0: State, s1: State, source: nat, target: nat, k: Key, i: nat)
    requires CopyOf(AsWritten, s0, s1, source, target)
    requires k in s1.d && k.root == target && 1 < k.level < LEVELS && i < 512 && Down(k, i) !in s1.d
    ensures s1.d[k] < |s0.m| && s1.d[k] < |s1.m| && StaleEntry(AsWritten, s0, s1, s1.d[k], i)
  {
  }

  /** It happens with a framebuffer: a page is mapped in a part of a space where there is no table
      yet, at entry 256 of a new level-2 table. In a later copy of the space, the pages below the
      first entry of that table are led astray exactly if the block that begins at the frame taken
      for it has an odd count. */
  lemma FramebufferGoesAstrayExactlyWhen(s0: State, s1: State, s2: State, root: nat, target: nat, v: nat, w: nat,
                                         flags: nat, placed: map<nat, nat>)
    requires HasSpace(s0, root) && TablesOk(s1) && v < SPACE_END && v / 512 % 512 == 256
    requires Key(root, 2, v / 512 / 512) !in s0.d
    requires MapResult(AsWritten, s0, s1, root, LEVELS, Range(v, v + 1), First(1, LEVELS), FramePool.Kernel, flags,
                       Some(1), placed)
    requires CopyOf(AsWritten, s1, s2, root, target) && w / 512 == v / 512 / 512 * 512
    ensures Key(target, 2, v / 512 / 512) in s2.d && !Tidy(s2.m, s2.d, target)
    ensures NoStray(s2.m, s2.d, target, w) <==> RunFrom(s1.kernel, s2.d[Key(target, 2, v / 512 / 512)]) % 2 == 0
  {
    var k := Key(root, 2, v / 512 / 512);
    MapKeepsTidy(AsWritten, s0, s1, root, Range(v, v + 1), FramePool.Kernel, flags, Some(1), placed, root);
    NewTableOf(s0, s1, root, v, flags, placed);
    assert InSpace(k, target) == Key(target, 2, v / 512 / 512);
    assert Prefix(w, 1) == w / 512;
    hide MapResult, CopyOf, HasSpace, Tidy, NoStray, RunFrom, Walk, TablesOk, Prefix;
    UnusedFirstEntryGoesAstrayExactlyWhen(s1, s2, root, target, k, w);
    UnusedFirstEntryLeavesWord(s1, s2, root, target, k);
  }

  lemma NewTableOf(s0: State, s1: State, root: nat, v: nat, flags: nat, placed: map<nat, nat>)
    requires TablesOk(s0) && v < SPACE_END && v / 512 % 512 == 256 && Key(root, 2, v / 512 / 512) !in s0.d
    requires MapResult(AsWritten, s0, s1, root, LEVELS, Range(v, v + 1), First(1, LEVELS), FramePool.Kernel, flags,
                       Some(1), placed)
    ensures Key(root, 2, v / 512 / 512) in s1.d && Down(Key(root, 2, v / 512 / 512), 0) !in s1.d
  {
    var k := Key(root, 2, v / 512 / 512);
    SpaceEnd();
    hide Mapped, TablesOk, LeafEnd;
    assert VisitEnd(Range(v, v + 1), SPACE_END) == v + 1;
    assert Prefix(v, 2) == Prefix(v, 1) / 512 == v / 512 / 512 && Prefix(v, 1) == v / 512;
    assert Visits(2, k.prefix, v, v + 1) && Wanted(k, root, LEVELS, v, v + 1);
    OnlyWantedTables(s0, s1, root, v, k);
  }

  lemma OnlyWantedTables(s0: State, s1: State, root: nat, v: nat, k: Key)
    requires TablesOk(s0) && Grown(s0, s1, root, LEVELS, v, v + 1)
    requires k == Key(root, 2, v / 512 / 512) && k !in s0.d && v / 512 % 512 == 256
    ensures Down(k, 0) !in s1.d
  {
    NoTableBelow(s0, k);
    NotFirst(v);
    hide TablesOk;
    if Down(k, 0) in s1.d {
      assert Wanted(Down(k, 0), root, LEVELS, v, v + 1);
      VisitsOne(v, Down(k, 0).prefix);
    }
  }

  lemma VisitsOne(v: nat, p: nat)
    requires Visits(1, p, v, v + 1)
    ensures p == v / 512
  {
    var w :| v <= w < v + 1 && Prefix(w, 1) == p;
    assert Prefix(v, 1) == v / 512;
  }

  lemma NotFirst(v: nat)
    requires v / 512 % 512 == 256
    ensures v / 512 / 512 * 512 != v / 512
  {
  }

  lemma NoTableBelow(s: State, k: Key)
    requires TablesOk(s) && k !in s.d && 1 < k.level <= LEVELS
    ensures Down(k, 0) !in s.d
  {
    if Down(k, 0) in s.d {
      assert Linked(s.m, s.d, Down(k, 0));
      UpDown(k, 0);
    }
  }

  // --- leftover words -----------------------------------------------------------------------------

  /** Every table of the source between root and last level uses its first entry. */
  ghost predicate FirstEntriesUsed(s: State, root: nat) {
    forall k :: k in s.d && k.root == root && 1 < k.level < LEVELS ==> Down(k, 0) in s.d
  }

  /** A frame reads zero where table `k` has an unused entry, but for the two words of a list node. */
  ghost predicate ReadsZero(s: State, k: Key, f: nat)
    requires k.level >= 1
  {
    forall i :: 2 <= i < 512 && Down(k, i) !in s.d ==> f < |s.m| && s.m[f][i] == ZERO_WORD
  }

  /** The frames that the copy is going to take read zero where the tables they are for have
      unused entries. */
  ghost predicate UnusedReadZero(s: State, source: nat) {
    forall j :: 0 <= j < |Order(s.d, source)| && 1 < Order(s.d, source)[j].level < LEVELS ==>
      j < |Frames(s.kernel)| && ReadsZero(s, Order(s.d, source)[j], Frames(s.kernel)[j])
  }

  /** What can be said before the copy is made, as written: no first entry is unused, and memory
      happens to be zero where it matters. */
  ghost predicate WillBeTidy(code: Code, s: State, source: nat) {
    code.Intended? || (FirstEntriesUsed(s, source) && UnusedReadZero(s, source))
  }

  lemma CountWordZero(n: nat)
    ensures CountWord(n) == ZERO_WORD <==> n == 0
  {
  }

  /** A free frame is in a block of at least one frame, so its count is no zero word. */
  lemma ReadsZeroIs(s: State, source: nat, j: nat)
    requires HasRoot(s, source) && j < |Order(s.d, source)| && 1 < Order(s.d, source)[j].level < LEVELS
    requires j < |Frames(s.kernel)|
    ensures WillRead(s, Order(s.d, source)[j], Frames(s.kernel)[j], IsZero)
       <==> Down(Order(s.d, source)[j], 0) in s.d && ReadsZero(s, Order(s.d, source)[j], Frames(s.kernel)[j])
  {
    RunPositive(s.kernel, Frames(s.kernel)[j]);
    CountWordZero(RunFrom(s.kernel, Frames(s.kernel)[j]));
    hide Order, Frames, RunFrom, CountWord;
  }

  lemma UsesFirst(s: State, source: nat)
    requires HasRoot(s, source)
    ensures FirstEntriesUsed(s, source) <==>
      forall j :: 0 <= j < |Order(s.d, source)| && 1 < Order(s.d, source)[j].level < LEVELS ==>
        Down(Order(s.d, source)[j], 0) in s.d
  {
    hide Order, HasRoot;
    if FirstEntriesUsed(s, source) {
      forall j | 0 <= j < |Order(s.d, source)| && 1 < Order(s.d, source)[j].level < LEVELS
        ensures Down(Order(s.d, source)[j], 0) in s.d
      {
        OrderIn(s, source, j);
      }
    } else {
      var k :| k in s.d && k.root == source && 1 < k.level < LEVELS && Down(k, 0) !in s.d;
      var j := OrderHas(s, source, k);
      assert Order(s.d, source)[j] == k;
    }
  }

  lemma WillBeTidyIs(code: Code, s: State, source: nat)
    requires HasRoot(s, source)
    ensures WillBeTidy(code, s, source) <==> code.Intended? || AllWillRead(s, source, IsZero)
  {
    UsesFirst(s, source);
    hide Order, Frames, ReadsZero, WillRead, HasRoot, FirstEntriesUsed;
    var list, frames := Order(s.d, source), Frames(s.kernel);
    forall j | 0 <= j < |list| && 1 < list[j].level < LEVELS && j < |frames|
      ensures WillRead(s, list[j], frames[j], IsZero) <==> Down(list[j], 0) in s.d && ReadsZero(s, list[j], frames[j])
    {
      ReadsZeroIs(s, source, j);
    }
  }

  /** A copy has no leftover words, so that it can be mapped into and copied like its source, if and
      only if this could be foreseen. */
  lemma CopyTidyExactlyWhen(code: Code, s0: State, s1: State, source: nat, target: nat)
    requires HasSpace(s0, source) && CopyOf(code, s0, s1, source, target)
    ensures Tidy(s1.m, s1.d, target) <==> WillBeTidy(code, s0, source)
  {
    UnusedExactlyWhen(code, s0, s1, source, target, IsZero);
    TidyExactlyWhenZero(s1.m, s1.d, target);
    WillBeTidyIs(code, s0, source);
  }

  /** As written, one table with an unused first entry is enough for a leftover word in every copy,
      whatever memory holds. */
  lemma UnusedFirstEntryLeavesWord(s0: State, s1: State, source: nat, target: nat, k: Key)
    requires HasSpace(s0, source) && CopyOf(AsWritten, s0, s1, source, target)
    requires k in s0.d && k.root == source && 1 < k.level < LEVELS && Down(k, 0) !in s0.d
    ensures !Tidy(s1.m, s1.d, target)
  {
    hide HasSpace, CopyOf, Tidy, UnusedReadZero;
    CopyTidyExactlyWhen(AsWritten, s0, s1, source, target);
  }

  /** Conversely, used first entries and a kernel list of zeroed frames are enough for none. */
  lemma ZeroedFramesStayTidy(s0: State, s1: State, source: nat, target: nat)
    requires HasSpace(s0, source) && CopyOf(AsWritten, s0, s1, source, target) && FirstEntriesUsed(s0, source)
    requires forall f :: f in Frames(s0.kernel) ==> ZeroBehindNode(s0.m, f)
    ensures Tidy(s1.m, s1.d, target)
  {
    hide HasSpace, Tidy, FirstEntriesUsed, TablesOk, KeysDoubled, LeavesDoubled;
    hide UnusedKept, RootTidy, StaleBetween, CountKept, Frames, Order;
    var list, frames := Order(s0.d, source), Frames(s0.kernel);
    forall j | 0 <= j < |list| && 1 < list[j].level < LEVELS
      ensures j < |frames| && ReadsZero(s0, list[j], frames[j])
    {
      assert frames[j] in frames;
    }
    hide CopyOf;
    CopyTidyExactlyWhen(AsWritten, s0, s1, source, target);
  }

  ghost predicate ZeroBehindNode(m: seq<PageFrame>, f: nat) {
    f < |m| && forall i :: 2 <= i < 512 ==> m[f][i] == ZERO_WORD
  }
}
