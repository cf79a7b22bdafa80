/** What creating and copying address spaces means for the translations a processor performs
(os/kernel/src/memory/virtual.rs:23-44, 69-82, 103-125). */
module CopyTheorems {
  import opened Ranges
  import opened PhysMemory
  import opened PageTables
  import opened PagingSteps
  import opened TableOrder
  import opened StrayEntries
  import opened TableCopies
  import opened PagingTheorems
  import opened Physical
  import FramePool

  // --- new and copied spaces ----------------------------------------------------------------

  /** A zeroed root table, and nothing else, has been added. */
  ghost predicate SpaceAdded(s0: State, s1: State, root: nat) {
    && TablesOk(s1) && root !in s0.d.Values && (forall k :: k in s0.d ==> k.root != root)
    && s1.d == s0.d[Key(root, LEVELS, 0) := root]
    && Tidy(s1.m, s1.d, root)
    && EntriesKept(s0.m, s0.d, s1.m, s1.d) && SameLeaves(s0.m, s0.d, s1.m, s1.d)
    && SameTables(s0.m, s1.m, s0.d)
    && CountKept(s0, s1) && Frames(s0.kernel) == [root] + Frames(s1.kernel)
    && WordsKept(s0, s1, root)
  }

  lemma RootTaken(s: State, s1: State, f: nat)
    requires TablesOk(s) && TablesOk(s1) && Taken(s, s1, FramePool.Kernel, f) && f != 0
    ensures f < |s1.m|
    ensures SpaceAdded(s, State(s1.m[f := ZeroFrame()], s1.d[Key(f, LEVELS, 0) := f], s1.kernel, s1.user), f)
  {
    SameTablesKeep(s.m, s1.m, s.d);
    AddRoot(s1.m, s1.d, f);
    var s2 := State(s1.m[f := ZeroFrame()], s1.d[Key(f, LEVELS, 0) := f], s1.kernel, s1.user);
    SameLeavesTrans(s.m, s.d, s1.m, s1.d, s2.m, s2.d);
    EntriesKeptTrans(s.m, s.d, s1.m, s1.d, s2.m, s2.d);
    LinkEntryCount(s, s1, Key(f, LEVELS, 0), f);
    hide EntriesKept, SameLeaves, CountKept, Tidy;
    forall k | k in s.d && s.d[k] < |s2.m|
      ensures s2.m[s.d[k]] == s.m[s.d[k]]
    {
      assert s.d[k] in s.d.Values;
    }
    assert Range(f, f + 1).Count() == 1;
  }

  /** The directory has got the tables of `source` a second time, for `target`. */
  ghost predicate KeysDoubled(d0: Directory, d1: Directory, source: nat, target: nat) {
    && (forall k :: k in d0 ==> k.root != target)
    && (forall k :: k in d1 <==> k in d0 || (k.root == target && 1 <= k.level <= LEVELS && InSpace(k, source) in d0))
  }

  ghost predicate LeavesDoubled(s0: State, s1: State, source: nat, target: nat) {
    && (forall v: nat :: v < SPACE_END ==> Leaf(s1.m, s1.d, target, v) == Leaf(s0.m, s0.d, source, v))
    && (forall r: nat, v: nat :: r != target ==> Leaf(s1.m, s1.d, r, v) == Leaf(s0.m, s0.d, r, v))
  }

  /** Between root and last level, the unused entries of `target` are as written whatever the
      frames held when they left the free list. */
  ghost predicate StaleBetween(code: Code, s0: State, s1: State, target: nat) {
    forall k, i :: k in s1.d && k.root == target && 1 < k.level < LEVELS && 0 <= i < 512 && Down(k, i) !in s1.d
      ==> s1.d[k] < |s0.m| && s1.d[k] < |s1.m| && StaleEntry(code, s0, s1, s1.d[k], i)
  }

  /** `target` is a copy of `source`: a space of its own with the same tables in frames of its
      own, whose level-1 entries are those of the source. The tables are the first frames of
      the kernel list, in the order of the source. */
  ghost predicate CopyOf(code: Code, s0: State, s1: State, source: nat, target: nat) {
    && TablesOk(s1)
    && KeysDoubled(s0.d, s1.d, source, target)
    && LeavesDoubled(s0, s1, source, target)
    && UnusedKept(s0.m, s0.d, s1.m, s1.d) && (forall k :: k in s0.d ==> k in s1.d)
    && target < |s1.m| && RootTidy(s1, target)
    && StaleBetween(code, s0, s1, target)
    && CountKept(s0, s1)
    && FramesUsed(s0, s1, Order(s0.d, source), target)
  }

  /** All tables of a space, each before those below it. */
  function Order(d: Directory, root: nat): seq<Key> {
    [Key(root, LEVELS, 0)] + Listed(d, Key(root, LEVELS, 0), 512)
  }

  lemma CopiedKey(d0: Directory, d1: Directory, source: nat, target: nat, k: Key)
    requires KeysDoubled(d0, d1, source, target) && k.root == target && 1 <= k.level <= LEVELS
    ensures k in d1 <==> InSpace(k, source) in d0
  {
  }

  ghost predicate RootTidy(s: State, root: nat)
    requires root < |s.m|
  {
    forall i :: 0 <= i < 512 && Key(root, LEVELS - 1, i) !in s.d ==> s.m[root][i] == ZERO_WORD
  }

  /** Before the tables are copied. */
  lemma ReadyToCopy(s0: State, s1: State, source: nat, target: nat)
    requires HasSpace(s0, source) && SpaceAdded(s0, s1, target)
    ensures CanCopy(s1, Key(source, LEVELS, 0), Key(target, LEVELS, 0))
    ensures s1.d[Key(source, LEVELS, 0)] == source && s1.d[Key(target, LEVELS, 0)] == target
  {
    assert Linked(s0.m, s0.d, Key(source, LEVELS, 0));
  }

  lemma PageInWholeSpace(v: nat)
    requires v < SPACE_END
    ensures Prefix(v, LEVELS - 1) < 512
  {
    SpaceEnd();
    PrefixBelow(v, 1, LEVELS);
    assert Prefix(v, LEVELS) == Prefix(v, LEVELS - 1) / 512;
  }

  lemma BelowRoot(s: State, k: Key)
    requires TablesOk(s) && k in s.d
    ensures 1 <= k.level <= LEVELS && if k.level == LEVELS then k.prefix == 0 else In(k, LEVELS, 0, 512)
  {
    KeyInRange(s.m, s.d, k);
    assert Linked(s.m, s.d, k);
    if k.level < LEVELS {
      assert Prefix(k.prefix, LEVELS - k.level) == Prefix(k.prefix, LEVELS - 1 - k.level) / 512;
    }
  }

  lemma CopyKeys(s0: State, s1: State, s2: State, source: nat, target: nat, k: Key)
    requires TablesOk(s0) && Key(source, LEVELS, 0) in s0.d && source != target
    requires s1.d == s0.d[Key(target, LEVELS, 0) := target]
    requires KeysCopied(s1.d, s2.d, source, target, LEVELS, 0, 512)
    ensures k in s2.d <==>
      k in s0.d || (k.root == target && 1 <= k.level <= LEVELS && InSpace(k, source) in s0.d)
  {
    if InSpace(k, source) in s0.d {
      BelowRoot(s0, InSpace(k, source));
    }
    assert InSpace(k, source) in s1.d <==> InSpace(k, source) in s0.d;
  }

  lemma CopyLeaves(s0: State, s1: State, s2: State, source: nat, target: nat, r: nat, v: nat)
    requires SameLeaves(s0.m, s0.d, s1.m, s1.d)
    requires LeavesCopied(s1, s2, source, target, LEVELS, 0, 512)
    ensures r != target ==> Leaf(s2.m, s2.d, r, v) == Leaf(s0.m, s0.d, r, v)
    ensures v < SPACE_END ==> Leaf(s2.m, s2.d, target, v) == Leaf(s0.m, s0.d, source, v)
  {
    if v < SPACE_END {
      PageInWholeSpace(v);
    }
  }

  lemma OthersStayUnused(s0: State, s1: State, s2: State, source: nat, target: nat)
    requires TablesOk(s1) && EntriesKept(s0.m, s0.d, s1.m, s1.d) && Key(target, LEVELS, 0) !in s0.d
    requires KeysCopied(s1.d, s2.d, source, target, LEVELS, 0, 512)
    requires OthersKept(s1, s2, Key(target, LEVELS, 0))
    ensures UnusedKept(s0.m, s0.d, s2.m, s2.d) && forall k :: k in s0.d ==> k in s2.d
  {
    forall k, i | k in s0.d && k.level > 1 && 0 <= i < 512 && Down(k, i) !in s2.d
      ensures k in s2.d && s2.d[k] == s0.d[k] < |s0.m| && s2.d[k] < |s2.m| && s2.m[s2.d[k]][i] == s0.m[s0.d[k]][i]
    {
      assert k in s1.d && Down(k, i) !in s1.d;
      assert s1.m[s1.d[k]][i] == s0.m[s0.d[k]][i];
      assert s2.m[s1.d[k]] == s1.m[s1.d[k]];
    }
  }

  /** `from_other`: a new root, to which all tables of the source have been copied. */
  lemma CopyWholeSpace(code: Code, s0: State, s1: State, s2: State, source: nat, target: nat)
    requires HasSpace(s0, source) && SpaceAdded(s0, s1, target) && TablesOk(s2)
    requires Copied(code, s1, s2, source, Key(target, LEVELS, 0), 512)
    ensures CopyOf(code, s0, s2, source, target)
  {
    CopyWholeParts(code, s0, s1, s2, source, target);
    CopyWholeStale(code, s0, s1, s2, source, target);
    CopyWholeKeys(s0, s1, s2, source, target);
    CopyWholeLeaves(code, s0, s1, s2, source, target);
    CopyWholeFrames(code, s0, s1, s2, source, target);
    hide SpaceAdded, Copied, TablesOk, HasSpace, StaleBetween, KeysDoubled;
    hide LeavesDoubled, UnusedKept, RootTidy, CountKept, FramesUsed, Order;
  }

  lemma AddedParts(s0: State, s1: State, target: nat)
    requires SpaceAdded(s0, s1, target)
    ensures TablesOk(s1) && s1.d == s0.d[Key(target, LEVELS, 0) := target] && Key(target, LEVELS, 0) !in s0.d
    ensures EntriesKept(s0.m, s0.d, s1.m, s1.d) && SameLeaves(s0.m, s0.d, s1.m, s1.d) && CountKept(s0, s1)
    ensures Frames(s0.kernel) == [target] + Frames(s1.kernel)
    ensures forall k :: k in s0.d ==> k.root != target
    ensures WordsKept(s0, s1, target)
  {
  }

  /** But for the first two words, no frame except that of the new root has changed. */
  ghost predicate WordsKept(s0: State, s1: State, target: nat) {
    |s1.m| == |s0.m| && forall g, i :: 0 <= g < |s0.m| && g != target && 2 <= i < 512 ==> s1.m[g][i] == s0.m[g][i]
  }

  lemma CopyWholeKeys(s0: State, s1: State, s2: State, source: nat, target: nat)
    requires HasSpace(s0, source) && SpaceAdded(s0, s1, target)
    requires KeysCopied(s1.d, s2.d, source, target, LEVELS, 0, 512)
    ensures KeysDoubled(s0.d, s2.d, source, target)
  {
    forall k: Key
      ensures k in s2.d <==> k in s0.d || (k.root == target && 1 <= k.level <= LEVELS && InSpace(k, source) in s0.d)
    {
      CopyKeys(s0, s1, s2, source, target, k);
    }
  }

  lemma CopyWholeLeaves(code: Code, s0: State, s1: State, s2: State, source: nat, target: nat)
    requires TablesOk(s0) && SpaceAdded(s0, s1, target)
    requires Copied(code, s1, s2, source, Key(target, LEVELS, 0), 512)
    ensures LeavesDoubled(s0, s2, source, target)
    ensures UnusedKept(s0.m, s0.d, s2.m, s2.d) && forall k :: k in s0.d ==> k in s2.d
  {
    AddedParts(s0, s1, target);
    CopiedParts(code, s1, s2, source, Key(target, LEVELS, 0), 512);
    hide *;
    OthersStayUnused(s0, s1, s2, source, target);
    AllLeaves(s0, s1, s2, source, target);
  }

  lemma AllLeaves(s0: State, s1: State, s2: State, source: nat, target: nat)
    requires SameLeaves(s0.m, s0.d, s1.m, s1.d) && LeavesCopied(s1, s2, source, target, LEVELS, 0, 512)
    ensures LeavesDoubled(s0, s2, source, target)
  {
    hide SameLeaves, LeavesCopied, Leaf;
    forall r: nat, v: nat
      ensures r != target ==> Leaf(s2.m, s2.d, r, v) == Leaf(s0.m, s0.d, r, v)
      ensures v < SPACE_END ==> Leaf(s2.m, s2.d, target, v) == Leaf(s0.m, s0.d, source, v)
    {
      CopyLeaves(s0, s1, s2, source, target, r, v);
    }
  }

  lemma CopyWholeParts(code: Code, s0: State, s1: State, s2: State, source: nat, target: nat)
    requires HasSpace(s0, source) && SpaceAdded(s0, s1, target) && TablesOk(s2)
    requires Copied(code, s1, s2, source, Key(target, LEVELS, 0), 512)
    ensures source != target && target < |s2.m| && RootTidy(s2, target) && CountKept(s0, s2)
  {
    AddedParts(s0, s1, target);
    AddedRoot(s0, s1, target);
    CopiedParts(code, s1, s2, source, Key(target, LEVELS, 0), 512);
    SpacesDiffer(s0, source, target);
    hide *;
    RootStaysTidy(s1, s2, target);
    JoinCounts(s0, s1, s2);
  }

  lemma AddedRoot(s0: State, s1: State, target: nat)
    requires SpaceAdded(s0, s1, target)
    ensures Key(target, LEVELS, 0) in s1.d && s1.d[Key(target, LEVELS, 0)] == target < |s1.m|
    ensures Tidy(s1.m, s1.d, target)
  {
    assert Linked(s1.m, s1.d, Key(target, LEVELS, 0));
  }

  lemma SpacesDiffer(s: State, source: nat, target: nat)
    requires HasSpace(s, source) && forall k :: k in s.d ==> k.root != target
    ensures source != target
  {
  }

  lemma JoinCounts(s0: State, s1: State, s2: State)
    requires CountKept(s0, s1) && CountKept(s1, s2)
    ensures CountKept(s0, s2)
  {
  }

  lemma RootStaysTidy(s1: State, s2: State, target: nat)
    requires Key(target, LEVELS, 0) in s1.d
    requires s1.d[Key(target, LEVELS, 0)] == target < |s1.m| && Tidy(s1.m, s1.d, target)
    requires OthersKept(s1, s2, Key(target, LEVELS, 0)) && Extends(s1.d, s2.d)
    ensures target < |s2.m| && RootTidy(s2, target)
  {
    var root := Key(target, LEVELS, 0);
    forall i | 0 <= i < 512 && Key(target, LEVELS - 1, i) !in s2.d
      ensures s2.m[target][i] == ZERO_WORD
    {
      assert Down(root, i) == Key(target, LEVELS - 1, i) && Down(root, i) !in s1.d;
      assert s1.m[target][i] == ZERO_WORD;
    }
  }

  lemma CopyWholeStale(code: Code, s0: State, s1: State, s2: State, source: nat, target: nat)
    requires HasSpace(s0, source) && SpaceAdded(s0, s1, target) && TablesOk(s2)
    requires Copied(code, s1, s2, source, Key(target, LEVELS, 0), 512)
    ensures StaleBetween(code, s0, s2, target)
  {
    AddedParts(s0, s1, target);
    CopiedParts(code, s1, s2, source, Key(target, LEVELS, 0), 512);
    TablesDistinct(s2);
    KernelRuns(s0, s1);
    hide *;
    StaleWhole(code, s0, s1, s2, target);
  }

  lemma KernelRuns(s0: State, s1: State)
    requires CountKept(s0, s1)
    ensures KernelRunsKept(s0, s1)
  {
  }

  lemma StaleWhole(code: Code, s0: State, s1: State, s2: State, target: nat)
    requires WordsKept(s0, s1, target) && NewAreStale(code, s1, s2) && NewFromList(s1, s2) && Distinct(s2.d)
    requires KernelRunsKept(s0, s1)
    requires s1.d == s0.d[Key(target, LEVELS, 0) := target] && forall k :: k in s0.d ==> k.root != target
    requires |s2.m| == |s1.m| && Key(target, LEVELS, 0) in s2.d && s2.d[Key(target, LEVELS, 0)] == target
    ensures StaleBetween(code, s0, s2, target)
  {
    forall k, i | k in s2.d && k.root == target && 1 < k.level < LEVELS && 0 <= i < 512 && Down(k, i) !in s2.d
      ensures s2.d[k] < |s0.m| && s2.d[k] < |s2.m| && StaleEntry(code, s0, s2, s2.d[k], i)
    {
      assert k !in s1.d && s2.d[k] != target;
      assert StaleEntry(code, s1, s2, s2.d[k], i) && s2.d[k] in Frames(s1.kernel);
    }
  }

  lemma CopyWholeFrames(code: Code, s0: State, s1: State, s2: State, source: nat, target: nat)
    requires HasSpace(s0, source) && SpaceAdded(s0, s1, target)
    requires Copied(code, s1, s2, source, Key(target, LEVELS, 0), 512)
    ensures FramesUsed(s0, s2, Order(s0.d, source), target)
  {
    var root, top := Key(source, LEVELS, 0), Key(target, LEVELS, 0);
    AddedParts(s0, s1, target);
    CopiedParts(code, s1, s2, source, top, 512);
    SameOrder(s0.d, s1.d, source, target);
    assert InSpace(top, source) == root && InSpace(root, target) == top;
    hide *;
    FramesFromTop(s0, s1, s2, root, Listed(s0.d, root, 512), target);
    OrderIs(s0.d, source);
  }

  lemma OrderIs(d: Directory, source: nat)
    ensures Order(d, source) == [Key(source, LEVELS, 0)] + Listed(d, Key(source, LEVELS, 0), 512)
  {
  }

  lemma SameOrder(d: Directory, d1: Directory, source: nat, target: nat)
    requires d1 == d[Key(target, LEVELS, 0) := target] && source != target
    ensures ListedTo(d1, Key(source, LEVELS, 0), 512) == Listed(d, Key(source, LEVELS, 0), 512)
  {
    ListedSame(d, d1, Key(source, LEVELS, 0), 512);
    hide Listed;
  }

  lemma FramesFromTop(s0: State, s1: State, s2: State, root: Key, below: seq<Key>, target: nat)
    requires Frames(s0.kernel) == [target] + Frames(s1.kernel) && FramesUsed(s1, s2, below, target)
    requires InSpace(root, target) in s2.d && s2.d[InSpace(root, target)] == target
    ensures FramesUsed(s0, s2, [root] + below, target)
  {
    var list, frames := [root] + below, Frames(s0.kernel);
    assert frames[|list|..] == Frames(s1.kernel)[|below|..];
    forall j | 0 <= j < |list|
      ensures InSpace(list[j], target) in s2.d && s2.d[InSpace(list[j], target)] == frames[j]
    {
      if j > 0 {
        assert list[j] == below[j - 1] && frames[j] == Frames(s1.kernel)[j - 1];
      }
    }
  }

  // --- what a copy translates -----------------------------------------------------------------

  /** A page of a copy on the way to which no entry is stray is translated as by the source. */
  lemma CopyAgrees(code: Code, s0: State, s1: State, source: nat, target: nat, v: nat)
    requires HasSpace(s0, source) && CopyOf(code, s0, s1, source, target) && v < SPACE_END
    requires NoStray(s1.m, s1.d, target, v)
    ensures HasRoot(s1, target) && Translate(s1.m, target, v) == Translate(s0.m, source, v)
  {
    hide TablesOk, KeysDoubled, LeavesDoubled, UnusedKept, RootTidy;
    hide StaleBetween, CountKept, Tidy, Translate, Leaf, FramesUsed, Order, NoStray;
    TranslateInTidy(s0, source, v);
    CopiedLeaf(s0, s1, source, target, v);
    CopiedKey(s0.d, s1.d, source, target, Key(target, LEVELS, 0));
    TranslateLeaf(s1, target, v);
  }

  /** Every page the source maps is mapped by the copy to the same frame with the same flags, for
      there is no stray entry on the way to it. */
  lemma CopyPreservesMapped(code: Code, s0: State, s1: State, source: nat, target: nat, v: nat)
    requires HasSpace(s0, source) && CopyOf(code, s0, s1, source, target) && v < SPACE_END
    requires Translate(s0.m, source, v).Some?
    ensures HasRoot(s1, target) && NoStray(s1.m, s1.d, target, v)
    ensures Translate(s1.m, target, v) == Translate(s0.m, source, v)
  {
    hide KeysDoubled, LeavesDoubled, UnusedKept, RootTidy, StaleBetween;
    hide CountKept, Tidy, Translate, Leaf, FramesUsed, Order, NoStray;
    TranslateInTidy(s0, source, v);
    LeafNeedsTable(s0, source, v);
    CopiedKey(s0.d, s1.d, source, target, Key(target, 1, v / 512));
    TablesLinked(s1);
    hide TablesOk;
    TableHasNoStray(s1.m, s1.d, target, v);
    CopyAgrees(code, s0, s1, source, target, v);
  }

  lemma CopiedLeaf(s0: State, s1: State, source: nat, target: nat, v: nat)
    requires LeavesDoubled(s0, s1, source, target) && v < SPACE_END
    ensures Leaf(s1.m, s1.d, target, v) == Leaf(s0.m, s0.d, source, v)
  {
  }

  lemma LeafNeedsTable(s: State, root: nat, v: nat)
    ensures Present(Leaf(s.m, s.d, root, v)) ==> Key(root, 1, v / 512) in s.d
  {
  }

  /** Copying changes no other space: neither its translations nor where it has stray entries. */
  lemma CopyKeepsOthers(code: Code, s0: State, s1: State, source: nat, target: nat, other: nat, v: nat)
    requires CopyOf(code, s0, s1, source, target)
    requires HasRoot(s0, other) && v < SPACE_END && NoStray(s0.m, s0.d, other, v)
    ensures HasRoot(s1, other) && NoStray(s1.m, s1.d, other, v)
    ensures Translate(s1.m, other, v) == Translate(s0.m, other, v)
  {
    assert other != target;
    StaysNoStray(s0.m, s0.d, s1.m, s1.d, other, v);
    hide TablesOk, KeysDoubled, UnusedKept, RootTidy, StaleBetween;
    hide CountKept, Tidy, Translate, Leaf, FramesUsed, Order, NoStray;
    TranslateLeaf(s0, other, v);
    TranslateLeaf(s1, other, v);
  }

  lemma CopyKeepsTidy(code: Code, s0: State, s1: State, source: nat, target: nat, other: nat)
    requires CopyOf(code, s0, s1, source, target) && HasSpace(s0, other)
    ensures HasSpace(s1, other)
  {
    forall k, i | k in s1.d && k.root == other && k.level > 1 && 0 <= i < 512 && Down(k, i) !in s1.d
      ensures s1.d[k] < |s1.m| && s1.m[s1.d[k]][i] == ZERO_WORD
    {
      assert k in s0.d && Down(k, i) !in s0.d;
    }
  }

  /** No walk in the copy reads a frame that a walk in the source reads, unless it is led astray. */
  lemma CopySharesNoTable(code: Code, s0: State, s1: State, source: nat, target: nat, l1: nat, v1: nat, l2: nat,
                          v2: nat)
    requires HasSpace(s0, source) && CopyOf(code, s0, s1, source, target)
    requires v1 < SPACE_END && v2 < SPACE_END && 1 <= l1 <= LEVELS && 1 <= l2 <= LEVELS
    requires NoStray(s1.m, s1.d, target, v2) && TableAt(s1.m, source, l1, v1).Some?
    ensures TableAt(s1.m, source, l1, v1) != TableAt(s1.m, target, l2, v2)
  {
    CopyKeepsTidy(code, s0, s1, source, target, source);
    CopiedKey(s0.d, s1.d, source, target, Key(target, LEVELS, 0));
    assert source != target;
    hide TablesOk, KeysDoubled, LeavesDoubled, UnusedKept, RootTidy;
    hide StaleBetween, CountKept, Tidy, FramesUsed, Order, NoStray, TableAt;
    TranslateInTidy(s1, source, v1);
    TablesFormForest(s1, source, l1, v1, target, l2, v2);
  }

  // --- where a copy can be mapped into ----------------------------------------------------------

  /** The pages lie below root entries that the space does not use. */
  ghost predicate BelowUnusedRoots(d: Directory, root: nat, lo: nat, hi: nat) {
    forall v: nat :: lo <= v < hi ==> Key(root, 3, Prefix(v, 3)) !in d
  }

  lemma TableOnTheWay(m: seq<PageFrame>, d: Directory, k: Key, i: nat, lo: nat, hi: nat)
    requires Links(m, d) && k in d && k.level > 1 && i < 512 && Visits(k.level - 1, k.prefix * 512 + i, lo, hi)
    ensures k.level <= LEVELS
    ensures k.level < LEVELS ==> exists v: nat :: lo <= v < hi && Key(k.root, 3, Prefix(v, 3)) in d
  {
    assert Linked(m, d, k);
    if k.level < LEVELS {
      var v :| lo <= v < hi && Prefix(v, k.level - 1) == k.prefix * 512 + i;
      AncestorIn(m, d, k, v, 3);
    }
  }

  lemma OnlyRootOnTheWay(s0: State, s1: State, source: nat, target: nat, lo: nat, hi: nat, k: Key, i: nat)
    requires TablesOk(s1) && KeysDoubled(s0.d, s1.d, source, target) && BelowUnusedRoots(s0.d, source, lo, hi)
    requires k in s1.d && k.root == target && k.level > 1 && i < 512 && Visits(k.level - 1, k.prefix * 512 + i, lo, hi)
    ensures k.level == LEVELS
  {
    TableOnTheWay(s1.m, s1.d, k, i, lo, hi);
  }

  lemma RootEntryIsZero(s: State, k: Key, i: nat)
    requires k in s.d && k.level == LEVELS && k.prefix == 0 && s.d[k] == k.root < |s.m| && RootTidy(s, k.root)
    requires i < 512 && Down(k, i) !in s.d
    ensures s.m[s.d[k]][i] == ZERO_WORD
  {
    assert Down(k, i) == Key(k.root, LEVELS - 1, i);
  }

  lemma TopOrBetween(s: State, k: Key)
    requires TablesOk(s) && k in s.d
    ensures k.level <= LEVELS && s.d[k] < |s.m|
    ensures k.level == LEVELS ==> k.prefix == 0 && s.d[k] == k.root
  {
    assert Linked(s.m, s.d, k);
  }

  /** The root of a copy is zeroed. So `map` is safe for any pages below root entries that the
      source does not use, whatever the other tables of the copy hold. */
  lemma CopyIsPassable(code: Code, s0: State, s1: State, source: nat, target: nat, lo: nat, hi: nat)
    requires CopyOf(code, s0, s1, source, target) && BelowUnusedRoots(s0.d, source, lo, hi)
    ensures Passable(s1.m, s1.d, target, lo, hi)
  {
    hide TablesOk, KeysDoubled, LeavesDoubled, UnusedKept, StaleBetween, CountKept, FramesUsed, Order, BelowUnusedRoots;
    forall k, i | k in s1.d && k.root == target && k.level > 1 && 0 <= i < 512 && Down(k, i) !in s1.d
        && Visits(k.level - 1, k.prefix * 512 + i, lo, hi)
      ensures s1.d[k] < |s1.m| && s1.m[s1.d[k]][i].frame == 0
    {
      OnlyRootOnTheWay(s0, s1, source, target, lo, hi, k, i);
      TopOrBetween(s1, k);
      RootEntryIsZero(s1, k, i);
    }
  }

  /** The user stack (os/kernel/src/thread/thread.rs:19-20, 47-53), in pages. */
  const USER_STACK := Range(0x4_0000_0000, 0x4_0000_0010)

  /** The user stack lies below root entry 128, which a kernel space for less than 64 TiB of
      memory does not use. */
  lemma UserStackIsPassable(code: Code, s0: State, s1: State, source: nat, target: nat)
    requires CopyOf(code, s0, s1, source, target) && Key(source, 3, 128) !in s0.d
    ensures Passable(s1.m, s1.d, target, USER_STACK.start, USER_STACK.end)
    ensures USER_STACK.start * 4096 == 0x4000_0000_0000 && USER_STACK.Count() * 4096 == 0x1_0000
  {
    forall v: nat | USER_STACK.start <= v < USER_STACK.end
      ensures Prefix(v, 3) == 128
    {
      assert Prefix(v, 3) == Prefix(v, 2) / 512 == Prefix(v, 1) / 512 / 512 == v / 512 / 512 / 512;
    }
    CopyIsPassable(code, s0, s1, source, target, USER_STACK.start, USER_STACK.end);
  }

  // --- the kernel space -----------------------------------------------------------------------

  /** A new space maps nothing. */
  lemma NewSpaceIsEmpty(s0: State, s1: State, root: nat, v: nat)
    requires SpaceAdded(s0, s1, root) && TablesOk(s0) && v < SPACE_END
    ensures HasSpace(s1, root) && Leaf(s1.m, s1.d, root, v) == ZERO_WORD && Translate(s1.m, root, v) == None
  {
    AddedParts(s0, s1, root);
    NoLeaf(s0, root, v);
    hide SameLeaves, EntriesKept, WordsKept, CountKept, Tidy, Translate, TablesOk;
    SameLeafAt(s0, s1, root, v);
    hide Leaf;
    TranslateInTidy(s1, root, v);
  }

  lemma NoLeaf(s: State, root: nat, v: nat)
    requires forall k :: k in s.d ==> k.root != root
    ensures Leaf(s.m, s.d, root, v) == ZERO_WORD
  {
  }

  lemma SameLeafAt(s0: State, s1: State, root: nat, v: nat)
    requires SameLeaves(s0.m, s0.d, s1.m, s1.d)
    ensures Leaf(s1.m, s1.d, root, v) == Leaf(s0.m, s0.d, root, v)
  {
  }

  /** Mapping [0, n) into a new space gives the identity on these pages, and nothing else. */
  lemma IdentityMapped(code: Code, s0: State, s1: State, s2: State, root: nat, n: nat, flags: nat,
                       r: Option<nat>, placed: map<nat, nat>, v: nat)
    requires TablesOk(s0) && SpaceAdded(s0, s1, root) && TablesOk(s2) && 0 < n <= SPACE_END && v < SPACE_END
    requires MapResult(code, s1, s2, root, LEVELS, Range(0, n), First(1, LEVELS), FramePool.Kernel, flags, r,
                       placed)
    requires r.Some?
    ensures Translate(s2.m, root, v) == if v < n then Translation(Word(v, flags)) else None
  {
    hide TablesOk, MapResult, Translate, Leaf, SpaceAdded, NoStray, WriteEnd;
    NewSpaceIsEmpty(s0, s1, root, v);
    TranslateInTidy(s1, root, v);
    MapTranslates(code, s1, s2, root, Range(0, n), FramePool.Kernel, flags, r, placed, root, v);
    MapCovers(code, s1, s2, root, Range(0, n), FramePool.Kernel, flags, r, placed, v);
    MapStaysInRangeExactlyWhen(code, Range(0, n));
  }

  /** Root and tables together: the first space can be built exactly if the kernel list holds
      as many frames as the tables need. */
  lemma FirstSpaceTables(code: Code, s0: State, s1: State, s2: State, root: nat, n: nat, flags: nat,
                         r: Option<nat>, placed: map<nat, nat>)
    requires TablesOk(s0) && SpaceAdded(s0, s1, root) && 0 < n <= SPACE_END
    requires MapResult(code, s1, s2, root, LEVELS, Range(0, n), First(1, LEVELS), FramePool.Kernel, flags, r,
                       placed)
    ensures r.Some? <==> Total(s0.kernel) >= TablesNeeded(n)
    ensures r.Some? ==> Total(s2.kernel) == Total(s0.kernel) - TablesNeeded(n)
    ensures r.Some? ==> s2.d.Keys == s0.d.Keys + {Key(root, LEVELS, 0)} + KeysFor(root, n)
  {
    AddedCost(s0, s1, root);
    AddedParts(s0, s1, root);
    hide TablesOk, MapResult, SpaceAdded, EntriesKept, SameLeaves, KeysFor, TablesNeeded, WordsKept, CountKept;
    FreshSpaceTables(code, s1, s2, root, n, flags, r, placed);
  }

  lemma AddedCost(s0: State, s1: State, root: nat)
    requires SpaceAdded(s0, s1, root)
    ensures s1.d.Keys == s0.d.Keys + {Key(root, LEVELS, 0)} && Total(s1.kernel) + 1 == Total(s0.kernel)
  {
    FramesTotal(s0.kernel);
    FramesTotal(s1.kernel);
  }

  /** The tables of a space. */
  function TablesOf(d: Directory, root: nat): set<Key> {
    set k | k in d && k.root == root
  }

  /** The order lists every table of a space once: a copy needs as many frames as the source has
      tables. */
  lemma OrderSize(s: State, source: nat)
    requires HasRoot(s, source)
    ensures |Order(s.d, source)| == |TablesOf(s.d, source)|
  {
    var root := Key(source, LEVELS, 0);
    TablesLinked(s);
    ListedOnce(s.m, s.d, root, 512);
    var below := TableOrder.Below(s.d, root, 512);
    forall k | k in s.d && k.root == source
      ensures k == root || k in below
    {
      BelowRoot(s, k);
    }
    assert TablesOf(s.d, source) == {root} + below;
    assert |{root} + below| == 1 + |below|;
  }
}
