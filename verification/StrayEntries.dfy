/** Stray entries: entries of a table that are present although the space has no table below
them. A walk follows them into a frame that is no table of the space. */
module StrayEntries {
  import opened PhysMemory
  import opened PageTables
  import opened TableOrder

  /** What can be asked of an entry without a table: that it is a zero word, so that `map` and
      `copy_table` find it unused, or that it is not present, so that no walk goes on from it. */
  predicate IsZero(w: Word) {
    w == ZERO_WORD
  }

  predicate IsAbsent(w: Word) {
    !Present(w)
  }

  ghost predicate UnusedAre(m: seq<PageFrame>, d: Directory, root: nat, p: Word -> bool) {
    forall k, i :: k in d && k.root == root && k.level > 1 && 0 <= i < 512 && Down(k, i) !in d
      ==> d[k] < |m| && p(m[d[k]][i])
  }

  /** The space has no stray entry. */
  ghost predicate Straight(m: seq<PageFrame>, d: Directory, root: nat) {
    UnusedAre(m, d, root, IsAbsent)
  }

  /** The prefixes of a linked table's key stay within its level. */
  lemma {:induction false} KeyInRange(m: seq<PageFrame>, d: Directory, k: Key)
    requires Links(m, d) && k in d
    ensures 1 <= k.level <= LEVELS && Prefix(k.prefix, LEVELS - k.level) == 0
    decreases LEVELS - k.level
  {
    assert Linked(m, d, k);
    if k.level < LEVELS {
      KeyInRange(m, d, Up(k));
      PrefixCompose(k.prefix, 1, LEVELS - k.level - 1);
      assert Prefix(k.prefix, 1) == k.prefix / 512;
    }
  }

  lemma {:induction false} AncestorIn(m: seq<PageFrame>, d: Directory, k: Key, v: nat, level: nat)
    requires Links(m, d) && k in d && k.level <= level <= LEVELS && Prefix(v, k.level) == k.prefix
    ensures Key(k.root, level, Prefix(v, level)) in d
    decreases level
  {
    if level > k.level {
      AncestorIn(m, d, k, v, level - 1);
      assert Linked(m, d, Key(k.root, level - 1, Prefix(v, level - 1)));
    }
  }

  /** A walk to a page below an entry without a table is led astray exactly if the entry is
      present: the entry is the only one on the way that could be stray. */
  lemma NoStrayBelow(m: seq<PageFrame>, d: Directory, k: Key, i: nat, v: nat)
    requires Links(m, d) && k in d && k.level > 1 && i < 512 && Down(k, i) !in d
    requires Prefix(v, k.level - 1) == k.prefix * 512 + i
    ensures d[k] < |m| && (NoStray(m, d, k.root, v) <==> !Present(m[d[k]][i]))
  {
    assert Linked(m, d, k);
    assert Prefix(v, k.level) == Prefix(v, k.level - 1) / 512 == k.prefix && PageTableIndex(v, k.level) == i;
    assert StopsAt(m, d, k.root, v, k.level) <==> !Present(m[d[k]][i]);
    forall level | 2 <= level <= LEVELS && level != k.level
      ensures StopsAt(m, d, k.root, v, level)
    {
      if level > k.level {
        AncestorIn(m, d, k, v, level - 1);
      } else {
        var n := k.level - 1 - level;
        PrefixCompose(v, level, n);
        NoneBelowMissing(m, d, Key(k.root, level, Prefix(v, level)), n);
      }
    }
  }

  /** A walk comes by every table on its way. */
  lemma {:induction false} WalkThrough(m: seq<PageFrame>, d: Directory, k: Key, v: nat)
    requires Links(m, d) && k in d && Prefix(v, k.level) == k.prefix
    ensures 1 <= k.level && Walk(m, k.root, LEVELS, v) == Walk(m, d[k], k.level, v)
    decreases LEVELS - k.level
  {
    assert Linked(m, d, k);
    if k.level < LEVELS {
      assert Prefix(v, k.level + 1) == Prefix(v, k.level) / 512 && PageTableIndex(v, k.level + 1) == k.prefix % 512;
      WalkThrough(m, d, Up(k), v);
    }
  }

  /** It goes on from a present entry in the frame that this names. */
  lemma WalkPast(m: seq<PageFrame>, d: Directory, k: Key, i: nat, v: nat)
    requires Links(m, d) && k in d && k.level > 1 && i < 512 && Prefix(v, k.level - 1) == k.prefix * 512 + i
    ensures d[k] < |m|
    ensures Present(m[d[k]][i]) ==> Walk(m, k.root, LEVELS, v) == Walk(m, m[d[k]][i].frame, k.level - 1, v)
  {
    assert Prefix(v, k.level) == Prefix(v, k.level - 1) / 512 == k.prefix && PageTableIndex(v, k.level) == i;
    WalkThrough(m, d, k, v);
    assert Linked(m, d, k);
  }

  /** The first page below an entry. */
  function FirstBelow(k: Key, i: nat): nat
    requires k.level > 1
  {
    First(k.prefix * 512 + i, k.level - 1)
  }

  lemma {:induction false} FirstInSpace(p: nat, level: nat, up: nat)
    requires Prefix(p, up) == 0
    ensures First(p, level) < First(1, level + up)
  {
    PrefixBelow(p, 1, up);
    FirstMonotone(p, First(1, up), level);
    FirstCompose(1, up, level);
  }

  lemma {:induction false} FirstCompose(p: nat, a: nat, b: nat)
    ensures First(First(p, a), b) == First(p, a + b)
    decreases a
  {
    if a > 0 {
      FirstCompose(p * 512, a - 1, b);
    }
  }

  lemma FirstBelowIs(m: seq<PageFrame>, d: Directory, k: Key, i: nat)
    requires Links(m, d) && k in d && k.level > 1 && i < 512
    ensures FirstBelow(k, i) < First(1, LEVELS)
    ensures Prefix(FirstBelow(k, i), k.level - 1) == k.prefix * 512 + i
  {
    var p := k.prefix * 512 + i;
    KeyInRange(m, d, k);
    PrefixCompose(p, 1, LEVELS - k.level);
    assert Prefix(p, 1) == p / 512 == k.prefix;
    FirstInSpace(p, k.level - 1, LEVELS - k.level + 1);
    PrefixOfFirst(p, k.level - 1);
  }

  /** No walk of any page is led astray if and only if the space has no stray entry. */
  lemma StraightExactlyWhen(m: seq<PageFrame>, d: Directory, root: nat)
    requires Links(m, d)
    ensures Straight(m, d, root) <==> forall v: nat :: v < First(1, LEVELS) ==> NoStray(m, d, root, v)
  {
    if forall v: nat :: v < First(1, LEVELS) ==> NoStray(m, d, root, v) {
      forall k, i | k in d && k.root == root && k.level > 1 && 0 <= i < 512 && Down(k, i) !in d
        ensures d[k] < |m| && IsAbsent(m[d[k]][i])
      {
        hide NoStray, Links;
        FirstBelowIs(m, d, k, i);
        NoStrayBelow(m, d, k, i, FirstBelow(k, i));
      }
    }
    if Straight(m, d, root) {
      forall v: nat
        ensures NoStray(m, d, root, v)
      {
        StraightHasNoStray(m, d, root, v);
      }
    }
  }

  lemma StraightHasNoStray(m: seq<PageFrame>, d: Directory, root: nat, v: nat)
    requires Straight(m, d, root)
    ensures NoStray(m, d, root, v)
  {
    forall level | 2 <= level <= LEVELS
      ensures StopsAt(m, d, root, v, level)
    {
      var k := Key(root, level, Prefix(v, level));
      assert Down(k, PageTableIndex(v, level)) == Key(root, level - 1, Prefix(v, level - 1));
    }
  }

  lemma TidyExactlyWhenZero(m: seq<PageFrame>, d: Directory, root: nat)
    ensures Tidy(m, d, root) <==> UnusedAre(m, d, root, IsZero)
    ensures Tidy(m, d, root) ==> Straight(m, d, root)
  {
  }

  /** Unused entries stay absent while tables are only added to a space and zeroed. */
  lemma StaysStraight(m0: seq<PageFrame>, d0: Directory, m1: seq<PageFrame>, d1: Directory, root: nat)
    requires UnusedKept(m0, d0, m1, d1) && Straight(m0, d0, root) && forall k :: k in d0 ==> k in d1
    requires NewZeroed(m1, d0, d1) || forall k :: k in d1 && k.root == root ==> k in d0
    ensures Straight(m1, d1, root)
  {
    forall k, i | k in d1 && k.root == root && k.level > 1 && 0 <= i < 512 && Down(k, i) !in d1
      ensures d1[k] < |m1| && IsAbsent(m1[d1[k]][i])
    {
      assert Down(k, i) !in d0;
      assert k in d0 ==> d0[k] < |m0| && IsAbsent(m0[d0[k]][i]);
    }
  }
}
