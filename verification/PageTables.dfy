/** Four-level page tables in physical memory, and the tree they form.

`Walk` is the translation that the processor performs (section 4.5 of the Intel SDM, Volume
3A). The tables in use are described by a directory: a map from the place of a table - its
space, its level and the prefix shared by all pages it covers - to the frame that holds it. */
module PageTables {
  import opened Ranges
  import opened PhysMemory

  const LEVELS := 4

  /** `AsWritten` is the code of the repository. `Intended` differs from it in two places: the
      level-1 loops of `map` end at `alloc_count`, and `copy_table` zeroes the tables it takes. */
  datatype Code = AsWritten | Intended

  /** The flags of an entry that points to a table: present, writable, user accessible. */
  const TABLE_FLAGS := 7

  // --- page numbers -----------------------------------------------------------------------

  /** A page number without its lowest `level` groups of 9 bits. */
  function Prefix(v: nat, level: nat): nat {
    if level == 0 then v else Prefix(v, level - 1) / 512
  }

  /** The first page whose prefix is `p`. */
  function First(p: nat, level: nat): nat
    decreases level
  {
    if level == 0 then p else First(p * 512, level - 1)
  }

  function PageTableIndex(v: nat, level: nat): nat
    requires level >= 1
  {
    Prefix(v, level - 1) % 512
  }

  lemma {:induction false} PrefixBelow(v: nat, x: nat, level: nat)
    ensures Prefix(v, level) < x <==> v < First(x, level)
    decreases level
  {
    if level > 0 {
      PrefixBelow(v, x * 512, level - 1);
    }
  }

  lemma {:induction false} FirstMonotone(a: nat, b: nat, level: nat)
    requires a < b
    ensures First(a, level) < First(b, level)
    decreases level
  {
    if level > 0 {
      FirstMonotone(a * 512, b * 512, level - 1);
    }
  }

  lemma PrefixOfFirst(p: nat, level: nat)
    ensures Prefix(First(p, level), level) == p
  {
    PrefixBelow(First(p, level), p, level);
    FirstMonotone(p, p + 1, level);
    PrefixBelow(First(p, level), p + 1, level);
  }

  /** The pages with a given prefix are consecutive. */
  lemma PrefixIs(v: nat, p: nat, level: nat)
    ensures Prefix(v, level) == p <==> First(p, level) <= v < First(p + 1, level)
  {
    PrefixBelow(v, p, level);
    PrefixBelow(v, p + 1, level);
  }

  lemma {:induction false} PrefixCompose(v: nat, a: nat, b: nat)
    ensures Prefix(Prefix(v, a), b) == Prefix(v, a + b)
  {
    if b > 0 {
      PrefixCompose(v, a, b - 1);
    }
  }

  lemma {:induction false} PrefixMonotone(v: nat, w: nat, level: nat)
    requires v <= w
    ensures Prefix(v, level) <= Prefix(w, level)
  {
    if level > 0 {
      PrefixMonotone(v, w, level - 1);
    }
  }

  // --- the walk ---------------------------------------------------------------------------

  predicate Present(w: Word) {
    w.flags % 2 == 1
  }

  /** The level-1 entry that a walk from `table` reaches for page `v`. */
  function Walk(m: seq<PageFrame>, table: nat, level: nat, v: nat): Option<Word>
    requires level >= 1
    decreases level
  {
    if table >= |m| then None
    else
      var entry := m[table][PageTableIndex(v, level)];
      if level == 1 then Some(entry)
      else if !Present(entry) then None
      else Walk(m, entry.frame, level - 1, v)
  }

  /** The frame and flags with which a space maps page `v`. */
  function Translate(m: seq<PageFrame>, root: nat, v: nat): Option<Word> {
    match Walk(m, root, LEVELS, v)
    case None => None
    case Some(entry) => if Present(entry) then Some(entry) else None
  }

  // --- the directory ----------------------------------------------------------------------

  /** The place of a table in the space with the given root frame. */
  datatype Key = Key(root: nat, level: nat, prefix: nat)

  type Directory = map<Key, nat>

  function Up(k: Key): Key {
    Key(k.root, k.level + 1, k.prefix / 512)
  }

  function Down(k: Key, i: nat): Key
    requires k.level >= 1
  {
    Key(k.root, k.level - 1, k.prefix * 512 + i)
  }

  lemma UpDown(k: Key, i: nat)
    requires k.level >= 1 && i < 512
    ensures Up(Down(k, i)) == k && Down(k, i).prefix % 512 == i
  {
  }

  /** Table `k` is a root, or the entry for it in the table above points to it. */
  ghost predicate Linked(m: seq<PageFrame>, d: Directory, k: Key)
    requires k in d
  {
    && 1 <= k.level <= LEVELS
    && 0 < d[k] < |m|
    && (k.level == LEVELS ==> k.prefix == 0 && d[k] == k.root)
    && (k.level < LEVELS ==> Up(k) in d && d[Up(k)] < |m| && m[d[Up(k)]][k.prefix % 512] == Word(d[k], TABLE_FLAGS))
  }

  ghost predicate Links(m: seq<PageFrame>, d: Directory) {
    forall k :: k in d ==> Linked(m, d, k)
  }

  /** No frame holds two tables: none is reached by two entries or shared by two spaces. */
  ghost predicate Distinct(d: Directory) {
    forall j, k :: j in d && k in d && d[j] == d[k] ==> j == k
  }

  /** Where the space `root` has no table, there is no entry either. */
  ghost predicate Tidy(m: seq<PageFrame>, d: Directory, root: nat) {
    forall k, i :: k in d && k.root == root && k.level > 1 && 0 <= i < 512 && Down(k, i) !in d
      ==> d[k] < |m| && m[d[k]][i] == ZERO_WORD
  }

  /** The level-1 entry for page `v`; zero if the space has no table for it. */
  ghost function Leaf(m: seq<PageFrame>, d: Directory, root: nat, v: nat): Word {
    var k := Key(root, 1, v / 512);
    if k in d && d[k] < |m| then m[d[k]][v % 512] else ZERO_WORD
  }

  ghost predicate SameLeaves(m0: seq<PageFrame>, d0: Directory, m1: seq<PageFrame>, d1: Directory) {
    forall r: nat, v: nat :: Leaf(m1, d1, r, v) == Leaf(m0, d0, r, v)
  }

  lemma {:induction false} AncestorsIn(m: seq<PageFrame>, d: Directory, root: nat, v: nat, level: nat)
    requires Links(m, d) && Key(root, 1, Prefix(v, 1)) in d && 1 <= level <= LEVELS
    ensures Key(root, level, Prefix(v, level)) in d
  {
    if level > 1 {
      AncestorsIn(m, d, root, v, level - 1);
      var k := Key(root, level - 1, Prefix(v, level - 1));
      assert Linked(m, d, k) && Up(k) == Key(root, level, Prefix(v, level));
    }
  }

  /** Where there is a level-1 table, the walk ends in its entry. */
  lemma {:induction false} WalkToLeaf(m: seq<PageFrame>, d: Directory, root: nat, v: nat, level: nat)
    requires Links(m, d) && 1 <= level <= LEVELS
    requires Key(root, 1, Prefix(v, 1)) in d
    ensures Key(root, level, Prefix(v, level)) in d
    ensures Walk(m, d[Key(root, level, Prefix(v, level))], level, v) == Some(Leaf(m, d, root, v))
  {
    AncestorsIn(m, d, root, v, level);
    var k := Key(root, level, Prefix(v, level));
    assert Linked(m, d, k);
    if level > 1 {
      WalkToLeaf(m, d, root, v, level - 1);
      var child := Key(root, level - 1, Prefix(v, level - 1));
      assert Linked(m, d, child) && Up(child) == k;
      assert m[d[k]][PageTableIndex(v, level)] == Word(d[child], TABLE_FLAGS);
    } else {
      assert Prefix(v, 1) == v / 512 && PageTableIndex(v, 1) == v % 512;
    }
  }

  /** Where the tables for page `v` end, there is no stray entry that a walk would follow. */
  ghost predicate NoStray(m: seq<PageFrame>, d: Directory, root: nat, v: nat) {
    forall level :: 2 <= level <= LEVELS ==> StopsAt(m, d, root, v, level)
  }

  ghost predicate StopsAt(m: seq<PageFrame>, d: Directory, root: nat, v: nat, level: nat)
    requires level >= 2
  {
    var k := Key(root, level, Prefix(v, level));
    k in d && Key(root, level - 1, Prefix(v, level - 1)) !in d ==>
      d[k] < |m| && !Present(m[d[k]][PageTableIndex(v, level)])
  }

  lemma TidyHasNoStray(m: seq<PageFrame>, d: Directory, root: nat, v: nat)
    requires Tidy(m, d, root)
    ensures NoStray(m, d, root, v)
  {
    forall level | 2 <= level <= LEVELS
      ensures StopsAt(m, d, root, v, level)
    {
      var k := Key(root, level, Prefix(v, level));
      assert Down(k, PageTableIndex(v, level)) == Key(root, level - 1, Prefix(v, level - 1));
    }
  }

  /** On the way to a level-1 table no entry is stray. */
  lemma TableHasNoStray(m: seq<PageFrame>, d: Directory, root: nat, v: nat)
    requires Links(m, d) && Key(root, 1, v / 512) in d
    ensures NoStray(m, d, root, v)
  {
    assert Prefix(v, 1) == v / 512;
    forall level | 2 <= level <= LEVELS
      ensures StopsAt(m, d, root, v, level)
    {
      AncestorsIn(m, d, root, v, level - 1);
    }
  }

  /** Without a stray entry, a walk that meets no level-1 table finds nothing. */
  lemma {:induction false} WalkToNothing(m: seq<PageFrame>, d: Directory, root: nat, v: nat, level: nat)
    requires Links(m, d) && NoStray(m, d, root, v) && 1 <= level <= LEVELS
    requires Key(root, 1, Prefix(v, 1)) !in d && Key(root, level, Prefix(v, level)) in d
    ensures Walk(m, d[Key(root, level, Prefix(v, level))], level, v) == None
  {
    var k := Key(root, level, Prefix(v, level));
    assert Linked(m, d, k);
    var child := Key(root, level - 1, Prefix(v, level - 1));
    if child in d {
      WalkToNothing(m, d, root, v, level - 1);
      assert Linked(m, d, child) && Up(child) == k;
    } else {
      assert StopsAt(m, d, root, v, level);
    }
  }

  /** A walk of the tables agrees with the directory on every page, unless it is led astray. */
  lemma TranslateIsLeaf(m: seq<PageFrame>, d: Directory, root: nat, v: nat)
    requires Links(m, d) && Key(root, LEVELS, 0) in d && v < First(1, LEVELS)
    requires NoStray(m, d, root, v)
    ensures Translate(m, root, v) == if Present(Leaf(m, d, root, v)) then Some(Leaf(m, d, root, v)) else None
  {
    PrefixBelow(v, 1, LEVELS);
    assert Linked(m, d, Key(root, LEVELS, 0));
    assert Prefix(v, 1) == v / 512;
    if Key(root, 1, Prefix(v, 1)) in d {
      WalkToLeaf(m, d, root, v, LEVELS);
    } else {
      WalkToNothing(m, d, root, v, LEVELS);
    }
  }

  /** Every space in the directory has its root there. */
  lemma {:induction false} RootIn(m: seq<PageFrame>, d: Directory, k: Key)
    requires Links(m, d) && k in d
    ensures Key(k.root, LEVELS, 0) in d && d[Key(k.root, LEVELS, 0)] == k.root
    decreases LEVELS - k.level
  {
    assert Linked(m, d, k);
    if k.level < LEVELS {
      RootIn(m, d, Up(k));
    }
  }

  // --- changes to tables ------------------------------------------------------------------

  ghost predicate SameTables(m0: seq<PageFrame>, m1: seq<PageFrame>, d: Directory) {
    && |m0| == |m1|
    && forall k :: k in d && d[k] < |m1| ==> m1[d[k]] == m0[d[k]]
  }

  /** Unused entries of old tables stay what they were. */
  ghost predicate UnusedKept(m0: seq<PageFrame>, d0: Directory, m1: seq<PageFrame>, d1: Directory) {
    forall k, i :: k in d0 && k.level > 1 && 0 <= i < 512 && Down(k, i) !in d1 ==>
      k in d1 && d1[k] == d0[k] < |m0| && d1[k] < |m1| && m1[d1[k]][i] == m0[d0[k]][i]
  }

  /** Unused entries of new tables are zero. */
  ghost predicate NewZeroed(m1: seq<PageFrame>, d0: Directory, d1: Directory) {
    forall k, i :: k in d1 && k !in d0 && k.level > 1 && 0 <= i < 512 && Down(k, i) !in d1 ==>
      d1[k] < |m1| && m1[d1[k]][i] == ZERO_WORD
  }

  /** Tables are only added, and no unused entry becomes a stray one. */
  ghost predicate EntriesKept(m0: seq<PageFrame>, d0: Directory, m1: seq<PageFrame>, d1: Directory) {
    (forall k :: k in d0 ==> k in d1) && UnusedKept(m0, d0, m1, d1) && NewZeroed(m1, d0, d1)
  }

  lemma EntriesKeptTrans(m0: seq<PageFrame>, d0: Directory, m1: seq<PageFrame>, d1: Directory,
                         m2: seq<PageFrame>, d2: Directory)
    requires EntriesKept(m0, d0, m1, d1) && EntriesKept(m1, d1, m2, d2)
    ensures EntriesKept(m0, d0, m2, d2)
  {
    forall k, i | k in d0 && k.level > 1 && 0 <= i < 512 && Down(k, i) !in d2
      ensures k in d2 && d2[k] == d0[k] < |m0| && d2[k] < |m2| && m2[d2[k]][i] == m0[d0[k]][i]
    {
      assert k in d1 && Down(k, i) !in d1;
    }
    forall k, i | k in d2 && k !in d0 && k.level > 1 && 0 <= i < 512 && Down(k, i) !in d2
      ensures d2[k] < |m2| && m2[d2[k]][i] == ZERO_WORD
    {
      assert Down(k, i) !in d1;
    }
  }

  lemma StaysTidy(m0: seq<PageFrame>, d0: Directory, m1: seq<PageFrame>, d1: Directory, root: nat)
    requires EntriesKept(m0, d0, m1, d1) && Tidy(m0, d0, root)
    ensures Tidy(m1, d1, root)
  {
    forall k, i | k in d1 && k.root == root && k.level > 1 && 0 <= i < 512 && Down(k, i) !in d1
      ensures d1[k] < |m1| && m1[d1[k]][i] == ZERO_WORD
    {
      assert Down(k, i) !in d0;
    }
  }

  /** No page is led astray that was not before, provided that tables of its space which have
      been added are zeroed. */
  lemma StaysNoStray(m0: seq<PageFrame>, d0: Directory, m1: seq<PageFrame>, d1: Directory, root: nat, v: nat)
    requires UnusedKept(m0, d0, m1, d1) && NoStray(m0, d0, root, v) && forall k :: k in d0 ==> k in d1
    requires NewZeroed(m1, d0, d1) || forall k :: k in d1 && k.root == root ==> k in d0
    ensures NoStray(m1, d1, root, v)
  {
    forall level | 2 <= level <= LEVELS
      ensures StopsAt(m1, d1, root, v, level)
    {
      var k := Key(root, level, Prefix(v, level));
      assert Down(k, PageTableIndex(v, level)) == Key(root, level - 1, Prefix(v, level - 1));
      assert StopsAt(m0, d0, root, v, level);
    }
  }

  /** Every entry without a table on the way to the pages from `lo` up to `hi` is null, so that
      `map` takes a table for it. */
  ghost predicate Passable(m: seq<PageFrame>, d: Directory, root: nat, lo: nat, hi: nat) {
    forall k, i :: k in d && k.root == root && k.level > 1 && 0 <= i < 512 && Down(k, i) !in d ==>
      Visits(k.level - 1, k.prefix * 512 + i, lo, hi) ==> d[k] < |m| && m[d[k]][i].frame == 0
  }

  lemma TidyIsPassable(m: seq<PageFrame>, d: Directory, root: nat, lo: nat, hi: nat)
    requires Tidy(m, d, root)
    ensures Passable(m, d, root, lo, hi)
  {
  }

  lemma StaysPassable(m0: seq<PageFrame>, d0: Directory, m1: seq<PageFrame>, d1: Directory,
                      root: nat, lo: nat, hi: nat, lo': nat, hi': nat)
    requires EntriesKept(m0, d0, m1, d1) && Passable(m0, d0, root, lo, hi) && lo <= lo' && hi' <= hi
    ensures Passable(m1, d1, root, lo', hi')
  {
    forall k, i | k in d1 && k.root == root && k.level > 1 && 0 <= i < 512 && Down(k, i) !in d1
        && Visits(k.level - 1, k.prefix * 512 + i, lo', hi')
      ensures d1[k] < |m1| && m1[d1[k]][i].frame == 0
    {
      assert Down(k, i) !in d0;
      VisitsWiden(k.level - 1, k.prefix * 512 + i, lo', hi', lo, hi);
    }
  }

  /** Writes to frames that hold no table change nothing. */
  lemma SameTablesKeep(m0: seq<PageFrame>, m1: seq<PageFrame>, d: Directory)
    requires Links(m0, d) && SameTables(m0, m1, d)
    ensures Links(m1, d) && EntriesKept(m0, d, m1, d) && SameLeaves(m0, d, m1, d)
  {
    forall k | k in d
      ensures Linked(m1, d, k) && d[k] < |m0|
    {
      assert Linked(m0, d, k);
    }
    forall r: nat, v: nat
      ensures Leaf(m1, d, r, v) == Leaf(m0, d, r, v)
    {
    }
  }

  /** Memory after a fresh frame `f` has become the zeroed table for entry `i` of table `k`. */
  function WithTable(m: seq<PageFrame>, d: Directory, k: Key, i: nat, f: nat): seq<PageFrame>
    requires k in d && d[k] < |m| && i < 512 && f < |m|
  {
    m[d[k] := m[d[k]][i := Word(f, TABLE_FLAGS)]][f := ZeroFrame()]
  }

  ghost predicate CanAdd(m: seq<PageFrame>, d: Directory, k: Key, i: nat, f: nat) {
    && Links(m, d) && Distinct(d) && k in d && k.level > 1 && i < 512
    && Down(k, i) !in d && 0 < f < |m| && f !in d.Values
  }

  lemma AddLinks(m: seq<PageFrame>, d: Directory, k: Key, i: nat, f: nat)
    requires CanAdd(m, d, k, i, f) && Linked(m, d, k)
    ensures Links(WithTable(m, d, k, i, f), d[Down(k, i) := f]) && Distinct(d[Down(k, i) := f])
  {
    var m1, d1 := WithTable(m, d, k, i, f), d[Down(k, i) := f];
    forall j | j in d1
      ensures Linked(m1, d1, j)
    {
      if j == Down(k, i) {
        UpDown(k, i);
      } else {
        assert Linked(m, d, j) && d[j] in d.Values;
        if j.level < LEVELS {
          assert Linked(m, d, Up(j)) && d[Up(j)] in d.Values;
          if Up(j) == k {
            assert j == Down(k, j.prefix % 512);
          }
        }
      }
    }
    forall a, b | a in d1 && b in d1 && d1[a] == d1[b]
      ensures a == b
    {
      assert a in d ==> d[a] in d.Values;
      assert b in d ==> d[b] in d.Values;
    }
  }

  lemma AddEntries(m: seq<PageFrame>, d: Directory, k: Key, i: nat, f: nat)
    requires CanAdd(m, d, k, i, f) && Linked(m, d, k)
    ensures EntriesKept(m, d, WithTable(m, d, k, i, f), d[Down(k, i) := f])
  {
    var m1, d1 := WithTable(m, d, k, i, f), d[Down(k, i) := f];
    forall j, n | j in d && j.level > 1 && 0 <= n < 512 && Down(j, n) !in d1
      ensures d[j] < |m| && d1[j] == d[j] && m1[d1[j]][n] == m[d[j]][n]
    {
      assert Linked(m, d, j) && d[j] in d.Values && Down(j, n) !in d;
      if j == k {
        assert n != i;
      }
    }
  }

  lemma AddLeaves(m: seq<PageFrame>, d: Directory, k: Key, i: nat, f: nat)
    requires CanAdd(m, d, k, i, f) && Linked(m, d, k)
    ensures SameLeaves(m, d, WithTable(m, d, k, i, f), d[Down(k, i) := f])
  {
    var m1, d1 := WithTable(m, d, k, i, f), d[Down(k, i) := f];
    forall r: nat, v: nat
      ensures Leaf(m1, d1, r, v) == Leaf(m, d, r, v)
    {
      var j := Key(r, 1, v / 512);
      if j in d {
        assert Linked(m, d, j) && d[j] in d.Values && d[j] != d[k];
      }
    }
  }

  /** An empty table changes no translation. */
  lemma AddTable(m: seq<PageFrame>, d: Directory, k: Key, i: nat, f: nat)
    requires CanAdd(m, d, k, i, f)
    ensures Linked(m, d, k)
    ensures var m1, d1 := WithTable(m, d, k, i, f), d[Down(k, i) := f];
      Links(m1, d1) && Distinct(d1) && EntriesKept(m, d, m1, d1) && SameLeaves(m, d, m1, d1)
  {
    assert Linked(m, d, k);
    AddLinks(m, d, k, i, f);
    AddLeaves(m, d, k, i, f);
    AddEntries(m, d, k, i, f);
  }

  /** A fresh frame becomes the zeroed root table of a new space. */
  lemma AddRoot(m: seq<PageFrame>, d: Directory, f: nat)
    requires Links(m, d) && Distinct(d) && 0 < f < |m| && f !in d.Values
    ensures forall k :: k in d ==> k.root != f
    ensures var m1, d1 := m[f := ZeroFrame()], d[Key(f, LEVELS, 0) := f];
      && Links(m1, d1) && Distinct(d1) && Tidy(m1, d1, f)
      && EntriesKept(m, d, m1, d1) && SameLeaves(m, d, m1, d1)
  {
    var m1, d1 := m[f := ZeroFrame()], d[Key(f, LEVELS, 0) := f];
    forall k | k in d
      ensures k.root != f && d[k] != f
    {
      RootIn(m, d, k);
      assert d[Key(k.root, LEVELS, 0)] in d.Values && d[k] in d.Values;
    }
    forall k | k in d1
      ensures Linked(m1, d1, k)
    {
      assert k in d ==> Linked(m, d, k);
    }
    forall k | k in d
      ensures d1[k] == d[k] < |m|
    {
      assert Linked(m, d, k);
    }
    forall r: nat, v: nat
      ensures Leaf(m1, d1, r, v) == Leaf(m, d, r, v)
    {
    }
  }

  /** Rewriting one level-1 table changes the leaves of its pages and nothing else. */
  lemma SetRow(m: seq<PageFrame>, d: Directory, k: Key, row: PageFrame)
    requires Links(m, d) && Distinct(d) && k in d && k.level == 1 && d[k] < |m|
    ensures var m1 := m[d[k] := row];
      && Links(m1, d) && EntriesKept(m, d, m1, d)
      && forall r: nat, v: nat :: Leaf(m1, d, r, v)
           == if r == k.root && v / 512 == k.prefix then row[v % 512] else Leaf(m, d, r, v)
  {
    var m1 := m[d[k] := row];
    forall j | j in d
      ensures Linked(m1, d, j) && (j.level > 1 ==> m1[d[j]] == m[d[j]])
    {
      assert Linked(m, d, j);
    }
    forall r: nat, v: nat
      ensures Leaf(m1, d, r, v)
        == if r == k.root && v / 512 == k.prefix then row[v % 512] else Leaf(m, d, r, v)
    {
    }
  }

  // --- which tables a range of pages needs --------------------------------------------------

  ghost predicate Visits(level: nat, prefix: nat, lo: nat, hi: nat) {
    exists v :: lo <= v < hi && Prefix(v, level) == prefix
  }

  /** Table `k` lies below level `level` and covers one of the pages from `lo` up to `hi`. */
  ghost predicate Wanted(k: Key, root: nat, level: nat, lo: nat, hi: nat) {
    k.root == root && 1 <= k.level < level && Visits(k.level, k.prefix, lo, hi)
  }

  /** The directory grows by wanted tables only. */
  ghost predicate Grows(d0: Directory, d1: Directory, root: nat, level: nat, lo: nat, hi: nat) {
    && (forall k :: k in d0 ==> k in d1 && d1[k] == d0[k])
    && (forall k :: k in d1 && k !in d0 ==> Wanted(k, root, level, lo, hi))
  }

  ghost predicate HasWanted(d: Directory, root: nat, level: nat, lo: nat, hi: nat) {
    forall k :: Wanted(k, root, level, lo, hi) ==> k in d
  }

  lemma VisitsWiden(level: nat, prefix: nat, lo: nat, hi: nat, lo': nat, hi': nat)
    requires Visits(level, prefix, lo, hi) && lo' <= lo && hi <= hi'
    ensures Visits(level, prefix, lo', hi')
  {
    var v :| lo <= v < hi && Prefix(v, level) == prefix;
    assert lo' <= v < hi';
  }

  lemma VisitsSplit(level: nat, prefix: nat, lo: nat, mid: nat, hi: nat)
    requires Visits(level, prefix, lo, hi)
    ensures Visits(level, prefix, lo, mid) || Visits(level, prefix, mid, hi)
  {
    var v :| lo <= v < hi && Prefix(v, level) == prefix;
    assert lo <= v < mid || mid <= v < hi;
  }

  // --- what `map` writes --------------------------------------------------------------------

  /** Where the level-1 loop ends, counted from the first entry it writes. The index there
      restarts at 0, but as written it is compared with a bound that counts from the start of
      the table (os/kernel/src/memory/virtual.rs:159-172). */
  function Bound(code: Code, start: nat, count: nat): nat {
    var index := start % 512;
    var allocCount := Min(count, 512 - index);
    if code.AsWritten? then index + allocCount else allocCount
  }

  /** The first page that the level-1 loop does not write any more. */
  function LeafEnd(code: Code, start: nat, count: nat): nat {
    start + Min(Bound(code, start, count), 512 - start % 512)
  }

  /** The leaves after `map` has placed pages. */
  ghost predicate LeavesSet(m0: seq<PageFrame>, d0: Directory, m1: seq<PageFrame>, d1: Directory,
                            root: nat, placed: map<nat, nat>, flags: nat) {
    && (forall v: nat :: v in placed ==> Key(root, 1, v / 512) in d1)
    && (forall r: nat, v: nat ::
          Leaf(m1, d1, r, v) == if r == root && v in placed then Word(placed[v], flags) else Leaf(m0, d0, r, v))
  }
}
