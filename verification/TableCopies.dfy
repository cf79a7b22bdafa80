/** What `copy_table` does to the tables (os/kernel/src/memory/virtual.rs:103-125). */
module TableCopies {
  import opened Ranges
  import opened PhysMemory
  import opened PageTables
  import opened PagingSteps
  import opened TableOrder
  import BlockLists
  import FramePool

  /** The key of the corresponding table in another space. */
  function InSpace(k: Key, root: nat): Key {
    Key(root, k.level, k.prefix)
  }

  /** The new tables are those that the source has below the entries copied so far. */
  ghost predicate KeysCopied(d0: Directory, d1: Directory, sroot: nat, troot: nat, level: nat, lo: nat, hi: nat) {
    && (forall k :: k in d1 <==> k in d0 || (k.root == troot && In(k, level, lo, hi) && InSpace(k, sroot) in d0))
    && (forall k :: k in d0 ==> k in d1 && d1[k] == d0[k])
  }

  /** The pages below the entries copied so far have the leaves of the source. */
  ghost predicate LeavesCopied(s0: State, s1: State, sroot: nat, troot: nat, level: nat, lo: nat, hi: nat)
    requires level >= 1
  {
    forall r: nat, v: nat :: Leaf(s1.m, s1.d, r, v)
      == Leaf(s0.m, s0.d, if r == troot && lo <= Prefix(v, level - 1) < hi then sroot else r, v)
  }

  /** Of the old tables, only the target has changed, and it only where it has got a table.
      Frames that hold no table keep all but their first two words. */
  ghost predicate OthersKept(s0: State, s1: State, tkey: Key)
    requires tkey.level >= 1
  {
    && |s1.m| == |s0.m|
    && (forall k :: k in s0.d && k in s1.d && s0.d[k] < |s0.m| && k != tkey ==> s1.m[s0.d[k]] == s0.m[s0.d[k]])
    && (tkey in s0.d && s0.d[tkey] < |s0.m| && tkey.level > 1 ==>
          forall i :: 0 <= i < 512 && Down(tkey, i) !in s1.d ==> s1.m[s0.d[tkey]][i] == s0.m[s0.d[tkey]][i])
    && (forall g, i :: 0 <= g < |s0.m| && g !in s1.d.Values && 2 <= i < 512 ==> s1.m[g][i] == s0.m[g][i])
  }

  /** What an entry of a table reads that was never written since the table was taken. As
      written, that is what the frame held when it left the free list: the count of the block
      that it began then, a null link, and then whatever it held before. */
  ghost predicate StaleEntry(code: Code, s0: State, s1: State, f: nat, i: nat)
    requires f < |s0.m| && f < |s1.m| && i < 512
  {
    if code.Intended? then s1.m[f][i] == ZERO_WORD
    else if i == 0 then s1.m[f][0] == CountWord(RunFrom(s0.kernel, f))
    else if i == 1 then s1.m[f][1] == ZERO_WORD
    else s1.m[f][i] == s0.m[f][i]
  }

  /** Where no table hangs below an entry of a new table, the entry is stale. */
  ghost predicate NewAreStale(code: Code, s0: State, s1: State) {
    forall k, i :: k in s1.d && k !in s0.d && k.level > 1 && 0 <= i < 512 && Down(k, i) !in s1.d
      ==> s1.d[k] < |s0.m| && s1.d[k] < |s1.m| && StaleEntry(code, s0, s1, s1.d[k], i)
  }

  ghost predicate NewFromList(s0: State, s1: State) {
    forall k :: k in s1.d && k !in s0.d ==> s1.d[k] in Frames(s0.kernel)
  }

  /** The kernel list holds frames that it held before, in blocks that end as before. */
  ghost predicate KernelRunsKept(s0: State, s1: State) {
    && (forall f: nat :: f in Frames(s1.kernel) ==> f in Frames(s0.kernel))
    && BlockLists.RunsKept(s0.kernel, s1.kernel)
  }

  ghost predicate CountKept(s0: State, s1: State) {
    && |s1.d| + Total(s1.kernel) == |s0.d| + Total(s0.kernel)
    && Shrinks(s0.kernel, s1.kernel) && s1.user == s0.user
    && KernelRunsKept(s0, s1)
  }

  /** The tables below the entries before `hi`. */
  function ListedTo(d: Directory, k: Key, hi: nat): seq<Key> {
    if hi <= k.prefix * 512 then [] else Listed(d, k, hi - k.prefix * 512)
  }

  /** The tables of the list have got the first frames of the kernel list, in this order. */
  ghost predicate FramesUsed(s0: State, s1: State, list: seq<Key>, troot: nat) {
    && |list| <= |Frames(s0.kernel)| && Frames(s1.kernel) == Frames(s0.kernel)[|list|..]
    && forall j :: 0 <= j < |list| ==>
      InSpace(list[j], troot) in s1.d && s1.d[InSpace(list[j], troot)] == Frames(s0.kernel)[j]
  }

  ghost predicate Copied(code: Code, s0: State, s1: State, sroot: nat, tkey: Key, hi: nat)
    requires tkey.level >= 1
  {
    && tkey.prefix * 512 <= hi
    && KeysCopied(s0.d, s1.d, sroot, tkey.root, tkey.level, tkey.prefix * 512, hi)
    && LeavesCopied(s0, s1, sroot, tkey.root, tkey.level, tkey.prefix * 512, hi)
    && OthersKept(s0, s1, tkey)
    && NewAreStale(code, s0, s1)
    && NewFromList(s0, s1)
    && CountKept(s0, s1)
    && FramesUsed(s0, s1, ListedTo(s0.d, InSpace(tkey, sroot), hi), tkey.root)
  }

  /** No table of the target space below the entries to be copied. */
  ghost predicate NoneIn(d: Directory, troot: nat, level: nat, lo: nat, hi: nat) {
    forall k :: k in d && k.root == troot ==> !In(k, level, lo, hi)
  }

  ghost predicate CanCopy(s: State, skey: Key, tkey: Key) {
    && TablesOk(s) && skey in s.d && tkey in s.d && skey.root != tkey.root
    && skey.level == tkey.level >= 1 && skey.prefix == tkey.prefix
    && Tidy(s.m, s.d, skey.root)
    && NoneIn(s.d, tkey.root, tkey.level, tkey.prefix * 512, tkey.prefix * 512 + 512)
  }

  lemma NothingCopied(code: Code, s: State, sroot: nat, tkey: Key)
    requires tkey.level >= 1
    ensures Copied(code, s, s, sroot, tkey, tkey.prefix * 512)
  {
  }

  // --- unused entries -----------------------------------------------------------------------

  lemma NoLeafIn(d: Directory, root: nat, level: nat, lo: nat, hi: nat, v: nat)
    requires NoneIn(d, root, level, lo, hi) && level > 1 && lo <= Prefix(v, level - 1) < hi
    ensures Key(root, 1, v / 512) !in d
  {
    PrefixCompose(v, 1, level - 2);
    assert Prefix(v, 1) == v / 512;
    assert In(Key(root, 1, v / 512), level, lo, hi);
  }

  lemma SkipKeys(d0: Directory, d1: Directory, sroot: nat, troot: nat, level: nat, lo: nat, c: nat)
    requires KeysCopied(d0, d1, sroot, troot, level, lo, c) && lo <= c
    requires forall k :: k in d0 && k.root == sroot ==> !In(k, level, c, c + 1)
    ensures KeysCopied(d0, d1, sroot, troot, level, lo, c + 1)
  {
    forall k: Key | k.root == troot && In(k, level, lo, c + 1) && InSpace(k, sroot) in d0
      ensures In(k, level, lo, c)
    {
      assert !In(InSpace(k, sroot), level, c, c + 1);
    }
  }

  /** An unused entry of the source needs nothing to be copied. */
  lemma SkipEntry(code: Code, s0: State, s1: State, skey: Key, tkey: Key, c: nat)
    requires CanCopy(s0, skey, tkey) && tkey.level > 1 && tkey.level <= LEVELS
    requires tkey.prefix * 512 <= c < tkey.prefix * 512 + 512
    requires Copied(code, s0, s1, skey.root, tkey, c)
    requires Key(skey.root, skey.level - 1, c) !in s0.d
    ensures Copied(code, s0, s1, skey.root, tkey, c + 1)
  {
    var lo := tkey.prefix * 512;
    CopyRoots(s0, skey, tkey);
    CopyRoom(s0, skey, tkey);
    TablesLinked(s0);
    CopiedParts(code, s0, s1, skey.root, tkey, c);
    SkipListed(s0.d, skey, c);
    hide Copied, KeysCopied, LeavesCopied, OthersKept, NewAreStale, CountKept;
    hide FramesUsed, TablesOk, Tidy, NoneIn, In, Links, CanCopy, ListedTo;
    NoneBelowEntry(s0.m, s0.d, skey.root, tkey.level, c);
    SkipKeys(s0.d, s1.d, skey.root, tkey.root, tkey.level, lo, c);
    SkipLeaves(s0, s1, skey.root, tkey.root, tkey.level, lo, c);
    assert InSpace(tkey, skey.root) == skey;
    CopiedFrom(code, s0, s1, skey.root, tkey, c + 1);
  }

  lemma CopyRoom(s: State, skey: Key, tkey: Key)
    requires CanCopy(s, skey, tkey)
    ensures NoneIn(s.d, tkey.root, tkey.level, tkey.prefix * 512, tkey.prefix * 512 + 512)
  {
  }

  lemma SkipListed(d: Directory, k: Key, c: nat)
    requires k.level > 1 && k.prefix * 512 <= c && Key(k.root, k.level - 1, c) !in d
    ensures ListedTo(d, k, c + 1) == ListedTo(d, k, c)
  {
    var n := c - k.prefix * 512;
    assert Down(k, n) == Key(k.root, k.level - 1, c);
    ListedNext(d, k, n);
    assert n == 0 ==> Listed(d, k, n) == [];
  }

  lemma SkipLeaves(s0: State, s1: State, sroot: nat, troot: nat, level: nat, lo: nat, c: nat)
    requires level > 1 && LeavesCopied(s0, s1, sroot, troot, level, lo, c) && lo <= c < lo + 512
    requires forall v: nat :: Prefix(v, level - 1) == c ==> Key(sroot, 1, v / 512) !in s0.d
    requires NoneIn(s0.d, troot, level, lo, lo + 512)
    ensures LeavesCopied(s0, s1, sroot, troot, level, lo, c + 1)
  {
    forall r: nat, v: nat
      ensures Leaf(s1.m, s1.d, r, v)
        == Leaf(s0.m, s0.d, if r == troot && lo <= Prefix(v, level - 1) < c + 1 then sroot else r, v)
    {
      if r == troot && Prefix(v, level - 1) == c {
        NoLeafIn(s0.d, troot, level, lo, lo + 512, v);
      }
    }
  }

  // --- used entries -------------------------------------------------------------------------

  /** Memory after entry `i` of table `k` has got a frame, which as written is not zeroed. */
  function WithEntry(code: Code, m: seq<PageFrame>, d: Directory, k: Key, i: nat, f: nat): seq<PageFrame>
    requires k in d && d[k] < |m| && i < 512 && f < |m|
  {
    var m1 := m[d[k] := m[d[k]][i := Word(f, TABLE_FLAGS)]];
    if code.Intended? then m1[f := ZeroFrame()] else m1
  }

  /** The tables after a fresh frame has been linked in below entry `c` of the target. */
  ghost predicate LinkedIn(code: Code, s: State, s1: State, tkey: Key, c: nat, f: nat)
    requires tkey.level > 1
  {
    && s1.d == s.d[Key(tkey.root, tkey.level - 1, c) := f]
    && |s1.m| == |s.m|
    && (forall k :: k in s.d && s.d[k] < |s.m| && k != tkey ==> s1.m[s.d[k]] == s.m[s.d[k]])
    && (tkey in s.d && s.d[tkey] < |s.m| ==>
          forall i :: 0 <= i < 512 && Down(tkey, i) !in s1.d ==> s1.m[s.d[tkey]][i] == s.m[s.d[tkey]][i])
    && (forall g, i :: 0 <= g < |s.m| && g !in s1.d.Values && 2 <= i < 512 ==> s1.m[g][i] == s.m[g][i])
    && f < |s.m| && f !in s.d.Values
    && (code.AsWritten? ==> s1.m[f][0] == CountWord(RunFrom(s.kernel, f)) && s1.m[f][1] == ZERO_WORD)
    && (code.AsWritten? ==> forall i :: 2 <= i < 512 ==> s1.m[f][i] == s.m[f][i])
    && (code.Intended? ==> s1.m[f] == ZeroFrame())
    && Frames(s.kernel) == [f] + Frames(s1.kernel) && BlockLists.RunsKept(s.kernel, s1.kernel)
  }

  lemma LinkEntry(code: Code, s: State, s1: State, tkey: Key, i: nat, f: nat)
    requires TablesOk(s) && TablesOk(s1) && Taken(s, s1, FramePool.Kernel, f) && f != 0
    requires tkey in s.d && tkey.level > 1 && i < 512 && Down(tkey, i) !in s.d
    ensures Linked(s1.m, s1.d, tkey) && Writable(s1, s.d[tkey]) && Writable(s1, f) && s1.d == s.d
    ensures var s2 := State(WithEntry(code, s1.m, s1.d, tkey, i, f), s1.d[Down(tkey, i) := f], s1.kernel, s1.user);
      TablesOk(s2) && LinkedIn(code, s, s2, tkey, tkey.prefix * 512 + i, f) && CountKept(s, s2)
  {
    assert Linked(s1.m, s1.d, tkey);
    LinkEntryLinks(code, s1.m, s1.d, tkey, i, f);
    LinkEntryFrames(code, s, s1, tkey, i, f);
    LinkEntryCount(s, s1, Down(tkey, i), f);
  }

  lemma LinkEntryCount(s: State, s1: State, k: Key, f: nat)
    requires Taken(s, s1, FramePool.Kernel, f) && f != 0 && k !in s.d
    ensures CountKept(s, s1.(d := s1.d[k := f]))
  {
    var d2 := s1.d[k := f];
    assert d2.Keys == s.d.Keys + {k};
    assert |d2.Keys| == |s.d.Keys| + 1;
  }

  lemma LinkEntryFrames(code: Code, s: State, s1: State, tkey: Key, i: nat, f: nat)
    requires Links(s.m, s.d) && Distinct(s.d) && Taken(s, s1, FramePool.Kernel, f) && f != 0
    requires tkey in s.d && tkey.level > 1 && i < 512 && Down(tkey, i) !in s.d && s.d[tkey] < |s1.m|
    ensures var s2 := State(WithEntry(code, s1.m, s1.d, tkey, i, f), s1.d[Down(tkey, i) := f], s1.kernel, s1.user);
      LinkedIn(code, s, s2, tkey, tkey.prefix * 512 + i, f)
  {
    hide WithEntry, Links, Distinct, Frames, RunFrom, BlockLists.RunsKept;
    EntryWritten(code, s1.m, s1.d, tkey, i, f);
  }

  lemma EntryWritten(code: Code, m: seq<PageFrame>, d: Directory, k: Key, i: nat, f: nat)
    requires Distinct(d) && k in d && k.level > 1 && i < 512 && Down(k, i) !in d && d[k] < |m|
    requires f < |m| && f !in d.Values
    ensures var m2, d2 := WithEntry(code, m, d, k, i, f), d[Down(k, i) := f];
      && |m2| == |m|
      && (forall j :: j in d && d[j] < |m| && j != k ==> m2[d[j]] == m[d[j]])
      && (forall n :: 0 <= n < 512 && Down(k, n) !in d2 ==> m2[d[k]][n] == m[d[k]][n])
      && (forall g :: 0 <= g < |m| && g !in d2.Values ==> m2[g] == m[g])
      && m2[f] == if code.AsWritten? then m[f] else ZeroFrame()
  {
    var m2, d2 := WithEntry(code, m, d, k, i, f), d[Down(k, i) := f];
    assert d[k] in d.Values;
    forall j | j in d && d[j] < |m| && j != k
      ensures m2[d[j]] == m[d[j]]
    {
      assert d[j] != d[k] && d[j] in d.Values;
    }
    forall n | 0 <= n < 512 && Down(k, n) !in d2
      ensures m2[d[k]][n] == m[d[k]][n]
    {
      assert n != i;
    }
    assert d2[Down(k, i)] == f && d[k] == d2[k];
  }

  lemma LinkEntryLinks(code: Code, m: seq<PageFrame>, d: Directory, k: Key, i: nat, f: nat)
    requires CanAdd(m, d, k, i, f) && Linked(m, d, k)
    ensures Links(WithEntry(code, m, d, k, i, f), d[Down(k, i) := f]) && Distinct(d[Down(k, i) := f])
  {
    var m1, d1 := WithEntry(code, m, d, k, i, f), d[Down(k, i) := f];
    forall j | j in d1
      ensures Linked(m1, d1, j)
    {
      if j == Down(k, i) {
        UpDown(k, i);
      } else {
        assert Linked(m, d, j);
        if j.level < LEVELS {
          assert Linked(m, d, Up(j));
          if Up(j) == k {
            assert j == Down(k, j.prefix % 512);
          }
        }
      }
    }
    forall a, b | a in d1 && b in d1 && d1[a] == d1[b]
      ensures a == b
    {
      assert a in d ==> d[a] in d.Values;
      assert b in d ==> d[b] in d.Values;
    }
  }

  lemma JoinKeys(d0: Directory, d: Directory, d1: Directory, d2: Directory, sroot: nat, troot: nat,
                 level: nat, lo: nat, c: nat, f: nat)
    requires sroot != troot && level > 1 && lo <= c && Key(sroot, level - 1, c) in d0
    requires KeysCopied(d0, d, sroot, troot, level, lo, c)
    requires d1 == d[Key(troot, level - 1, c) := f] && Key(troot, level - 1, c) !in d
    requires KeysCopied(d1, d2, sroot, troot, level - 1, c * 512, c * 512 + 512)
    ensures KeysCopied(d0, d2, sroot, troot, level, lo, c + 1)
  {
    forall k: Key
      ensures k in d2 <==> k in d0 || (k.root == troot && In(k, level, lo, c + 1) && InSpace(k, sroot) in d0)
    {
      InSplit(k, level, lo, c);
      assert InSpace(k, sroot) in d1 <==> InSpace(k, sroot) in d0;
    }
  }

  /** Linking a table in below entry `c` can only change the leaves of pages below it. */
  lemma LinkedInLeaves(code: Code, s: State, s1: State, tkey: Key, c: nat, f: nat, r: nat, v: nat)
    requires tkey.level > 1 && LinkedIn(code, s, s1, tkey, c, f) && Links(s.m, s.d) && tkey in s.d
    ensures (r == tkey.root && Prefix(v, tkey.level - 1) == c) || Leaf(s1.m, s1.d, r, v) == Leaf(s.m, s.d, r, v)
  {
    var k := Key(r, 1, v / 512);
    if k in s.d {
      assert Linked(s.m, s.d, k);
      assert k != Key(tkey.root, tkey.level - 1, c) || Prefix(v, 1) == c;
    } else if k == Key(tkey.root, tkey.level - 1, c) {
      assert Prefix(v, 1) == v / 512;
    }
  }

  lemma JoinLeaves(code: Code, s0: State, s: State, s1: State, s2: State, sroot: nat, tkey: Key, c: nat, f: nat)
    requires tkey.level > 1 && tkey.prefix * 512 <= c && sroot != tkey.root
    requires LeavesCopied(s0, s, sroot, tkey.root, tkey.level, tkey.prefix * 512, c)
    requires LinkedIn(code, s, s1, tkey, c, f) && TablesOk(s)
    requires tkey in s.d && Key(tkey.root, tkey.level - 1, c) !in s.d
    requires LeavesCopied(s1, s2, sroot, tkey.root, tkey.level - 1, c * 512, c * 512 + 512)
    ensures LeavesCopied(s0, s2, sroot, tkey.root, tkey.level, tkey.prefix * 512, c + 1)
  {
    var level, troot, lo := tkey.level, tkey.root, tkey.prefix * 512;
    forall r: nat, v: nat
      ensures Leaf(s2.m, s2.d, r, v)
        == Leaf(s0.m, s0.d, if r == troot && lo <= Prefix(v, level - 1) < c + 1 then sroot else r, v)
    {
      assert Prefix(v, level - 1) == Prefix(v, level - 2) / 512;
      LinkedInLeaves(code, s, s1, tkey, c, f, r, v);
      LinkedInLeaves(code, s, s1, tkey, c, f, sroot, v);
      assert Leaf(s2.m, s2.d, r, v)
        == Leaf(s1.m, s1.d, if r == troot && Prefix(v, level - 1) == c then sroot else r, v);
      assert Leaf(s.m, s.d, sroot, v) == Leaf(s0.m, s0.d, sroot, v);
    }
  }

  /** Keys and values only ever get added. */
  ghost predicate Extends(d0: Directory, d1: Directory) {
    forall k :: k in d0 ==> k in d1 && d1[k] == d0[k]
  }

  lemma ExtendsValues(d0: Directory, d1: Directory)
    requires Extends(d0, d1)
    ensures d0.Values <= d1.Values
  {
    forall f | f in d0.Values
      ensures f in d1.Values
    {
      var k :| k in d0 && d0[k] == f;
      assert d1[k] == f;
    }
  }

  lemma JoinOthers(code: Code, s0: State, s: State, s1: State, s2: State, tkey: Key, c: nat, f: nat)
    requires tkey.level > 1 && TablesOk(s0) && tkey in s0.d
    requires OthersKept(s0, s, tkey) && LinkedIn(code, s, s1, tkey, c, f)
    requires OthersKept(s1, s2, Key(tkey.root, tkey.level - 1, c))
    requires Extends(s0.d, s.d) && Extends(s.d, s1.d) && Extends(s1.d, s2.d)
    requires Key(tkey.root, tkey.level - 1, c) !in s.d
    ensures OthersKept(s0, s2, tkey)
  {
    var child := Key(tkey.root, tkey.level - 1, c);
    ExtendsValues(s.d, s1.d);
    ExtendsValues(s1.d, s2.d);
    assert Linked(s0.m, s0.d, tkey);
    forall k | k in s0.d && s0.d[k] < |s0.m| && k != tkey
      ensures s2.m[s0.d[k]] == s0.m[s0.d[k]]
    {
      assert k != child && s.d[k] == s0.d[k] && s1.d[k] == s0.d[k];
    }
    forall i | 0 <= i < 512 && Down(tkey, i) !in s2.d
      ensures s2.m[s0.d[tkey]][i] == s0.m[s0.d[tkey]][i]
    {
      assert tkey != child && Down(tkey, i) !in s1.d && Down(tkey, i) !in s.d;
      assert s2.m[s1.d[tkey]] == s1.m[s1.d[tkey]];
    }
  }

  lemma StaleBefore(code: Code, s0: State, s: State, s1: State, s2: State, tkey: Key, c: nat, f: nat, k: Key, i: nat)
    requires tkey.level > 1 && k in s.d && k != tkey && k != Key(tkey.root, tkey.level - 1, c) && i < 512
    requires LinkedIn(code, s, s1, tkey, c, f) && OthersKept(s1, s2, Key(tkey.root, tkey.level - 1, c))
    requires Extends(s.d, s1.d) && Extends(s1.d, s2.d) && |s.m| == |s0.m|
    requires s.d[k] < |s.m| && StaleEntry(code, s0, s, s.d[k], i)
    ensures |s2.m| == |s0.m| && s2.d[k] == s.d[k] && StaleEntry(code, s0, s2, s2.d[k], i)
  {
    assert s1.d[k] == s.d[k] && s2.m[s.d[k]] == s1.m[s.d[k]] == s.m[s.d[k]];
  }

  lemma StaleLinked(code: Code, s0: State, s: State, s1: State, s2: State, tkey: Key, c: nat, f: nat, i: nat)
    requires tkey.level > 2 && i < 512 && Down(Key(tkey.root, tkey.level - 1, c), i) !in s2.d
    requires OthersKept(s0, s, tkey) && LinkedIn(code, s, s1, tkey, c, f)
    requires OthersKept(s1, s2, Key(tkey.root, tkey.level - 1, c)) && KernelRunsKept(s0, s)
    ensures |s2.m| == |s0.m| && f < |s0.m| && StaleEntry(code, s0, s2, f, i)
  {
    assert s1.d[Key(tkey.root, tkey.level - 1, c)] == f;
    assert s2.m[f][i] == s1.m[f][i];
    assert f in Frames(s.kernel);
    hide RunFrom, Frames;
  }

  lemma StaleBelow(code: Code, s0: State, s: State, s1: State, s2: State, tkey: Key, c: nat, f: nat, g: nat, i: nat)
    requires tkey.level > 1 && i < 512 && g < |s1.m| && g !in s1.d.Values && g !in s.d.Values
    requires OthersKept(s0, s, tkey) && LinkedIn(code, s, s1, tkey, c, f)
    requires KernelRunsKept(s0, s) && KernelRunsKept(s, s1) && g in Frames(s1.kernel)
    requires |s2.m| == |s1.m| && StaleEntry(code, s1, s2, g, i)
    ensures |s2.m| == |s0.m| && StaleEntry(code, s0, s2, g, i)
  {
    hide RunFrom, Frames;
  }

  lemma OneStale(code: Code, s0: State, s: State, s1: State, s2: State, tkey: Key, c: nat, f: nat, k: Key, i: nat)
    requires tkey.level > 1 && tkey in s0.d && TablesOk(s) && TablesOk(s2)
    requires |s.m| == |s0.m| && |s1.m| == |s.m| && |s2.m| == |s1.m|
    requires NewAreStale(code, s0, s) && NewAreStale(code, s1, s2) && NewFromList(s1, s2)
    requires KernelRunsKept(s0, s) && KernelRunsKept(s, s1)
    requires OthersKept(s0, s, tkey) && LinkedIn(code, s, s1, tkey, c, f)
    requires OthersKept(s1, s2, Key(tkey.root, tkey.level - 1, c))
    requires Extends(s0.d, s.d) && Extends(s.d, s1.d) && Extends(s1.d, s2.d)
    requires Key(tkey.root, tkey.level - 1, c) !in s.d && s1.d == s.d[Key(tkey.root, tkey.level - 1, c) := f]
    requires k in s2.d && k !in s0.d && k.level > 1 && i < 512 && Down(k, i) !in s2.d
    ensures s2.d[k] < |s0.m| && s2.d[k] < |s2.m| && StaleEntry(code, s0, s2, s2.d[k], i)
  {
    hide OthersKept, LinkedIn, StaleEntry, KernelRunsKept, Frames;
    assert Linked(s2.m, s2.d, k);
    NewTableAt(s.d, s1.d, s2, k);
    hide TablesOk;
    if k in s.d {
      assert Down(k, i) !in s.d;
      StaleBefore(code, s0, s, s1, s2, tkey, c, f, k, i);
    } else if k == Key(tkey.root, tkey.level - 1, c) {
      assert s2.d[k] == s1.d[k] == f;
      StaleLinked(code, s0, s, s1, s2, tkey, c, f, i);
    } else {
      StaleBelow(code, s0, s, s1, s2, tkey, c, f, s2.d[k], i);
    }
  }

  lemma JoinStale(code: Code, s0: State, s: State, s1: State, s2: State, tkey: Key, c: nat, f: nat)
    requires tkey.level > 1 && tkey in s0.d && TablesOk(s) && TablesOk(s2)
    requires |s.m| == |s0.m| && |s1.m| == |s.m| && |s2.m| == |s1.m|
    requires NewAreStale(code, s0, s) && NewAreStale(code, s1, s2) && NewFromList(s1, s2)
    requires KernelRunsKept(s0, s) && KernelRunsKept(s, s1)
    requires OthersKept(s0, s, tkey) && LinkedIn(code, s, s1, tkey, c, f)
    requires OthersKept(s1, s2, Key(tkey.root, tkey.level - 1, c))
    requires Extends(s0.d, s.d) && Extends(s.d, s1.d) && Extends(s1.d, s2.d)
    requires Key(tkey.root, tkey.level - 1, c) !in s.d && s1.d == s.d[Key(tkey.root, tkey.level - 1, c) := f]
    ensures NewAreStale(code, s0, s2)
  {
    hide OthersKept, LinkedIn, StaleEntry, KernelRunsKept, Frames, TablesOk, Extends, NewFromList;
    forall k, i | k in s2.d && k !in s0.d && k.level > 1 && 0 <= i < 512 && Down(k, i) !in s2.d
      ensures s2.d[k] < |s0.m| && s2.d[k] < |s2.m| && StaleEntry(code, s0, s2, s2.d[k], i)
    {
      OneStale(code, s0, s, s1, s2, tkey, c, f, k, i);
    }
  }

  lemma JoinFromList(code: Code, s0: State, s: State, s1: State, s2: State, tkey: Key, c: nat, f: nat)
    requires tkey.level > 1 && LinkedIn(code, s, s1, tkey, c, f)
    requires s1.d == s.d[Key(tkey.root, tkey.level - 1, c) := f] && Extends(s1.d, s2.d)
    requires NewFromList(s0, s) && NewFromList(s1, s2) && KernelRunsKept(s0, s) && KernelRunsKept(s, s1)
    requires Extends(s0.d, s.d) && Extends(s.d, s1.d)
    ensures NewFromList(s0, s2)
  {
    LinkedFrame(code, s, s1, tkey, c, f);
    assert f in Frames(s.kernel);
    hide LinkedIn, Frames;
  }

  lemma NewTableAt(d: Directory, d1: Directory, s2: State, k: Key)
    requires TablesOk(s2) && k in s2.d && Extends(d, d1) && Extends(d1, s2.d)
    ensures k !in d ==> s2.d[k] !in d.Values
    ensures k !in d1 ==> s2.d[k] !in d1.Values
  {
    if k !in d {
      NotYetUsed(d, s2.d, k);
    }
    if k !in d1 {
      NotYetUsed(d1, s2.d, k);
    }
  }

  /** The frame of a new table held no table before. */
  lemma NotYetUsed(d: Directory, d2: Directory, k: Key)
    requires Extends(d, d2) && Distinct(d2) && k in d2 && k !in d
    ensures d2[k] !in d.Values
  {
  }

  /** One used entry is copied: the entries before `c` are done in `s`, a frame is linked in, and
      the tables below are copied to it. */
  ghost predicate Joins(code: Code, s0: State, s: State, s1: State, s2: State, skey: Key, tkey: Key, c: nat, f: nat) {
    && CanCopy(s0, skey, tkey) && tkey.level > 1 && TablesOk(s) && TablesOk(s1) && TablesOk(s2)
    && tkey.prefix * 512 <= c < tkey.prefix * 512 + 512
    && Copied(code, s0, s, skey.root, tkey, c) && Key(skey.root, skey.level - 1, c) in s0.d
    && Key(tkey.root, tkey.level - 1, c) !in s.d
    && LinkedIn(code, s, s1, tkey, c, f) && CountKept(s, s1)
    && Copied(code, s1, s2, skey.root, Key(tkey.root, tkey.level - 1, c), c * 512 + 512)
  }

  lemma JoinedTables(code: Code, s0: State, s: State, s1: State, s2: State, skey: Key, tkey: Key, c: nat, f: nat)
    requires Joins(code, s0, s, s1, s2, skey, tkey, c, f)
    ensures KeysCopied(s0.d, s2.d, skey.root, tkey.root, tkey.level, tkey.prefix * 512, c + 1)
    ensures LeavesCopied(s0, s2, skey.root, tkey.root, tkey.level, tkey.prefix * 512, c + 1)
  {
    hide Copied, KeysCopied, LeavesCopied, OthersKept, NewAreStale, LinkedIn;
    hide TablesOk, Extends, FramesUsed, CountKept, CanCopy, Listed, ListedTo;
    var child := Key(tkey.root, tkey.level - 1, c);
    CopiedParts(code, s0, s, skey.root, tkey, c);
    CopiedParts(code, s1, s2, skey.root, child, c * 512 + 512);
    LinkedInParts(code, s, s1, tkey, c, f);
    CopyRoots(s0, skey, tkey);
    JoinKeys(s0.d, s.d, s1.d, s2.d, skey.root, tkey.root, tkey.level, tkey.prefix * 512, c, f);
    JoinLeaves(code, s0, s, s1, s2, skey.root, tkey, c, f);
  }

  lemma JoinedMemory(code: Code, s0: State, s: State, s1: State, s2: State, skey: Key, tkey: Key, c: nat, f: nat)
    requires Joins(code, s0, s, s1, s2, skey, tkey, c, f)
    ensures OthersKept(s0, s2, tkey) && NewAreStale(code, s0, s2) && NewFromList(s0, s2)
  {
    CountParts(s, s1);
    hide Copied, KeysCopied, LeavesCopied, OthersKept, NewAreStale, LinkedIn, TablesOk, Extends, FramesUsed, CountKept;
    hide CanCopy, Listed, ListedTo, NewFromList, KernelRunsKept;
    var child := Key(tkey.root, tkey.level - 1, c);
    CopiedParts(code, s0, s, skey.root, tkey, c);
    CopiedParts(code, s1, s2, skey.root, child, c * 512 + 512);
    LinkedInParts(code, s, s1, tkey, c, f);
    CopyRoots(s0, skey, tkey);
    JoinOthers(code, s0, s, s1, s2, tkey, c, f);
    CountParts(s0, s);
    JoinStale(code, s0, s, s1, s2, tkey, c, f);
    JoinFromList(code, s0, s, s1, s2, tkey, c, f);
  }

  lemma CountParts(s0: State, s1: State)
    requires CountKept(s0, s1)
    ensures KernelRunsKept(s0, s1)
  {
  }

  lemma JoinedFrames(code: Code, s0: State, s: State, s1: State, s2: State, skey: Key, tkey: Key, c: nat, f: nat)
    requires Joins(code, s0, s, s1, s2, skey, tkey, c, f)
    ensures CountKept(s0, s2) && FramesUsed(s0, s2, ListedTo(s0.d, InSpace(tkey, skey.root), c + 1), tkey.root)
  {
    hide Copied, KeysCopied, LeavesCopied, OthersKept, NewAreStale, LinkedIn;
    hide TablesOk, Extends, FramesUsed, CountKept, CanCopy, Listed, ListedTo;
    var child := Key(tkey.root, tkey.level - 1, c);
    CopiedParts(code, s0, s, skey.root, tkey, c);
    CopiedParts(code, s1, s2, skey.root, child, c * 512 + 512);
    LinkedInParts(code, s, s1, tkey, c, f);
    CopyRoots(s0, skey, tkey);
    JoinCount(s0, s, s1, s2);
    ChildFrames(code, s1, s2, skey.root, child, c * 512 + 512);
    JoinListed(code, s0, s, s1, s2, skey.root, tkey, c, f);
  }

  lemma JoinEntry(code: Code, s0: State, s: State, s1: State, s2: State, skey: Key, tkey: Key, c: nat, f: nat)
    requires Joins(code, s0, s, s1, s2, skey, tkey, c, f)
    ensures Copied(code, s0, s2, skey.root, tkey, c + 1)
  {
    JoinedTables(code, s0, s, s1, s2, skey, tkey, c, f);
    JoinedMemory(code, s0, s, s1, s2, skey, tkey, c, f);
    JoinedFrames(code, s0, s, s1, s2, skey, tkey, c, f);
    assert tkey.level >= 1 && tkey.prefix * 512 <= c + 1;
    hide *;
    CopiedFrom(code, s0, s2, skey.root, tkey, c + 1);
  }

  lemma ChildFrames(code: Code, s1: State, s2: State, sroot: nat, child: Key, hi: nat)
    requires child.level >= 1 && hi == child.prefix * 512 + 512
    requires FramesUsed(s1, s2, ListedTo(s1.d, InSpace(child, sroot), hi), child.root)
    ensures FramesUsed(s1, s2, Listed(s1.d, Key(sroot, child.level, child.prefix), 512), child.root)
  {
    hide Listed, FramesUsed;
  }

  lemma CopyRoots(s: State, skey: Key, tkey: Key)
    requires CanCopy(s, skey, tkey)
    ensures TablesOk(s) && skey in s.d && tkey in s.d && skey.root != tkey.root
    ensures skey.level == tkey.level && skey.prefix == tkey.prefix
  {
  }

  lemma CopiedFrom(code: Code, s0: State, s1: State, sroot: nat, tkey: Key, hi: nat)
    requires tkey.level >= 1 && tkey.prefix * 512 <= hi
    requires KeysCopied(s0.d, s1.d, sroot, tkey.root, tkey.level, tkey.prefix * 512, hi)
    requires LeavesCopied(s0, s1, sroot, tkey.root, tkey.level, tkey.prefix * 512, hi)
    requires OthersKept(s0, s1, tkey) && NewAreStale(code, s0, s1) && NewFromList(s0, s1) && CountKept(s0, s1)
    requires FramesUsed(s0, s1, ListedTo(s0.d, InSpace(tkey, sroot), hi), tkey.root)
    ensures Copied(code, s0, s1, sroot, tkey, hi)
  {
  }

  /** The frames of one more entry come behind those of the entries before it. */
  lemma JoinListed(code: Code, s0: State, s: State, s1: State, s2: State, sroot: nat, tkey: Key, c: nat, f: nat)
    requires tkey.level > 1 && tkey.prefix * 512 <= c && Key(sroot, tkey.level - 1, c) in s0.d && sroot != tkey.root
    requires KeysCopied(s0.d, s.d, sroot, tkey.root, tkey.level, tkey.prefix * 512, c)
    requires FramesUsed(s0, s, ListedTo(s0.d, InSpace(tkey, sroot), c), tkey.root)
    requires LinkedIn(code, s, s1, tkey, c, f)
    requires FramesUsed(s1, s2, Listed(s1.d, Key(sroot, tkey.level - 1, c), 512), tkey.root)
    requires Extends(s.d, s1.d) && Extends(s1.d, s2.d)
    ensures FramesUsed(s0, s2, ListedTo(s0.d, InSpace(tkey, sroot), c + 1), tkey.root)
  {
    var k, child := InSpace(tkey, sroot), Key(sroot, tkey.level - 1, c);
    NextListed(s0.d, k, c);
    LinkedInDirectory(code, s, s1, tkey, c, f);
    SourceOrder(s0.d, s.d, s1.d, sroot, tkey, c, f);
    assert InSpace(child, tkey.root) == Key(tkey.root, tkey.level - 1, c);
    hide Listed, ListedTo, KeysCopied, LinkedIn, FramesUsed, Extends;
    JoinFrames(code, s0, s, s1, s2, ListedTo(s0.d, k, c), child, Listed(s1.d, child, 512), tkey, c, f);
  }

  lemma NextListed(d: Directory, k: Key, c: nat)
    requires k.level > 1 && k.prefix * 512 <= c && Key(k.root, k.level - 1, c) in d
    ensures var child := Key(k.root, k.level - 1, c);
      ListedTo(d, k, c + 1) == ListedTo(d, k, c) + ([child] + Listed(d, child, 512))
  {
    var n := c - k.prefix * 512;
    assert Down(k, n) == Key(k.root, k.level - 1, c);
    ListedNext(d, k, n);
    assert n == 0 ==> Listed(d, k, n) == [];
  }

  lemma LinkedInDirectory(code: Code, s: State, s1: State, tkey: Key, c: nat, f: nat)
    requires tkey.level > 1 && LinkedIn(code, s, s1, tkey, c, f)
    ensures s1.d == s.d[Key(tkey.root, tkey.level - 1, c) := f]
  {
  }

  lemma SourceOrder(d0: Directory, d: Directory, d1: Directory, sroot: nat, tkey: Key, c: nat, f: nat)
    requires tkey.level > 1 && sroot != tkey.root
    requires KeysCopied(d0, d, sroot, tkey.root, tkey.level, tkey.prefix * 512, c)
    requires d1 == d[Key(tkey.root, tkey.level - 1, c) := f]
    ensures Listed(d1, Key(sroot, tkey.level - 1, c), 512) == Listed(d0, Key(sroot, tkey.level - 1, c), 512)
  {
    hide Listed;
    ListedSame(d0, d1, Key(sroot, tkey.level - 1, c), 512);
  }

  lemma LinkedFrame(code: Code, s: State, s1: State, tkey: Key, c: nat, f: nat)
    requires tkey.level > 1 && LinkedIn(code, s, s1, tkey, c, f)
    ensures Frames(s.kernel) == [f] + Frames(s1.kernel) && s1.d[Key(tkey.root, tkey.level - 1, c)] == f
  {
  }

  lemma JoinFrames(code: Code, s0: State, s: State, s1: State, s2: State, before: seq<Key>, k: Key, below: seq<Key>,
                   tkey: Key, c: nat, f: nat)
    requires tkey.level > 1 && InSpace(k, tkey.root) == Key(tkey.root, tkey.level - 1, c)
    requires FramesUsed(s0, s, before, tkey.root)
    requires LinkedIn(code, s, s1, tkey, c, f) && FramesUsed(s1, s2, below, tkey.root)
    requires Extends(s.d, s1.d) && Extends(s1.d, s2.d)
    ensures FramesUsed(s0, s2, before + ([k] + below), tkey.root)
  {
    var list, frames := before + ([k] + below), Frames(s0.kernel);
    var n := |before|;
    LinkedFrame(code, s, s1, tkey, c, f);
    hide LinkedIn, Frames;
    JoinRest(frames, Frames(s.kernel), Frames(s1.kernel), Frames(s2.kernel), n, |below|, f);
    forall j | 0 <= j < |list|
      ensures InSpace(list[j], tkey.root) in s2.d && s2.d[InSpace(list[j], tkey.root)] == frames[j]
    {
      if j < n {
        assert list[j] == before[j];
      } else if j > n {
        assert list[j] == below[j - n - 1];
      } else {
        assert list[j] == k;
      }
    }
  }

  lemma JoinRest(frames: seq<nat>, rest: seq<nat>, rest1: seq<nat>, rest2: seq<nat>, n: nat, b: nat, f: nat)
    requires n <= |frames| && rest == frames[n..] && rest == [f] + rest1 && b <= |rest1| && rest2 == rest1[b..]
    ensures n + 1 + b <= |frames| && rest2 == frames[n + 1 + b..]
    ensures frames[n] == f && forall j :: n < j <= n + b ==> frames[j] == rest1[j - n - 1]
  {
    assert frames[n] == rest[0] && rest1 == rest[1..];
    assert rest1 == frames[n + 1..];
  }

  lemma JoinCount(s0: State, s: State, s1: State, s2: State)
    requires CountKept(s0, s) && CountKept(s, s1) && CountKept(s1, s2)
    ensures CountKept(s0, s2)
  {
  }

  lemma CopiedParts(code: Code, s0: State, s1: State, sroot: nat, tkey: Key, hi: nat)
    requires tkey.level >= 1 && Copied(code, s0, s1, sroot, tkey, hi)
    ensures tkey.prefix * 512 <= hi
    ensures KeysCopied(s0.d, s1.d, sroot, tkey.root, tkey.level, tkey.prefix * 512, hi)
    ensures LeavesCopied(s0, s1, sroot, tkey.root, tkey.level, tkey.prefix * 512, hi)
    ensures OthersKept(s0, s1, tkey) && NewAreStale(code, s0, s1) && NewFromList(s0, s1) && CountKept(s0, s1)
    ensures FramesUsed(s0, s1, ListedTo(s0.d, InSpace(tkey, sroot), hi), tkey.root)
    ensures Extends(s0.d, s1.d) && |s1.m| == |s0.m| && (tkey in s0.d ==> tkey in s1.d && s1.d[tkey] == s0.d[tkey])
  {
  }

  lemma LinkedInParts(code: Code, s: State, s1: State, tkey: Key, c: nat, f: nat)
    requires tkey.level > 1 && LinkedIn(code, s, s1, tkey, c, f) && Key(tkey.root, tkey.level - 1, c) !in s.d
    ensures Extends(s.d, s1.d) && |s1.m| == |s.m| && s1.d == s.d[Key(tkey.root, tkey.level - 1, c) := f]
  {
  }

  /** The source stays tidy, and nothing hangs below the new table yet. */
  lemma ReadyToRecurse(code: Code, s0: State, s: State, s1: State, skey: Key, tkey: Key, c: nat, f: nat)
    requires CanCopy(s0, skey, tkey) && tkey.level > 1 && TablesOk(s) && TablesOk(s1)
    requires tkey.prefix * 512 <= c < tkey.prefix * 512 + 512
    requires Copied(code, s0, s, skey.root, tkey, c) && Key(skey.root, skey.level - 1, c) in s0.d
    requires LinkedIn(code, s, s1, tkey, c, f) && Key(tkey.root, tkey.level - 1, c) !in s.d
    ensures CanCopy(s1, Key(skey.root, skey.level - 1, c), Key(tkey.root, tkey.level - 1, c))
  {
    hide Copied, KeysCopied, LeavesCopied, OthersKept, NewAreStale, NewFromList, CountKept, FramesUsed;
    hide LinkedIn, TablesOk, Tidy, NoneIn, Links;
    TablesLinked(s0);
    SourceStaysTidy(code, s0, s, s1, skey.root, tkey, c, f);
    CopiedParts(code, s0, s, skey.root, tkey, c);
    LinkedInParts(code, s, s1, tkey, c, f);
    NoneYet(s0.d, s.d, s1.d, skey.root, tkey, c, f);
  }

  lemma NoneYet(d0: Directory, d: Directory, d1: Directory, sroot: nat, tkey: Key, c: nat, f: nat)
    requires tkey.level > 1 && tkey.prefix * 512 <= c < tkey.prefix * 512 + 512
    requires NoneIn(d0, tkey.root, tkey.level, tkey.prefix * 512, tkey.prefix * 512 + 512)
    requires KeysCopied(d0, d, sroot, tkey.root, tkey.level, tkey.prefix * 512, c)
    requires d1 == d[Key(tkey.root, tkey.level - 1, c) := f]
    ensures NoneIn(d1, tkey.root, tkey.level - 1, c * 512, c * 512 + 512)
  {
    forall k | k in d1 && k.root == tkey.root
      ensures !In(k, tkey.level - 1, c * 512, c * 512 + 512)
    {
      InSplit(k, tkey.level, c, c);
      assert k in d0 ==> !In(k, tkey.level, tkey.prefix * 512, tkey.prefix * 512 + 512);
    }
  }

  lemma SourceStaysTidy(code: Code, s0: State, s: State, s1: State, sroot: nat, tkey: Key, c: nat, f: nat)
    requires Tidy(s0.m, s0.d, sroot) && Links(s0.m, s0.d) && sroot != tkey.root && tkey.level > 1
    requires Copied(code, s0, s, sroot, tkey, c) && LinkedIn(code, s, s1, tkey, c, f)
    ensures Tidy(s1.m, s1.d, sroot)
  {
    forall k, i | k in s1.d && k.root == sroot && k.level > 1 && 0 <= i < 512 && Down(k, i) !in s1.d
      ensures s1.d[k] < |s1.m| && s1.m[s1.d[k]][i] == ZERO_WORD
    {
      assert k in s.d && k in s0.d && Down(k, i) !in s0.d;
      assert Linked(s0.m, s0.d, k);
      assert s.m[s0.d[k]] == s0.m[s0.d[k]] && s1.m[s0.d[k]] == s.m[s0.d[k]];
    }
  }

  /** What is needed of the source while entries are being copied. */
  lemma SourceKept(code: Code, s0: State, s: State, skey: Key, tkey: Key, hi: nat)
    requires CanCopy(s0, skey, tkey) && TablesOk(s) && Copied(code, s0, s, skey.root, tkey, hi)
    ensures Tidy(s.m, s.d, skey.root)
    ensures skey in s0.d && tkey in s0.d
    ensures skey in s.d && s.d[skey] == s0.d[skey] && tkey in s.d && s.d[tkey] == s0.d[tkey]
    ensures forall k: Key :: k.root == skey.root ==> (k in s.d <==> k in s0.d)
  {
    forall k, i | k in s.d && k.root == skey.root && k.level > 1 && 0 <= i < 512 && Down(k, i) !in s.d
      ensures s.d[k] < |s.m| && s.m[s.d[k]][i] == ZERO_WORD
    {
      assert k in s0.d && Down(k, i) !in s0.d;
      assert Linked(s0.m, s0.d, k);
      assert s.m[s0.d[k]] == s0.m[s0.d[k]];
    }
  }

  /** Entry `c` of the target has not been linked yet. */
  lemma NotLinkedYet(code: Code, s0: State, s: State, skey: Key, tkey: Key, c: nat)
    requires CanCopy(s0, skey, tkey) && tkey.level > 1 && Copied(code, s0, s, skey.root, tkey, c)
    requires tkey.prefix * 512 <= c < tkey.prefix * 512 + 512
    ensures Key(tkey.root, tkey.level - 1, c) !in s.d
  {
    assert In(Key(tkey.root, tkey.level - 1, c), tkey.level, tkey.prefix * 512, tkey.prefix * 512 + 512);
  }

  lemma RowWritten(s: State, k: Key, row: PageFrame)
    requires TablesOk(s) && k in s.d && k.level == 1
    ensures s.d[k] < |s.m| && TablesOk(s.(m := s.m[s.d[k] := row]))
    ensures !Footprint(s.kernel, s.d[k]) && !Footprint(s.user, s.d[k])
  {
    assert Linked(s.m, s.d, k);
    SetRow(s.m, s.d, k, row);
  }

  lemma TablesDiffer(s: State, j: Key, k: Key)
    requires TablesOk(s) && j in s.d && k in s.d && j != k
    ensures s.d[j] != s.d[k] && s.d[j] < |s.m| && s.d[k] < |s.m|
  {
    assert Linked(s.m, s.d, j) && Linked(s.m, s.d, k);
  }

  /** A whole level-1 table has been copied. */
  lemma RowCopied(code: Code, s0: State, s1: State, skey: Key, tkey: Key)
    requires CanCopy(s0, skey, tkey) && tkey.level == 1 && s0.d[tkey] < |s0.m| && s0.d[skey] < |s0.m|
    requires s1 == s0.(m := s0.m[s0.d[tkey] := s0.m[s0.d[skey]]])
    ensures Copied(code, s0, s1, skey.root, tkey, tkey.prefix * 512 + 512)
  {
    RowLeaves(s0, s1, skey, tkey);
    RowKeys(code, s0, s1, skey, tkey);
    hide *;
    CopiedFrom(code, s0, s1, skey.root, tkey, tkey.prefix * 512 + 512);
  }

  lemma RowKeys(code: Code, s0: State, s1: State, skey: Key, tkey: Key)
    requires skey.level == tkey.level == 1 && s1 == s0.(m := s1.m)
    ensures KeysCopied(s0.d, s1.d, skey.root, tkey.root, tkey.level, tkey.prefix * 512, tkey.prefix * 512 + 512)
    ensures NewAreStale(code, s0, s1) && NewFromList(s0, s1) && CountKept(s0, s1)
    ensures FramesUsed(s0, s1, ListedTo(s0.d, InSpace(tkey, skey.root), tkey.prefix * 512 + 512), tkey.root)
  {
  }

  lemma RowOthers(s0: State, s1: State, skey: Key, tkey: Key)
    requires CanCopy(s0, skey, tkey) && tkey.level == 1 && s0.d[tkey] < |s0.m| && s0.d[skey] < |s0.m|
    requires s1 == s0.(m := s0.m[s0.d[tkey] := s0.m[s0.d[skey]]])
    ensures OthersKept(s0, s1, tkey)
  {
    TablesDistinct(s0);
    hide NoneIn, Tidy, TablesOk;
    FrameOfOther(s0.m, s0.d, tkey, s0.m[s0.d[skey]]);
  }

  lemma FrameOfOther(m: seq<PageFrame>, d: Directory, k: Key, row: PageFrame)
    requires Distinct(d) && k in d && d[k] < |m|
    ensures forall j :: j in d && j != k && d[j] < |m| ==> m[d[k] := row][d[j]] == m[d[j]]
    ensures forall g, i :: 0 <= g < |m| && g !in d.Values && 2 <= i < 512 ==> m[d[k] := row][g][i] == m[g][i]
  {
    assert d[k] in d.Values;
    forall j | j in d && j != k && d[j] < |m|
      ensures m[d[k] := row][d[j]] == m[d[j]]
    {
      assert d[j] != d[k];
    }
  }

  lemma TablesDistinct(s: State)
    requires TablesOk(s)
    ensures Distinct(s.d)
  {
  }

  lemma RowLeaves(s0: State, s1: State, skey: Key, tkey: Key)
    requires CanCopy(s0, skey, tkey) && tkey.level == 1 && s0.d[tkey] < |s0.m| && s0.d[skey] < |s0.m|
    requires s1 == s0.(m := s0.m[s0.d[tkey] := s0.m[s0.d[skey]]])
    ensures LeavesCopied(s0, s1, skey.root, tkey.root, tkey.level, tkey.prefix * 512, tkey.prefix * 512 + 512)
    ensures OthersKept(s0, s1, tkey)
  {
    RowOthers(s0, s1, skey, tkey);
    SetRow(s0.m, s0.d, tkey, s0.m[s0.d[skey]]);
    hide EntriesKept, OthersKept, NoneIn, Tidy, TablesOk;
    forall r: nat, v: nat
      ensures Leaf(s1.m, s1.d, r, v)
        == Leaf(s0.m, s0.d, if r == tkey.root && tkey.prefix * 512 <= Prefix(v, 0) < tkey.prefix * 512 + 512
                            then skey.root else r, v)
    {
      assert tkey.prefix * 512 <= v < tkey.prefix * 512 + 512 <==> v / 512 == tkey.prefix;
    }
  }

  // --- running out of frames ------------------------------------------------------------------

  lemma FramesLeft(s0: State, s1: State, list: seq<Key>, troot: nat)
    requires FramesUsed(s0, s1, list, troot)
    ensures Total(s0.kernel) == |list| + Total(s1.kernel)
  {
    FramesTotal(s0.kernel);
    FramesTotal(s1.kernel);
  }

  lemma ListedToNext(d: Directory, k: Key, c: nat)
    requires k.level > 1 && k.prefix * 512 <= c < k.prefix * 512 + 512 && Key(k.root, k.level - 1, c) in d
    ensures |ListedTo(d, k, c)| + 1 + |Listed(d, Key(k.root, k.level - 1, c), 512)| <= |Listed(d, k, 512)|
  {
    var n := c - k.prefix * 512;
    assert Down(k, n) == Key(k.root, k.level - 1, c);
    ListedNext(d, k, n);
    ListedMonotone(d, k, n + 1, 512);
    assert n == 0 ==> Listed(d, k, n) == [];
  }

  /** If no frame is left for entry `c`, there were fewer frames than tables to be copied. */
  lemma LinkFails(code: Code, s0: State, s: State, skey: Key, tkey: Key, c: nat)
    requires CanCopy(s0, skey, tkey) && tkey.level > 1 && tkey.prefix * 512 <= c < tkey.prefix * 512 + 512
    requires Copied(code, s0, s, skey.root, tkey, c) && Key(skey.root, skey.level - 1, c) in s0.d
    requires Total(s.kernel) == 0
    ensures Total(s0.kernel) < |Listed(s0.d, skey, 512)|
  {
    hide Listed, ListedTo, FramesUsed, TablesOk, Tidy, NoneIn, KeysCopied, LeavesCopied, OthersKept, NewAreStale;
    FramesLeft(s0, s, ListedTo(s0.d, InSpace(tkey, skey.root), c), tkey.root);
    ListedToNext(s0.d, skey, c);
    assert InSpace(tkey, skey.root) == skey;
  }

  /** The same if they run out below entry `c`. */
  lemma CopyFails(code: Code, s0: State, s: State, s1: State, skey: Key, tkey: Key, c: nat, f: nat)
    requires CanCopy(s0, skey, tkey) && tkey.level > 1 && tkey.prefix * 512 <= c < tkey.prefix * 512 + 512
    requires Copied(code, s0, s, skey.root, tkey, c) && Key(skey.root, skey.level - 1, c) in s0.d
    requires LinkedIn(code, s, s1, tkey, c, f) && s1.d == s.d[Key(tkey.root, tkey.level - 1, c) := f]
    requires Total(s1.kernel) < |Listed(s1.d, Key(skey.root, skey.level - 1, c), 512)|
    ensures Total(s0.kernel) < |Listed(s0.d, skey, 512)|
  {
    var child := Key(skey.root, skey.level - 1, c);
    SourceKeys(code, s0, s, s1, skey, tkey, c, f);
    ListedSame(s0.d, s1.d, child, 512);
    OneFrameLess(code, s, s1, tkey, c, f);
    hide Listed, ListedTo, FramesUsed, TablesOk, Tidy, NoneIn;
    hide KeysCopied, LeavesCopied, OthersKept, NewAreStale, LinkedIn;
    FramesLeft(s0, s, ListedTo(s0.d, InSpace(tkey, skey.root), c), tkey.root);
    ListedToNext(s0.d, skey, c);
    assert InSpace(tkey, skey.root) == skey;
  }

  lemma OneFrameLess(code: Code, s: State, s1: State, tkey: Key, c: nat, f: nat)
    requires tkey.level > 1 && LinkedIn(code, s, s1, tkey, c, f)
    ensures Total(s.kernel) == Total(s1.kernel) + 1
  {
    FramesTotal(s.kernel);
    FramesTotal(s1.kernel);
  }

  lemma SourceKeys(code: Code, s0: State, s: State, s1: State, skey: Key, tkey: Key, c: nat, f: nat)
    requires CanCopy(s0, skey, tkey) && tkey.level > 1 && Copied(code, s0, s, skey.root, tkey, c)
    requires s1.d == s.d[Key(tkey.root, tkey.level - 1, c) := f]
    ensures forall j: Key :: j.root == skey.root ==> (j in s0.d <==> j in s1.d)
  {
    hide Listed, ListedTo, FramesUsed, TablesOk, Tidy, NoneIn, LeavesCopied, OthersKept, NewAreStale;
  }
}
