/** The order in which `copy_table` comes by the tables of a space: each table before those
below it, and these by their entries (os/kernel/src/memory/virtual.rs:103-118). */
module TableOrder {
  import opened PhysMemory
  import opened PageTables

  /** Table `k` lies below one of the entries `lo`, ..., `hi - 1` of the tables of `level`,
      where all entries of a level are numbered through. */
  predicate In(k: Key, level: nat, lo: nat, hi: nat) {
    1 <= k.level < level && lo <= Prefix(k.prefix, level - 1 - k.level) < hi
  }

  /** Below entry `c` lie the table of that entry and what lies below its own entries. */
  lemma InSplit(k: Key, level: nat, lo: nat, c: nat)
    requires lo <= c && level > 1
    ensures In(k, level, lo, c + 1) <==>
      In(k, level, lo, c) || (k.level == level - 1 && k.prefix == c) || In(k, level - 1, c * 512, c * 512 + 512)
    ensures !(In(k, level, lo, c) && k.level == level - 1 && k.prefix == c)
    ensures !(In(k, level, lo, c) && In(k, level - 1, c * 512, c * 512 + 512))
  {
    if 1 <= k.level < level - 1 {
      assert Prefix(k.prefix, level - 1 - k.level) == Prefix(k.prefix, level - 2 - k.level) / 512;
    }
  }

  /** The tables below the first `n` entries of table `k`. */
  function Listed(d: Directory, k: Key, n: nat): seq<Key>
    decreases k.level, n
  {
    if k.level <= 1 || n == 0 then []
    else
      var child := Down(k, n - 1);
      Listed(d, k, n - 1) + (if child in d then [child] + Listed(d, child, 512) else [])
  }

  lemma ListedNext(d: Directory, k: Key, n: nat)
    requires k.level > 1
    ensures Listed(d, k, n + 1)
      == Listed(d, k, n) + (if Down(k, n) in d then [Down(k, n)] + Listed(d, Down(k, n), 512) else [])
  {
  }

  lemma {:induction false} ListedMonotone(d: Directory, k: Key, a: nat, b: nat)
    requires a <= b
    ensures |Listed(d, k, a)| <= |Listed(d, k, b)|
    decreases b
  {
    if a < b && k.level > 1 {
      ListedMonotone(d, k, a, b - 1);
      ListedNext(d, k, b - 1);
    }
  }

  /** The order of a space depends on nothing but its own tables. */
  lemma {:induction false} ListedSame(d: Directory, d1: Directory, k: Key, n: nat)
    requires forall j: Key :: j.root == k.root ==> (j in d <==> j in d1)
    ensures Listed(d, k, n) == Listed(d1, k, n)
    decreases k.level, n
  {
    if k.level > 1 && n > 0 {
      ListedSame(d, d1, k, n - 1);
      if Down(k, n - 1) in d {
        ListedSame(d, d1, Down(k, n - 1), 512);
      }
    }
  }

  /** The tables of a space below the first `n` entries of table `k`. */
  function Below(d: Directory, k: Key, n: nat): set<Key> {
    set j | j in d && j.root == k.root && In(j, k.level, k.prefix * 512, k.prefix * 512 + n)
  }

  /** Below a missing table there is no other. */
  lemma {:induction false} NoneBelowMissing(m: seq<PageFrame>, d: Directory, k: Key, n: nat)
    requires Links(m, d) && k.level + n <= LEVELS && Key(k.root, k.level + n, Prefix(k.prefix, n)) !in d
    ensures k !in d
    decreases n
  {
    if n > 0 && k in d {
      assert Linked(m, d, k);
      PrefixCompose(k.prefix, 1, n - 1);
      assert Prefix(k.prefix, 1) == k.prefix / 512;
      NoneBelowMissing(m, d, Up(k), n - 1);
    }
  }

  lemma NoneBelowEntry(m: seq<PageFrame>, d: Directory, root: nat, level: nat, c: nat)
    requires Links(m, d) && 1 < level <= LEVELS && Key(root, level - 1, c) !in d
    ensures forall k :: k in d && k.root == root ==> !In(k, level, c, c + 1)
    ensures forall v: nat :: Prefix(v, level - 1) == c ==> Key(root, 1, v / 512) !in d
  {
    forall k | k in d && k.root == root
      ensures !In(k, level, c, c + 1)
    {
      if In(k, level, c, c + 1) {
        NoneBelowMissing(m, d, k, level - 1 - k.level);
      }
    }
    forall v: nat | Prefix(v, level - 1) == c
      ensures Key(root, 1, v / 512) !in d
    {
      PrefixCompose(v, 1, level - 2);
      assert Prefix(v, 1) == v / 512;
      NoneBelowMissing(m, d, Key(root, 1, v / 512), level - 2);
    }
  }

  lemma BelowNext(m: seq<PageFrame>, d: Directory, k: Key, n: nat)
    requires Links(m, d) && 1 < k.level <= LEVELS
    ensures var child := Down(k, n);
      Below(d, k, n + 1) == Below(d, k, n) + (if child in d then {child} + Below(d, child, 512) else {})
    ensures var child := Down(k, n);
      child in d ==> Below(d, k, n) !! {child} + Below(d, child, 512) && child !in Below(d, child, 512)
  {
    var child, c := Down(k, n), k.prefix * 512 + n;
    forall j | j in d && j.root == k.root
      ensures j in Below(d, k, n + 1) <==> j in Below(d, k, n) || j == child || j in Below(d, child, 512)
      ensures !(j in Below(d, k, n) && (j == child || j in Below(d, child, 512)))
    {
      InSplit(j, k.level, k.prefix * 512, c);
    }
    if child !in d {
      NoneBelowEntry(m, d, k.root, k.level, c);
      forall j | j in d && j.root == k.root
        ensures j !in Below(d, child, 512)
      {
        InSplit(j, k.level, c, c);
      }
    }
  }

  /** Every key of the set once, and no other. */
  ghost predicate Enumerates(list: seq<Key>, keys: set<Key>) {
    |list| == |keys| && forall j :: j in list <==> j in keys
  }

  lemma EnumeratesJoin(a: seq<Key>, x: set<Key>, child: Key, b: seq<Key>, y: set<Key>)
    requires Enumerates(a, x) && Enumerates(b, y) && x !! {child} + y && child !in y
    ensures Enumerates(a + ([child] + b), x + ({child} + y))
  {
    assert |x + ({child} + y)| == |x| + |{child} + y| == |x| + 1 + |y|;
  }

  lemma NothingBelow(d: Directory, k: Key, n: nat)
    requires k.level == 1 || n == 0
    ensures Enumerates(Listed(d, k, n), Below(d, k, n))
  {
    assert Below(d, k, n) == {};
  }

  lemma OneMoreListed(m: seq<PageFrame>, d: Directory, k: Key, n: nat)
    requires Links(m, d) && 1 < k.level <= LEVELS && Enumerates(Listed(d, k, n), Below(d, k, n))
    requires Down(k, n) in d ==> Enumerates(Listed(d, Down(k, n), 512), Below(d, Down(k, n), 512))
    ensures Enumerates(Listed(d, k, n + 1), Below(d, k, n + 1))
  {
    hide Links, In, Below, Enumerates, Listed;
    var child := Down(k, n);
    BelowNext(m, d, k, n);
    ListedNext(d, k, n);
    if child in d {
      EnumeratesJoin(Listed(d, k, n), Below(d, k, n), child, Listed(d, child, 512), Below(d, child, 512));
    } else {
      assert Listed(d, k, n) + [] == Listed(d, k, n) && Below(d, k, n) + {} == Below(d, k, n);
    }
  }

  /** The order lists every table of a space once. */
  lemma {:induction false} ListedOnce(m: seq<PageFrame>, d: Directory, k: Key, n: nat)
    requires Links(m, d) && 1 <= k.level <= LEVELS
    ensures Enumerates(Listed(d, k, n), Below(d, k, n))
    decreases k.level, n
  {
    hide Links, In, Below, Enumerates, Listed;
    if k.level == 1 || n == 0 {
      NothingBelow(d, k, n);
    } else {
      ListedOnce(m, d, k, n - 1);
      if Down(k, n - 1) in d {
        ListedOnce(m, d, Down(k, n - 1), 512);
      }
      OneMoreListed(m, d, k, n - 1);
    }
  }
}
