/** A copy in which a page is led astray: the table at root entry 5 does not use its first entry,
and its copy is taken from a block of three frames. */
module CopyWitness {
  import opened Ranges
  import opened PhysMemory
  import opened PageTables
  import opened TableOrder
  import opened StrayEntries
  import opened PagingSteps
  import opened TableCopies
  import opened PagingTheorems
  import opened CopyTheorems
  import opened StrayCopies
  import BlockLists

  function Filled(w: Word): PageFrame {
    seq(512, _ => w)
  }

  /** Twenty frames, of which frame 0 is what the firmware has left there. */
  function Memory(f1: PageFrame, f2: PageFrame, f10: PageFrame, f11: PageFrame, f12: PageFrame): (m: seq<PageFrame>)
    ensures |m| == 20 && m[0] == Filled(Word(0, 1))
    ensures m[1] == f1 && m[2] == f2 && m[10] == f10 && m[11] == f11 && m[12] == f12
    ensures forall f :: 3 <= f < 20 && f !in {10, 11, 12} ==> m[f] == Filled(ZERO_WORD)
  {
    var rest: seq<PageFrame> := seq(20, _ => Filled(ZERO_WORD));
    rest[0 := Filled(Word(0, 1))][1 := f1][2 := f2][10 := f10][11 := f11][12 := f12]
  }

  /** Before the copy: space 1 has a level-3 table in frame 2, without entries. */
  function Before(): (s: State)
    ensures s.d == map[Key(1, 4, 0) := 1, Key(1, 3, 5) := 2] && s.kernel == [Range(10, 14)] && s.user == []
  {
    State(Memory(Filled(ZERO_WORD)[5 := Word(2, TABLE_FLAGS)], Filled(ZERO_WORD),
                 Filled(ZERO_WORD)[0 := CountWord(4)], Filled(ZERO_WORD), Filled(ZERO_WORD)),
          map[Key(1, 4, 0) := 1, Key(1, 3, 5) := 2], [Range(10, 14)], [])
  }

  /** After it: frame 11 still has the count of the block [11, 14). */
  function Afterwards(): (s: State)
    ensures s.d == map[Key(1, 4, 0) := 1, Key(1, 3, 5) := 2, Key(10, 4, 0) := 10, Key(10, 3, 5) := 11]
    ensures s.kernel == [Range(12, 14)] && s.user == []
  {
    State(Memory(Filled(ZERO_WORD)[5 := Word(2, TABLE_FLAGS)], Filled(ZERO_WORD),
                 Filled(ZERO_WORD)[5 := Word(11, TABLE_FLAGS)], Filled(ZERO_WORD)[0 := CountWord(3)],
                 Filled(ZERO_WORD)[0 := CountWord(2)]),
          map[Key(1, 4, 0) := 1, Key(1, 3, 5) := 2, Key(10, 4, 0) := 10, Key(10, 3, 5) := 11], [Range(12, 14)], [])
  }

  /** The first page of that table. */
  const PAGE: nat := 5 * 512 * 512 * 512

  lemma PrefixesOfPage()
    ensures Prefix(PAGE, 1) == 5 * 512 * 512 && Prefix(PAGE, 2) == 5 * 512 && Prefix(PAGE, 3) == 5
  {
    assert Prefix(PAGE, 1) == Prefix(PAGE, 0) / 512 == 5 * 512 * 512;
    assert Prefix(PAGE, 2) == Prefix(PAGE, 1) / 512;
    assert Prefix(PAGE, 3) == Prefix(PAGE, 2) / 512;
  }

  const ROOT := Key(1, 4, 0)
  const TABLE := Key(1, 3, 5)
  const COPIED_TABLE := Key(10, 3, 5)

  /** A root in frame `f`, and below its entry 5 a table in frame `g`. */
  ghost predicate Pair(m: seq<PageFrame>, d: Directory, f: nat, g: nat) {
    && 0 < f < |m| && 0 < g < |m| && m[f][5] == Word(g, TABLE_FLAGS)
    && (forall i :: 0 <= i < 512 && i != 5 ==> m[f][i] == ZERO_WORD)
    && Key(f, 4, 0) in d && d[Key(f, 4, 0)] == f && Key(f, 3, 5) in d && d[Key(f, 3, 5)] == g
    && forall k :: k in d && k.root == f ==> k in {Key(f, 4, 0), Key(f, 3, 5)}
  }

  lemma PairLinked(m: seq<PageFrame>, d: Directory, f: nat, g: nat)
    requires Pair(m, d, f, g)
    ensures forall k :: k in d && k.root == f ==> Linked(m, d, k)
  {
    assert Linked(m, d, Key(f, 4, 0)) && Linked(m, d, Key(f, 3, 5));
  }

  lemma PairTidy(m: seq<PageFrame>, d: Directory, f: nat, g: nat)
    requires Pair(m, d, f, g) && m[g] == Filled(ZERO_WORD)
    ensures Tidy(m, d, f)
  {
    forall k, i | k in d && k.root == f && k.level > 1 && 0 <= i < 512 && Down(k, i) !in d
      ensures d[k] < |m| && m[d[k]][i] == ZERO_WORD
    {
      assert k == Key(f, 4, 0) ==> Down(k, 5) in d;
    }
  }

  lemma BeforePair()
    ensures Pair(Before().m, Before().d, 1, 2) && forall k :: k in Before().d ==> k.root == 1
  {
  }

  lemma AfterwardsPairs()
    ensures Pair(Afterwards().m, Afterwards().d, 1, 2) && Pair(Afterwards().m, Afterwards().d, 10, 11)
    ensures forall k :: k in Afterwards().d ==> k.root in {1, 10}
  {
  }

  lemma BeforeFree()
    ensures forall k :: k in Before().d ==> !Footprint(Before().kernel, Before().d[k])
    ensures forall k :: k in Before().d ==> !Footprint(Before().user, Before().d[k])
  {
  }

  lemma AfterwardsFree()
    ensures forall k :: k in Afterwards().d ==> !Footprint(Afterwards().kernel, Afterwards().d[k])
    ensures forall k :: k in Afterwards().d ==> !Footprint(Afterwards().user, Afterwards().d[k])
  {
  }

  lemma PairIsSpace(s: State, f: nat, g: nat)
    requires Pair(s.m, s.d, f, g) && s.m[g] == Filled(ZERO_WORD) && Distinct(s.d)
    requires forall k :: k in s.d ==> k.root == f && !Footprint(s.kernel, s.d[k]) && !Footprint(s.user, s.d[k])
    ensures HasSpace(s, f)
  {
    PairTidy(s.m, s.d, f, g);
    PairLinked(s.m, s.d, f, g);
    hide Linked, Footprint, Tidy, Distinct;
  }

  lemma BeforeHasSpace()
    ensures HasSpace(Before(), 1)
  {
    BeforePair();
    BeforeFree();
    assert Distinct(Before().d);
    hide *;
    PairIsSpace(Before(), 1, 2);
  }

  lemma AfterwardsTables()
    ensures TablesOk(Afterwards())
  {
    AfterwardsPairs();
    AfterwardsFree();
    PairLinked(Afterwards().m, Afterwards().d, 1, 2);
    PairLinked(Afterwards().m, Afterwards().d, 10, 11);
    assert Distinct(Afterwards().d);
    hide Linked, Pair, Afterwards, Footprint, Distinct;
  }

  lemma {:induction false} ListedSkip(d: Directory, k: Key, a: nat, b: nat)
    requires a <= b && k.level > 1 && forall i :: a <= i < b ==> Down(k, i) !in d
    ensures Listed(d, k, b) == Listed(d, k, a)
    decreases b
  {
    if a < b {
      ListedNext(d, k, b - 1);
      ListedSkip(d, k, a, b - 1);
    }
  }

  lemma OrderBefore()
    ensures Order(Before().d, 1) == [Key(1, 4, 0), Key(1, 3, 5)]
  {
    OrderOfPair(Before().d, ROOT, TABLE);
  }

  lemma OrderOfPair(d: Directory, root: Key, table: Key)
    requires root == ROOT && table == TABLE && forall k :: k in d <==> k in {root, table}
    ensures Order(d, 1) == [root, table]
  {
    hide Listed;
    ListedSkip(d, root, 0, 5);
    ListedNext(d, root, 5);
    ListedSkip(d, root, 6, 512);
    ListedSkip(d, table, 0, 512);
    assert Down(root, 5) == table;
    NothingListed(d, root);
    NothingListed(d, table);
  }

  lemma NothingListed(d: Directory, k: Key)
    ensures Listed(d, k, 0) == []
  {
  }

  lemma FramesOf(r: Range, n: nat)
    requires r.end == r.start + n
    ensures Frames([r]) == From(r.start, n)
  {
    assert [r][1..] == [];
  }

  lemma Counts()
    ensures CountKept(Before(), Afterwards()) && RunFrom(Before().kernel, 11) == 3
    ensures Frames(Before().kernel) == [10, 11, 12, 13] && Frames(Afterwards().kernel) == [12, 13]
  {
    KernelLists([Range(10, 14)], [Range(12, 14)]);
    assert |Before().d| == 2 && |Afterwards().d| == 4;
    hide Before, Afterwards, Frames, RunFrom, Total;
    FramesTotal(Before().kernel);
    FramesTotal(Afterwards().kernel);
  }

  lemma KernelLists(before: seq<Range>, after: seq<Range>)
    requires before == [Range(10, 14)] && after == [Range(12, 14)]
    ensures Frames(before) == [10, 11, 12, 13] && Frames(after) == [12, 13]
    ensures RunFrom(before, 11) == 3 && BlockLists.RunsKept(before, after) && Shrinks(before, after)
  {
    FramesOf(Range(10, 14), 4);
    FramesOf(Range(12, 14), 2);
    hide Frames;
  }

  lemma FirstFrames()
    ensures FramesUsed(Before(), Afterwards(), Order(Before().d, 1), 10)
  {
    Counts();
    OrderBefore();
  }

  lemma StaleTable()
    ensures StaleBetween(AsWritten, Before(), Afterwards(), 10) && RootTidy(Afterwards(), 10)
  {
    Counts();
    var s0, s1 := Before(), Afterwards();
    forall i | 0 <= i < 512
      ensures StaleEntry(AsWritten, s0, s1, 11, i)
    {
    }
    forall i | 0 <= i < 512 && Key(10, 3, i) !in s1.d
      ensures s1.m[10][i] == ZERO_WORD
    {
      assert i != 5;
    }
  }

  lemma Doubled()
    ensures KeysDoubled(Before().d, Afterwards().d, 1, 10) && LeavesDoubled(Before(), Afterwards(), 1, 10)
    ensures UnusedKept(Before().m, Before().d, Afterwards().m, Afterwards().d)
    ensures forall k :: k in Before().d ==> k in Afterwards().d
  {
  }

  lemma IsCopy()
    ensures CopyOf(AsWritten, Before(), Afterwards(), 1, 10)
  {
    AfterwardsTables();
    Doubled();
    StaleTable();
    Counts();
    FirstFrames();
  }

  lemma WalkInFrameZero(m: seq<PageFrame>, v: nat)
    requires |m| > 0 && m[0] == Filled(Word(0, 1))
    ensures Walk(m, 0, 2, v) == Some(Word(0, 1))
  {
    assert Walk(m, 0, 1, v) == Some(Word(0, 1));
  }

  /** The source maps the page to nothing. Its copy, made as the code does it, has it mapped to
      frame 0, read from the contents of frame 0. */
  lemma CopyLeadsAstray()
    ensures HasSpace(Before(), 1) && CopyOf(AsWritten, Before(), Afterwards(), 1, 10) && PAGE < SPACE_END
    ensures !WillBeStraight(AsWritten, Before(), 1) && !NoStray(Afterwards().m, Afterwards().d, 10, PAGE)
    ensures Translate(Before().m, 1, PAGE) == None && Translate(Afterwards().m, 10, PAGE) == Some(Word(0, 1))
  {
    BeforeHasSpace();
    IsCopy();
    Counts();
    AfterwardsPairs();
    PrefixesOfPage();
    NoLeafBefore();
    assert PAGE < SPACE_END;
    hide *;
    LeadsAstray(Before(), Afterwards());
  }

  lemma NoLeafBefore()
    ensures Leaf(Before().m, Before().d, 1, PAGE) == ZERO_WORD && TABLE in Before().d && Down(TABLE, 0) !in Before().d
    ensures Afterwards().m[0] == Filled(Word(0, 1))
  {
  }

  lemma LeadsAstray(s0: State, s1: State)
    requires HasSpace(s0, 1) && CopyOf(AsWritten, s0, s1, 1, 10)
    requires TABLE in s0.d && Down(TABLE, 0) !in s0.d && Leaf(s0.m, s0.d, 1, PAGE) == ZERO_WORD
    requires Pair(s1.m, s1.d, 10, 11) && s1.m[0] == Filled(Word(0, 1)) && RunFrom(s0.kernel, 11) == 3
    ensures !WillBeStraight(AsWritten, s0, 1) && !NoStray(s1.m, s1.d, 10, PAGE)
    ensures Translate(s0.m, 1, PAGE) == None && Translate(s1.m, 10, PAGE) == Some(Word(0, 1))
  {
    PrefixesOfPage();
    WalkInFrameZero(s1.m, PAGE);
    assert InSpace(TABLE, 10) == COPIED_TABLE && s1.d[COPIED_TABLE] == 11;
    hide HasSpace, CopyOf, Walk, NoStray, WillBeStraight, Leaf, Pair, Filled, Prefix;
    TranslateInTidy(s0, 1, PAGE);
    UnusedFirstEntryGoesAstrayExactlyWhen(s0, s1, 1, 10, TABLE, PAGE);
    CopyStraightExactlyWhen(AsWritten, s0, s1, 1, 10);
  }
}
