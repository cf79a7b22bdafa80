/** Whole runs of address-space creation, copying and mapping, against a plain book of which
page of which space is mapped to what (os/kernel/src/memory/virtual.rs:22-184). */
module PagingRuns {
  import opened Ranges
  import opened PhysMemory
  import opened PageTables
  import opened PagingSteps
  import opened TableCopies
  import opened PagingTheorems
  import opened CopyTheorems
  import opened PageRights
  import opened StrayEntries
  import opened StrayCopies
  import FramePool

  /** A call that went through, with the frame of the root it has created and the frames it has
      given to pages. */
  datatype Op =
    | Create(root: nat)
    | Copy(source: nat, target: nat)
    | Map(root: nat, pages: Range, space: FramePool.Space, flags: nat, mapped: nat, placed: map<nat, nat>)

  /** What the methods of `Paging.PageTableManager` promise when they succeed. Only spaces without
      leftover words are copied, and pages are mapped only where no stray entry points to a frame. */
  ghost predicate Does(code: Code, s0: State, op: Op, s1: State) {
    match op
    case Create(root) => TablesOk(s0) && SpaceAdded(s0, s1, root)
    case Copy(source, target) => HasSpace(s0, source) && CopyOf(code, s0, s1, source, target)
    case Map(root, pages, space, flags, mapped, placed) =>
      && HasRoot(s0, root) && Passable(s0.m, s0.d, root, pages.start, Upto(pages)) && TablesOk(s1)
      && MapResult(code, s0, s1, root, LEVELS, pages, First(1, LEVELS), space, flags, Some(mapped), placed)
  }

  ghost predicate Runs(code: Code, states: seq<State>, ops: seq<Op>) {
    && |states| == |ops| + 1 && TablesOk(states[0]) && states[0].d == map[]
    && forall i :: 0 <= i < |ops| ==> Does(code, states[i], ops[i], states[i + 1])
  }

  // --- the book -------------------------------------------------------------------------------

  type Book = map<nat, map<nat, Word>>

  function After(book: Book, op: Op): Book {
    match op
    case Create(root) => book[root := map[]]
    case Copy(source, target) => if source in book then book[target := book[source]] else book
    case Map(root, pages, space, flags, mapped, placed) =>
      if root in book then book[root := book[root] + map v | v in placed :: Word(placed[v], flags)] else book
  }

  /** The book after the first `n` calls. */
  function BookOf(ops: seq<Op>, n: nat): Book
    requires n <= |ops|
  {
    if n == 0 then map[] else After(BookOf(ops, n - 1), ops[n - 1])
  }

  function Lookup(book: Book, root: nat, v: nat): Option<Word> {
    if root in book && v in book[root] then Translation(book[root][v]) else None
  }

  ghost predicate SpacesMatch(s: State, book: Book) {
    TablesOk(s) && forall root: nat :: root in book <==> Key(root, LEVELS, 0) in s.d
  }

  ghost predicate PagesMatch(s: State, book: Book) {
    forall root: nat, v: nat :: root in book && v < SPACE_END ==>
      Translation(Leaf(s.m, s.d, root, v)) == Lookup(book, root, v)
  }

  lemma CreateMatches(s0: State, s1: State, root: nat, book: Book)
    requires TablesOk(s0) && SpaceAdded(s0, s1, root) && SpacesMatch(s0, book) && PagesMatch(s0, book)
    ensures SpacesMatch(s1, book[root := map[]]) && PagesMatch(s1, book[root := map[]])
  {
    AddedParts(s0, s1, root);
    hide *;
    CreatedRoots(s0, s1, root, book);
    CreatedPages(s0, s1, root, book);
  }

  lemma CreatedRoots(s0: State, s1: State, root: nat, book: Book)
    requires SpacesMatch(s0, book) && TablesOk(s1) && s1.d == s0.d[Key(root, LEVELS, 0) := root]
    ensures SpacesMatch(s1, book[root := map[]])
  {
    hide TablesOk;
  }

  lemma CreatedPages(s0: State, s1: State, root: nat, book: Book)
    requires PagesMatch(s0, book) && SameLeaves(s0.m, s0.d, s1.m, s1.d) && forall k :: k in s0.d ==> k.root != root
    ensures PagesMatch(s1, book[root := map[]])
  {
    forall r: nat, v: nat | r in book[root := map[]] && v < SPACE_END
      ensures Translation(Leaf(s1.m, s1.d, r, v)) == Lookup(book[root := map[]], r, v)
    {
      NoLeaf(s0, root, v);
      hide Leaf;
      assert Leaf(s1.m, s1.d, r, v) == Leaf(s0.m, s0.d, r, v);
    }
  }

  lemma CopyMatches(code: Code, s0: State, s1: State, source: nat, target: nat, book: Book)
    requires HasSpace(s0, source) && CopyOf(code, s0, s1, source, target)
    requires SpacesMatch(s0, book) && PagesMatch(s0, book)
    ensures source in book
    ensures SpacesMatch(s1, book[target := book[source]]) && PagesMatch(s1, book[target := book[source]])
  {
    hide UnusedKept, StaleBetween, CountKept, FramesUsed, RootTidy, Leaf, Tidy;
    var after := book[target := book[source]];
    forall root: nat
      ensures root in after <==> Key(root, LEVELS, 0) in s1.d
    {
      assert InSpace(Key(root, LEVELS, 0), source) == Key(source, LEVELS, 0);
    }
    forall r: nat, v: nat | r in after && v < SPACE_END
      ensures Translation(Leaf(s1.m, s1.d, r, v)) == Lookup(after, r, v)
    {
      assert Translation(Leaf(s0.m, s0.d, source, v)) == Lookup(book, source, v);
      assert r != target ==> Leaf(s1.m, s1.d, r, v) == Leaf(s0.m, s0.d, r, v);
    }
  }

  /** Mapping adds no root. */
  lemma SameRoots(s0: State, s1: State, root: nat, lo: nat, hi: nat)
    requires Grown(s0, s1, root, LEVELS, lo, hi)
    ensures forall r: nat :: Key(r, LEVELS, 0) in s1.d <==> Key(r, LEVELS, 0) in s0.d
  {
  }

  lemma MapMatches(code: Code, s0: State, s1: State, op: Op, book: Book)
    requires op.Map? && Does(code, s0, op, s1) && SpacesMatch(s0, book) && PagesMatch(s0, book)
    ensures op.root in book && SpacesMatch(s1, After(book, op)) && PagesMatch(s1, After(book, op))
  {
    hide UnusedKept, NewZeroed, Paid, HasWanted, Placement, Leaf, Passable, LeafEnd;
    var after := After(book, op);
    SameRoots(s0, s1, op.root, op.pages.start, VisitEnd(op.pages, First(1, LEVELS)));
    forall r: nat, v: nat | r in after && v < SPACE_END
      ensures Translation(Leaf(s1.m, s1.d, r, v)) == Lookup(after, r, v)
    {
      assert Translation(Leaf(s0.m, s0.d, r, v)) == Lookup(book, r, v);
    }
  }

  lemma StepMatches(code: Code, s0: State, s1: State, op: Op, book: Book)
    requires Does(code, s0, op, s1) && SpacesMatch(s0, book) && PagesMatch(s0, book)
    ensures SpacesMatch(s1, After(book, op)) && PagesMatch(s1, After(book, op))
  {
    match op
    case Create(root) => CreateMatches(s0, s1, root, book);
    case Copy(source, target) => CopyMatches(code, s0, s1, source, target, book);
    case Map(_, _, _, _, _, _) => MapMatches(code, s0, s1, op, book);
  }

  lemma {:induction false} RunMatches(code: Code, states: seq<State>, ops: seq<Op>, n: nat)
    requires Runs(code, states, ops) && n <= |ops|
    ensures SpacesMatch(states[n], BookOf(ops, n)) && PagesMatch(states[n], BookOf(ops, n))
  {
    hide Does, TablesOk, After, PagesMatch;
    if n > 0 {
      RunMatches(code, states, ops, n - 1);
      StepMatches(code, states[n - 1], states[n], ops[n - 1], BookOf(ops, n - 1));
    } else {
      EmptyMatches(states[0]);
    }
  }

  lemma EmptyMatches(s: State)
    ensures PagesMatch(s, map[])
  {
  }

  /** In every state of every run, a page that the book maps is translated as the book says, for
      the code as written too. So is every other page, unless a walk to it meets a stray entry. */
  lemma RunTranslates(code: Code, states: seq<State>, ops: seq<Op>, n: nat, root: nat, v: nat)
    requires Runs(code, states, ops) && n <= |ops| && root in BookOf(ops, n) && v < SPACE_END
    ensures HasRoot(states[n], root)
    ensures Lookup(BookOf(ops, n), root, v).Some? || NoStray(states[n].m, states[n].d, root, v) ==>
      Translate(states[n].m, root, v) == Lookup(BookOf(ops, n), root, v)
  {
    var s, book := states[n], BookOf(ops, n);
    RunMatches(code, states, ops, n);
    assert Translation(Leaf(s.m, s.d, root, v)) == Lookup(book, root, v);
    hide Runs, PagesMatch, Translate, NoStray, Leaf;
    if Lookup(book, root, v).Some? {
      LeafNeedsTable(s, root, v);
      TableHasNoStray(s.m, s.d, root, v);
    }
    if NoStray(s.m, s.d, root, v) {
      TranslateLeaf(s, root, v);
    }
  }

  /** In every state of every run, a page that the book maps has exactly the rights that the book
      says, whatever tables the walk to it reads. Every other page has none, unless a walk to it
      meets a stray entry. */
  lemma RunGivesRights(code: Code, states: seq<State>, ops: seq<Op>, n: nat, root: nat, v: nat)
    requires Runs(code, states, ops) && n <= |ops| && root in BookOf(ops, n) && v < SPACE_END
    ensures Lookup(BookOf(ops, n), root, v).Some? || NoStray(states[n].m, states[n].d, root, v) ==>
      RightsOf(states[n].m, root, v) == match Lookup(BookOf(ops, n), root, v)
                                        case Some(word) => Some(Own(word))
                                        case None => None
  {
    var s, book := states[n], BookOf(ops, n);
    RunMatches(code, states, ops, n);
    assert Translation(Leaf(s.m, s.d, root, v)) == Lookup(book, root, v);
    hide Runs, PagesMatch, RightsOf, NoStray, Leaf, Lookup;
    if Lookup(book, root, v).Some? {
      LeafNeedsTable(s, root, v);
      TableHasNoStray(s.m, s.d, root, v);
    }
    if NoStray(s.m, s.d, root, v) {
      RightsAreThoseOfLeaf(s, root, v);
    }
  }

  /** In every state of every run, the tables form a forest: the walks to two pages that are mapped,
      or on the way to which no entry is stray, read the same frame as a table only as the same
      table of the same space, and it is in no list. */
  lemma RunFormsForest(code: Code, states: seq<State>, ops: seq<Op>, n: nat,
                       r1: nat, l1: nat, v1: nat, r2: nat, l2: nat, v2: nat)
    requires Runs(code, states, ops) && n <= |ops|
    requires r1 in BookOf(ops, n) && r2 in BookOf(ops, n) && v1 < SPACE_END && v2 < SPACE_END
    requires Lookup(BookOf(ops, n), r1, v1).Some? || NoStray(states[n].m, states[n].d, r1, v1)
    requires Lookup(BookOf(ops, n), r2, v2).Some? || NoStray(states[n].m, states[n].d, r2, v2)
    requires 1 <= l1 <= LEVELS && 1 <= l2 <= LEVELS
    ensures Lookup(BookOf(ops, n), r1, v1).Some? ==> TableAt(states[n].m, r1, l1, v1).Some?
    ensures TableAt(states[n].m, r1, l1, v1).Some? ==>
      var t1, t2 := TableAt(states[n].m, r1, l1, v1), TableAt(states[n].m, r2, l2, v2);
      && (t1 == t2 <==> r1 == r2 && l1 == l2 && Prefix(v1, l1) == Prefix(v2, l2))
      && !Footprint(states[n].kernel, t1.value) && !Footprint(states[n].user, t1.value)
  {
    var s := states[n];
    MappedHasTables(code, states, ops, n, r1, v1, l1);
    MappedHasTables(code, states, ops, n, r2, v2, l2);
    hide Runs, NoStray, TablesOk, TableAt;
    TableAtIs(s, r1, l1, v1);
    if TableAt(s.m, r1, l1, v1).Some? {
      TablesFormForest(s, r1, l1, v1, r2, l2, v2);
    }
  }

  lemma MappedHasTables(code: Code, states: seq<State>, ops: seq<Op>, n: nat, root: nat, v: nat, level: nat)
    requires Runs(code, states, ops) && n <= |ops| && root in BookOf(ops, n) && v < SPACE_END && 1 <= level <= LEVELS
    requires Lookup(BookOf(ops, n), root, v).Some? || NoStray(states[n].m, states[n].d, root, v)
    ensures HasRoot(states[n], root) && NoStray(states[n].m, states[n].d, root, v)
    ensures Lookup(BookOf(ops, n), root, v).Some? ==> Key(root, level, Prefix(v, level)) in states[n].d
  {
    var s := states[n];
    RunMatches(code, states, ops, n);
    assert Translation(Leaf(s.m, s.d, root, v)) == Lookup(BookOf(ops, n), root, v);
    hide Runs, PagesMatch, NoStray, Leaf;
    if Lookup(BookOf(ops, n), root, v).Some? {
      LeafNeedsTable(s, root, v);
      TableHasNoStray(s.m, s.d, root, v);
      assert Prefix(v, 1) == v / 512;
      AncestorsIn(s.m, s.d, root, v, level);
    }
  }

  // --- runs without leftover words ------------------------------------------------------------

  ghost predicate AllTidy(s: State) {
    forall root: nat :: Key(root, LEVELS, 0) in s.d ==> Tidy(s.m, s.d, root)
  }

  lemma StepStaysTidy(code: Code, s0: State, s1: State, op: Op, root: nat)
    requires Does(code, s0, op, s1) && HasSpace(s0, root)
    ensures HasSpace(s1, root)
  {
    match op
    case Create(r) => StaysTidy(s0.m, s0.d, s1.m, s1.d, root);
    case Copy(source, target) => CopyKeepsTidy(code, s0, s1, source, target, root);
    case Map(r, pages, space, flags, mapped, placed) =>
      MapKeepsTidy(code, s0, s1, r, pages, space, flags, Some(mapped), placed, root);
  }

  /** A space that has been created, and not copied, never has a leftover word. So it can always be
      copied, whatever has been mapped and copied since. */
  lemma {:induction false} CreatedStaysTidy(code: Code, states: seq<State>, ops: seq<Op>, i: nat, n: nat)
    requires Runs(code, states, ops) && i < n <= |ops| && ops[i].Create?
    ensures HasSpace(states[n], ops[i].root)
  {
    hide HasSpace, SpaceAdded, TablesOk;
    assert Does(code, states[n - 1], ops[n - 1], states[n]);
    if n == i + 1 {
      CreatedHasSpace(code, states[i], states[n], ops[i]);
    } else {
      hide Does;
      CreatedStaysTidy(code, states, ops, i, n - 1);
      StepStaysTidy(code, states[n - 1], states[n], ops[n - 1], ops[i].root);
    }
  }

  lemma AddedHasSpace(s0: State, s1: State, root: nat)
    requires SpaceAdded(s0, s1, root)
    ensures HasSpace(s1, root)
  {
  }

  lemma CreatedHasSpace(code: Code, s0: State, s1: State, op: Op)
    requires op.Create? && Does(code, s0, op, s1)
    ensures HasSpace(s1, op.root)
  {
  }

  lemma NewRoots(code: Code, s0: State, s1: State, op: Op, root: nat)
    requires Does(code, s0, op, s1) && Key(root, LEVELS, 0) in s1.d && Key(root, LEVELS, 0) !in s0.d
    ensures op == Create(root) || (op.Copy? && op.target == root)
  {
    hide Mapped, Paid, HasWanted, UnusedKept, StaleBetween, FramesUsed;
    hide RootTidy, LeavesDoubled, EntriesKept, Tidy, LeafEnd, Grown;
    if op.Map? {
      SameRoots(s0, s1, op.root, op.pages.start, VisitEnd(op.pages, First(1, LEVELS)));
    }
  }

  /** One call leaves all spaces without leftover words exactly if it is no copy that goes wrong. */
  lemma StepTidyExactlyWhen(code: Code, s0: State, s1: State, op: Op)
    requires Does(code, s0, op, s1) && TablesOk(s0) && AllTidy(s0)
    ensures TablesOk(s1)
    ensures AllTidy(s1) <==> (op.Copy? ==> WillBeTidy(code, s0, op.source))
  {
    hide CopyOf, MapResult, Tidy, TablesOk, WillBeTidy, SpaceAdded;
    StepHasTables(code, s0, s1, op);
    if op.Copy? {
      CopyTidyExactlyWhen(code, s0, s1, op.source, op.target);
      CopyHasRoot(code, s0, s1, op.source, op.target);
    }
    if op.Copy? ==> WillBeTidy(code, s0, op.source) {
      forall root: nat | Key(root, LEVELS, 0) in s1.d
        ensures Tidy(s1.m, s1.d, root)
      {
        if Key(root, LEVELS, 0) in s0.d {
          StepStaysTidy(code, s0, s1, op, root);
        } else {
          NewRoots(code, s0, s1, op, root);
          if op.Create? {
            AddedHasSpace(s0, s1, root);
          }
        }
      }
    }
  }

  lemma StepHasTables(code: Code, s0: State, s1: State, op: Op)
    requires Does(code, s0, op, s1)
    ensures TablesOk(s1)
  {
  }

  lemma CopyHasRoot(code: Code, s0: State, s1: State, source: nat, target: nat)
    requires HasSpace(s0, source) && CopyOf(code, s0, s1, source, target)
    ensures Key(target, LEVELS, 0) in s1.d
  {
    CopiedKey(s0.d, s1.d, source, target, Key(target, LEVELS, 0));
  }

  /** The spaces have no leftover words in any state up to the `n`-th if and only if no copy up to
      there leaves one, which is foreseen from the state before it. */
  lemma {:induction false} RunTidyExactlyWhen(code: Code, states: seq<State>, ops: seq<Op>, n: nat)
    requires Runs(code, states, ops) && n <= |ops|
    ensures TablesOk(states[n])
    ensures (forall i :: 0 <= i <= n ==> AllTidy(states[i]))
       <==> forall i :: 0 <= i < n && ops[i].Copy? ==> WillBeTidy(code, states[i], ops[i].source)
  {
    hide AllTidy, WillBeTidy, TablesOk, Does;
    if n > 0 {
      RunTidyExactlyWhen(code, states, ops, n - 1);
      assert Does(code, states[n - 1], ops[n - 1], states[n]);
      StepHasTables(code, states[n - 1], states[n], ops[n - 1]);
      if forall i :: 0 <= i <= n - 1 ==> AllTidy(states[i]) {
        assert AllTidy(states[n - 1]);
        StepTidyExactlyWhen(code, states[n - 1], states[n], ops[n - 1]);
        assert forall i :: 0 <= i <= n && AllTidy(states[n]) ==> AllTidy(states[i]);
      }
    } else {
      NothingLeft(states[0]);
    }
  }

  lemma NothingLeft(s: State)
    requires s.d == map[]
    ensures AllTidy(s)
  {
  }

  // --- runs without stray entries -------------------------------------------------------------

  ghost predicate AllStraight(s: State) {
    forall root: nat :: Key(root, LEVELS, 0) in s.d ==> Straight(s.m, s.d, root)
  }

  lemma StepStaysStraight(code: Code, s0: State, s1: State, op: Op, root: nat)
    requires Does(code, s0, op, s1) && Straight(s0.m, s0.d, root) && Key(root, LEVELS, 0) in s0.d
    ensures Straight(s1.m, s1.d, root)
  {
    hide LeavesDoubled, RootTidy, StaleBetween, CountKept, FramesUsed, Order, TablesOk, Tidy, Passable, Straight;
    hide LeavesSet, Placement, Paid, HasWanted, SameLeaves, UnusedKept, NewZeroed;
    StaysStraight(s0.m, s0.d, s1.m, s1.d, root);
  }

  lemma StepStraightExactlyWhen(code: Code, s0: State, s1: State, op: Op)
    requires Does(code, s0, op, s1) && TablesOk(s0) && AllStraight(s0)
    ensures AllStraight(s1) <==> (op.Copy? ==> WillBeStraight(code, s0, op.source))
  {
    hide CopyOf, MapResult, Straight, TablesOk, WillBeStraight, SpaceAdded;
    if op.Copy? {
      CopyStraightExactlyWhen(code, s0, s1, op.source, op.target);
      CopyHasRoot(code, s0, s1, op.source, op.target);
    }
    if op.Copy? ==> WillBeStraight(code, s0, op.source) {
      forall root: nat | Key(root, LEVELS, 0) in s1.d
        ensures Straight(s1.m, s1.d, root)
      {
        if Key(root, LEVELS, 0) in s0.d {
          StepStaysStraight(code, s0, s1, op, root);
        } else {
          NewRoots(code, s0, s1, op, root);
          if op.Create? {
            AddedHasSpace(s0, s1, root);
            TidyExactlyWhenZero(s1.m, s1.d, root);
          }
        }
      }
    }
  }

  /** No space has a stray entry in any state up to the `n`-th if and only if no copy up to there
      gets one, which is foreseen from the counts of the free blocks and from what memory holds
      before it. */
  lemma {:induction false} RunStraightExactlyWhen(code: Code, states: seq<State>, ops: seq<Op>, n: nat)
    requires Runs(code, states, ops) && n <= |ops|
    ensures TablesOk(states[n])
    ensures (forall i :: 0 <= i <= n ==> AllStraight(states[i]))
       <==> forall i :: 0 <= i < n && ops[i].Copy? ==> WillBeStraight(code, states[i], ops[i].source)
  {
    hide AllStraight, WillBeStraight, TablesOk, Does;
    if n > 0 {
      RunStraightExactlyWhen(code, states, ops, n - 1);
      assert Does(code, states[n - 1], ops[n - 1], states[n]);
      StepHasTables(code, states[n - 1], states[n], ops[n - 1]);
      if forall i :: 0 <= i <= n - 1 ==> AllStraight(states[i]) {
        assert AllStraight(states[n - 1]);
        StepStraightExactlyWhen(code, states[n - 1], states[n], ops[n - 1]);
        assert forall i :: 0 <= i <= n && AllStraight(states[n]) ==> AllStraight(states[i]);
      }
    } else {
      NothingStray(states[0]);
    }
  }

  lemma NothingStray(s: State)
    requires s.d == map[]
    ensures AllStraight(s)
  {
  }

  /** With zeroed tables, every page of every space is translated as the book says, in every state
      of every run; as written, it is in every run in which no copy gets a stray entry. */
  lemma RunAgreesWithBook(code: Code, states: seq<State>, ops: seq<Op>, n: nat, root: nat, v: nat)
    requires Runs(code, states, ops) && n <= |ops| && root in BookOf(ops, n) && v < SPACE_END
    requires forall i :: 0 <= i < n && ops[i].Copy? ==> WillBeStraight(code, states[i], ops[i].source)
    ensures Translate(states[n].m, root, v) == Lookup(BookOf(ops, n), root, v)
  {
    RunStraightExactlyWhen(code, states, ops, n);
    RunTranslates(code, states, ops, n, root, v);
    hide Runs, WillBeStraight, TablesOk, NoStray, BookOf, Straight;
    assert AllStraight(states[n]);
    StraightHasNoStray(states[n].m, states[n].d, root, v);
  }

  lemma IntendedRunAgreesWithBook(states: seq<State>, ops: seq<Op>, n: nat, root: nat, v: nat)
    requires Runs(Intended, states, ops) && n <= |ops| && root in BookOf(ops, n) && v < SPACE_END
    ensures Translate(states[n].m, root, v) == Lookup(BookOf(ops, n), root, v)
  {
    RunAgreesWithBook(Intended, states, ops, n, root, v);
  }
}
