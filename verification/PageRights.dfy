/** What the mapping of a page permits. A processor lets a page be written, or be accessed in user
mode, only if all entries that the walk to it reads say so (section 4.6 of the Intel SDM, Volume 3A). */
module PageRights {
  import opened Ranges
  import opened PhysMemory
  import opened PageTables
  import opened PagingSteps
  import opened TableCopies
  import opened PagingTheorems
  import opened CopyTheorems
  import FramePool

  predicate PermitsWrites(w: Word) {
    w.flags / 2 % 2 == 1
  }

  predicate PermitsUsers(w: Word) {
    w.flags / 4 % 2 == 1
  }

  datatype Rights = Rights(writable: bool, user: bool)

  /** The rights that one entry leaves. */
  function Own(w: Word): Rights {
    Rights(PermitsWrites(w), PermitsUsers(w))
  }

  function Both(a: Rights, b: Rights): Rights {
    Rights(a.writable && b.writable, a.user && b.user)
  }

  /** The entry points to a table in frame `f` and takes no rights away. */
  predicate LeadsTo(w: Word, f: nat) {
    w.frame == f && Present(w) && PermitsWrites(w) && PermitsUsers(w)
  }

  /** The rights that a walk from `table` finds for page `v`; `None` if it meets an entry that is
      not present. */
  function WalkRights(m: seq<PageFrame>, table: nat, level: nat, v: nat): Option<Rights>
    requires level >= 1
    decreases level
  {
    if table >= |m| then None
    else
      var entry := m[table][PageTableIndex(v, level)];
      if !Present(entry) then None
      else if level == 1 then Some(Own(entry))
      else
        var below := WalkRights(m, entry.frame, level - 1, v);
        if below.None? then None else Some(Both(Own(entry), below.value))
  }

  function RightsOf(m: seq<PageFrame>, root: nat, v: nat): Option<Rights> {
    WalkRights(m, root, LEVELS, v)
  }

  /** The rights that a level-1 entry gives if those above it take none away. */
  function LeafRights(leaf: Word): Option<Rights> {
    if Present(leaf) then Some(Own(leaf)) else None
  }

  /** The entries above a level-1 table take no rights away. */
  lemma {:induction false} WalkRightsToLeaf(m: seq<PageFrame>, d: Directory, root: nat, v: nat, level: nat)
    requires Links(m, d) && 1 <= level <= LEVELS && Key(root, 1, Prefix(v, 1)) in d
    ensures Key(root, level, Prefix(v, level)) in d
    ensures WalkRights(m, d[Key(root, level, Prefix(v, level))], level, v) == LeafRights(Leaf(m, d, root, v))
  {
    AncestorsIn(m, d, root, v, level);
    var k := Key(root, level, Prefix(v, level));
    assert Linked(m, d, k);
    if level > 1 {
      WalkRightsToLeaf(m, d, root, v, level - 1);
      var child := Key(root, level - 1, Prefix(v, level - 1));
      assert Linked(m, d, child) && Up(child) == k;
    } else {
      assert Prefix(v, 1) == v / 512 && PageTableIndex(v, 1) == v % 512;
    }
  }

  lemma {:induction false} WalkRightsToNothing(m: seq<PageFrame>, d: Directory, root: nat, v: nat, level: nat)
    requires Links(m, d) && NoStray(m, d, root, v) && 1 <= level <= LEVELS
    requires Key(root, 1, Prefix(v, 1)) !in d && Key(root, level, Prefix(v, level)) in d
    ensures WalkRights(m, d[Key(root, level, Prefix(v, level))], level, v) == None
  {
    var k := Key(root, level, Prefix(v, level));
    assert Linked(m, d, k);
    var child := Key(root, level - 1, Prefix(v, level - 1));
    if child in d {
      WalkRightsToNothing(m, d, root, v, level - 1);
      assert Linked(m, d, child) && Up(child) == k;
    } else {
      assert StopsAt(m, d, root, v, level);
    }
  }

  /** The rights of a page are those of its level-1 entry, which alone is set by `map`. */
  lemma RightsAreThoseOfLeaf(s: State, root: nat, v: nat)
    requires HasRoot(s, root) && NoStray(s.m, s.d, root, v) && v < SPACE_END
    ensures RightsOf(s.m, root, v) == LeafRights(Leaf(s.m, s.d, root, v))
  {
    SpaceEnd();
    TablesLinked(s);
    PrefixBelow(v, 1, LEVELS);
    assert Linked(s.m, s.d, Key(root, LEVELS, 0));
    assert Prefix(v, 1) == v / 512;
    hide NoStray, TablesOk, WalkRights;
    if Key(root, 1, Prefix(v, 1)) in s.d {
      WalkRightsToLeaf(s.m, s.d, root, v, LEVELS);
    } else {
      WalkRightsToNothing(s.m, s.d, root, v, LEVELS);
    }
  }

  /** Whoever can use the page can write it and reach it in user mode, as far as the flags say so. */
  function FlagRights(flags: nat): Option<Rights> {
    if flags % 2 == 1 then Some(Rights(flags / 2 % 2 == 1, flags / 4 % 2 == 1)) else None
  }

  /** After `map`, the rights of a page written are exactly those of the flags given, whatever
      tables there were on the way to it. All other pages keep theirs. */
  lemma MapGivesRights(code: Code, s0: State, s1: State, root: nat, pages: Range, space: FramePool.Space, flags: nat,
                       r: Option<nat>, placed: map<nat, nat>, other: nat, v: nat)
    requires HasRoot(s0, other) && TablesOk(s1) && v < SPACE_END
    requires MapResult(code, s0, s1, root, LEVELS, pages, First(1, LEVELS), space, flags, r, placed)
    requires NoStray(s0.m, s0.d, other, v) || (other == root && v in placed)
    ensures RightsOf(s1.m, other, v)
      == if other == root && v in placed then FlagRights(flags) else RightsOf(s0.m, other, v)
  {
    hide TablesOk, NoStray, Mapped, Grown, Leaf, RightsOf, HasWanted, Paid, LeafEnd;
    MappedKeeps(s0, s1, root, space, placed, flags, other, v);
    RightsAreThoseOfLeaf(s1, other, v);
    if NoStray(s0.m, s0.d, other, v) {
      RightsAreThoseOfLeaf(s0, other, v);
    }
  }

  /** A page that is mapped by the source of a copy has the same rights in the copy. */
  lemma CopyKeepsRights(code: Code, s0: State, s1: State, source: nat, target: nat, v: nat)
    requires HasSpace(s0, source) && CopyOf(code, s0, s1, source, target) && v < SPACE_END
    requires NoStray(s1.m, s1.d, target, v)
    ensures RightsOf(s1.m, target, v) == RightsOf(s0.m, source, v)
  {
    hide KeysDoubled, LeavesDoubled, UnusedKept, RootTidy, StaleBetween, CountKept, Tidy, Leaf, FramesUsed, Order;
    hide NoStray, TablesOk, RightsOf, Translate;
    TranslateInTidy(s0, source, v);
    CopiedLeaf(s0, s1, source, target, v);
    CopiedKey(s0.d, s1.d, source, target, Key(target, LEVELS, 0));
    RightsAreThoseOfLeaf(s0, source, v);
    RightsAreThoseOfLeaf(s1, target, v);
  }

  /** Copying changes no rights in any other space. */
  lemma CopyKeepsOthersRights(code: Code, s0: State, s1: State, source: nat, target: nat, other: nat, v: nat)
    requires CopyOf(code, s0, s1, source, target) && HasRoot(s0, other)
    requires v < SPACE_END && NoStray(s0.m, s0.d, other, v)
    ensures RightsOf(s1.m, other, v) == RightsOf(s0.m, other, v)
  {
    CopyKeepsOthers(code, s0, s1, source, target, other, v);
    assert Leaf(s1.m, s1.d, other, v) == Leaf(s0.m, s0.d, other, v);
    hide CopyOf, TablesOk, Leaf, NoStray, RightsOf;
    RightsAreThoseOfLeaf(s0, other, v);
    RightsAreThoseOfLeaf(s1, other, v);
  }

  /** Page `v` is translated alike, and with the same rights. */
  ghost predicate SameMapping(m0: seq<PageFrame>, root0: nat, m1: seq<PageFrame>, root1: nat, v: nat) {
    Translate(m1, root1, v) == Translate(m0, root0, v) && RightsOf(m1, root1, v) == RightsOf(m0, root0, v)
  }

  /** Whatever the first space maps, the second maps to the same frame with the same rights. */
  ghost predicate MapsAlike(m0: seq<PageFrame>, root0: nat, m1: seq<PageFrame>, root1: nat) {
    forall v: nat :: v < SPACE_END && Translate(m0, root0, v).Some? ==> SameMapping(m0, root0, m1, root1, v)
  }

  /** Page `v` is mapped to frame `f`, present, writable and accessible in user mode, and with no
      other flag set. */
  ghost predicate FullyMapped(m: seq<PageFrame>, root: nat, v: nat, f: nat) {
    && Translate(m, root, v) == Some(Word(f, 1 + 2 + 4))
    && RightsOf(m, root, v) == Some(Rights(true, true))
  }

  /** The mapping of page `v` as `map` makes it with these flags. */
  ghost predicate MappedWith(m: seq<PageFrame>, root: nat, v: nat, f: nat, flags: nat) {
    && Translate(m, root, v) == (if flags % 2 == 1 then Some(Word(f, flags)) else None)
    && RightsOf(m, root, v) == FlagRights(flags)
  }

  /** What `map` does to any page: translation and rights. */
  lemma MapMaps(code: Code, s0: State, s1: State, root: nat, pages: Range, space: FramePool.Space, flags: nat,
                r: Option<nat>, placed: map<nat, nat>, other: nat, v: nat)
    requires HasRoot(s0, other) && TablesOk(s1) && v < SPACE_END
    requires MapResult(code, s0, s1, root, LEVELS, pages, First(1, LEVELS), space, flags, r, placed)
    requires NoStray(s0.m, s0.d, other, v) || (other == root && v in placed)
    ensures HasRoot(s1, other) && NoStray(s1.m, s1.d, other, v)
    ensures if other == root && v in placed then MappedWith(s1.m, root, v, placed[v], flags)
            else SameMapping(s0.m, other, s1.m, other, v)
  {
    hide TablesOk, MapResult, Translate, RightsOf, NoStray;
    MapTranslates(code, s0, s1, root, pages, space, flags, r, placed, other, v);
    MapGivesRights(code, s0, s1, root, pages, space, flags, r, placed, other, v);
  }

  /** What copying does to a page that the source maps, and to any page of another space. */
  lemma CopyMaps(code: Code, s0: State, s1: State, source: nat, target: nat, v: nat)
    requires HasSpace(s0, source) && CopyOf(code, s0, s1, source, target) && v < SPACE_END
    requires Translate(s0.m, source, v).Some?
    ensures HasRoot(s1, target) && NoStray(s1.m, s1.d, target, v) && SameMapping(s0.m, source, s1.m, target, v)
  {
    hide HasSpace, CopyOf, Translate, RightsOf, NoStray;
    CopyPreservesMapped(code, s0, s1, source, target, v);
    CopyKeepsRights(code, s0, s1, source, target, v);
  }

  lemma CopyMapsAlike(code: Code, s0: State, s1: State, source: nat, target: nat)
    requires HasSpace(s0, source) && CopyOf(code, s0, s1, source, target)
    ensures MapsAlike(s0.m, source, s1.m, target)
  {
    hide HasSpace, CopyOf, Translate, SameMapping;
    forall v: nat | v < SPACE_END && Translate(s0.m, source, v).Some?
      ensures SameMapping(s0.m, source, s1.m, target, v)
    {
      CopyMaps(code, s0, s1, source, target, v);
    }
  }

  lemma CopyMapsOthers(code: Code, s0: State, s1: State, source: nat, target: nat, other: nat, v: nat)
    requires CopyOf(code, s0, s1, source, target) && HasSpace(s0, other) && v < SPACE_END
    ensures HasRoot(s1, other) && NoStray(s1.m, s1.d, other, v) && SameMapping(s0.m, other, s1.m, other, v)
  {
    hide CopyOf, Translate, RightsOf, NoStray;
    TidyHasNoStray(s0.m, s0.d, other, v);
    CopyKeepsOthers(code, s0, s1, source, target, other, v);
    CopyKeepsOthersRights(code, s0, s1, source, target, other, v);
  }

  lemma PlacedAreMapped(code: Code, s0: State, s1: State, root: nat, pages: Range, space: FramePool.Space, flags: nat,
                        r: Option<nat>, placed: map<nat, nat>)
    requires HasRoot(s0, root) && TablesOk(s1)
    requires MapResult(code, s0, s1, root, LEVELS, pages, First(1, LEVELS), space, flags, r, placed)
    ensures forall v :: v in placed && v < SPACE_END ==> MappedWith(s1.m, root, v, placed[v], flags)
  {
    hide HasRoot, TablesOk, MapResult, Translate, RightsOf;
    forall v | v in placed && v < SPACE_END
      ensures MappedWith(s1.m, root, v, placed[v], flags)
    {
      MapMaps(code, s0, s1, root, pages, space, flags, r, placed, root, v);
    }
  }

  /** The entry for a table leads to it. */
  lemma EntryLeads(s: State, k: Key, i: nat)
    requires TablesOk(s) && k in s.d && k.level > 1 && i < 512 && Down(k, i) in s.d
    ensures s.d[k] < |s.m| && LeadsTo(s.m[s.d[k]][i], s.d[Down(k, i)])
  {
    assert Linked(s.m, s.d, k) && Linked(s.m, s.d, Down(k, i));
    UpDown(k, i);
  }
}
