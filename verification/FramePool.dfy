/** Runs of the page-frame allocator: who owns which frame after any sequence of allocations
and frees (os/kernel/src/memory/physical.rs:76-93, 215-281). */
module FramePool {
  import opened Ranges
  import opened BlockLists

  datatype Space = Kernel | User

  /** Both free lists, the kernel limit, the end of physical memory, and the non-empty ranges
      that callers hold. */
  datatype Pool = Pool(kernel: seq<Range>, user: seq<Range>, limit: nat, size: nat, live: seq<Range>)

  /** `Free(i)` gives back the `i`-th range that is currently allocated. */
  datatype Op = Alloc(frameCount: nat, space: Space) | Free(i: nat)

  /** `AsWritten` is `free_block` of the repository; `Relinked` is what its comment promises. */
  datatype Code = AsWritten | Relinked

  function FreeBy(code: Code, blocks: seq<Range>, r: Range): seq<Range> {
    if code.AsWritten? then BlockLists.Free(blocks, r) else FreeRelinked(blocks, r)
  }

  function ListOf(p: Pool, space: Space): seq<Range> {
    if space.Kernel? then p.kernel else p.user
  }

  function WithList(p: Pool, space: Space, blocks: seq<Range>): Pool {
    if space.Kernel? then p.(kernel := blocks) else p.(user := blocks)
  }

  /** The list that `free` chooses. */
  function Side(p: Pool, r: Range): Space {
    if r.start < p.limit then Kernel else User
  }

  function Lo(p: Pool, space: Space): nat {
    if space.Kernel? then 1 else p.limit
  }

  function Hi(p: Pool, space: Space): nat {
    if space.Kernel? then p.limit else p.size
  }

  /** Both lists are sorted and free of overlaps, the kernel list lies wholly below the limit
      and the user list wholly at or above it, and no allocated range crosses the limit. */
  ghost predicate WellFormed(p: Pool) {
    && 1 <= p.limit <= p.size
    && (forall space :: Ascending(ListOf(p, space)) && Within(ListOf(p, space), Lo(p, space), Hi(p, space)))
    && (forall i :: 0 <= i < |p.live| ==> OnOneSide(p, p.live[i]))
  }

  ghost predicate OnOneSide(p: Pool, r: Range) {
    r.start < r.end && Lo(p, Side(p, r)) <= r.start && r.end <= Hi(p, Side(p, r))
  }

  /** One call; `None` where the kernel stops (out of memory) and where a caller frees
      something that it does not hold. */
  function Step(code: Code, p: Pool, op: Op): Option<Pool> {
    match op
    case Alloc(n, space) =>
      var blocks := ListOf(p, space);
      var k := FirstFit(blocks, n);
      if k == |blocks| then None
      else
        var got := Range(blocks[k].start, blocks[k].start + n);
        Some(WithList(p, space, Take(blocks, k, n)).(live := if n > 0 then p.live + [got] else p.live))
    case Free(i) =>
      if i >= |p.live| then None
      else
        var r := p.live[i];
        Some(WithList(p, Side(p, r), FreeBy(code, ListOf(p, Side(p, r)), r)).(live := Remove(p.live, i)))
  }

  /** How many owners frame `f` has: the two free lists and the callers. */
  function Owners(p: Pool, f: nat): nat {
    Cover(p.kernel, f) + Cover(p.user, f) + Cover(p.live, f)
  }

  /** No frame has two owners, all owned frames are among `given`, and an empty node, which
      owns no frame but lies in one, lies outside of `given`. */
  ghost predicate Safe(p: Pool, given: seq<Range>) {
    && WellFormed(p)
    && (forall f: nat :: Owners(p, f) <= Cover(given, f) <= 1)
    && EmptyNodesOutside(p, given)
  }

  ghost predicate EmptyNodesOutside(p: Pool, given: seq<Range>) {
    forall space, i :: 0 <= i < |ListOf(p, space)| && ListOf(p, space)[i].Count() == 0
      ==> Cover(given, ListOf(p, space)[i].start) == 0
  }

  ghost predicate SameOwners(p: Pool, p1: Pool) {
    forall f: nat :: Owners(p1, f) == Owners(p, f)
  }

  ghost predicate NoFrames(rs: seq<Range>) {
    forall f: nat :: Cover(rs, f) == 0
  }

  /** A range whose frames the list does not own can be freed into it. */
  lemma ClearByCover(blocks: seq<Range>, r: Range)
    requires Ascending(blocks) && r.start < r.end
    requires forall f: nat :: r.Has(f) ==> Cover(blocks, f) == 0
    requires forall i :: 0 <= i < |blocks| && blocks[i].Count() == 0 ==> !r.Has(blocks[i].start)
    ensures Relinkable(blocks, r)
  {
    forall i | 0 <= i < |blocks|
      ensures blocks[i].Top() <= r.start || r.end <= blocks[i].start
    {
      if blocks[i].Count() > 0 {
        var f := if blocks[i].start < r.start then r.start else blocks[i].start;
        if blocks[i].Has(f) {
          CoverMember(blocks, i, f);
        }
      }
    }
  }

  lemma LiveIsFreeable(p: Pool, given: seq<Range>, i: nat)
    requires Safe(p, given) && i < |p.live|
    ensures forall space :: Relinkable(ListOf(p, space), p.live[i])
  {
    var r := p.live[i];
    forall f: nat | r.Has(f)
      ensures Owners(p, f) == 1 && Cover(p.live, f) == 1 && Cover(given, f) == 1
    {
      CoverMember(p.live, i, f);
    }
    forall space {
      ClearByCover(ListOf(p, space), r);
    }
  }

  /** Allocation creates no empty node. */
  lemma TakeKeepsEmptyNodes(blocks: seq<Range>, k: nat, n: nat)
    requires Ascending(blocks) && k < |blocks| && n <= blocks[k].Count()
    ensures forall b :: b in Take(blocks, k, n) && b.Count() == 0 ==> b in blocks
  {
    TakeInPlace(blocks, k, n);
  }

  lemma AllocOwners(code: Code, p: Pool, n: nat, space: Space, f: nat)
    requires WellFormed(p) && Step(code, p, Alloc(n, space)).Some?
    ensures Owners(Step(code, p, Alloc(n, space)).value, f) == Owners(p, f)
  {
    var blocks := ListOf(p, space);
    var k := FirstFit(blocks, n);
    var got := Range(blocks[k].start, blocks[k].start + n);
    TakeCover(blocks, k, n, f);
    CoverConcat(p.live, [got], f);
    CoverSingle(got, f);
  }

  lemma AllocWellFormed(code: Code, p: Pool, n: nat, space: Space)
    requires WellFormed(p) && Step(code, p, Alloc(n, space)).Some?
    ensures WellFormed(Step(code, p, Alloc(n, space)).value)
  {
    var blocks := ListOf(p, space);
    var k := FirstFit(blocks, n);
    var p1 := Step(code, p, Alloc(n, space)).value;
    TakeAscending(blocks, k, n);
    TakeWithin(blocks, k, n, Lo(p, space), Hi(p, space));
    assert forall s :: ListOf(p1, s) == if s == space then Take(blocks, k, n) else ListOf(p, s);
    forall i | 0 <= i < |p1.live|
      ensures OnOneSide(p1, p1.live[i])
    {
      assert i < |p.live| ==> OnOneSide(p, p.live[i]);
    }
  }

  lemma AllocStep(code: Code, p: Pool, n: nat, space: Space, given: seq<Range>)
    requires Safe(p, given) && Step(code, p, Alloc(n, space)).Some?
    ensures Safe(Step(code, p, Alloc(n, space)).value, given)
    ensures forall f: nat :: Owners(Step(code, p, Alloc(n, space)).value, f) == Owners(p, f)
  {
    var p1 := Step(code, p, Alloc(n, space)).value;
    AllocWellFormed(code, p, n, space);
    forall f: nat
      ensures Owners(p1, f) == Owners(p, f)
    {
      AllocOwners(code, p, n, space, f);
    }
    TakeKeepsEmptyNodes(ListOf(p, space), FirstFit(ListOf(p, space), n), n);
    EmptyNodesStayOutside(p, p1, given);
  }

  lemma EmptyNodesStayOutside(p: Pool, p1: Pool, given: seq<Range>)
    requires EmptyNodesOutside(p, given)
    requires forall space, b :: b in ListOf(p1, space) && b.Count() == 0 ==> b in ListOf(p, space)
    ensures EmptyNodesOutside(p1, given)
  {
    forall space, i | 0 <= i < |ListOf(p1, space)| && ListOf(p1, space)[i].Count() == 0
      ensures Cover(given, ListOf(p1, space)[i].start) == 0
    {
      assert ListOf(p1, space)[i] in ListOf(p, space);
    }
  }

  lemma InsertMembers(blocks: seq<Range>, r: Range, b: Range)
    requires Ascending(blocks) && b in Insert(blocks, r)
    ensures b in blocks || b == r
  {
    var k := InsertPosition(blocks, r);
  }

  lemma FreeMembers(code: Code, blocks: seq<Range>, r: Range, b: Range)
    requires Ascending(blocks) && r.start < r.end && b in FreeBy(code, blocks, r) && b.Count() == 0
    ensures b in blocks
  {
    hide Insert, FuseAt;
    match Outcome(blocks, r)
    case Neither => InsertMembers(blocks, r, b);
    case Bottom =>
    case Top =>
  }

  lemma FreeKeepsEmptyNodes(code: Code, blocks: seq<Range>, r: Range)
    requires Ascending(blocks) && r.start < r.end
    ensures forall b :: b in FreeBy(code, blocks, r) && b.Count() == 0 ==> b in blocks
  {
    hide *;
    forall b | b in FreeBy(code, blocks, r) && b.Count() == 0
      ensures b in blocks
    {
      FreeMembers(code, blocks, r, b);
    }
  }

  /** The frames that one call loses: only `free` as written loses any. */
  function Leak(code: Code, p: Pool, i: nat): seq<Range>
    requires i < |p.live|
  {
    if code.AsWritten? then Lost(ListOf(p, Side(p, p.live[i])), p.live[i]) else []
  }

  lemma FreeByCover(code: Code, blocks: seq<Range>, r: Range, f: nat)
    requires Ascending(blocks) && Freeable(blocks, r) && (code.AsWritten? || Relinkable(blocks, r))
    ensures Cover(FreeBy(code, blocks, r), f) + (if code.AsWritten? then Cover(Lost(blocks, r), f) else 0)
      == Cover(blocks, f) + One(r, f)
  {
    if code.AsWritten? {
      FreeCover(blocks, r, f);
    } else {
      FreeRelinkedCover(blocks, r, f);
    }
  }

  lemma FreeOwners(code: Code, p: Pool, i: nat, f: nat)
    requires WellFormed(p) && Step(code, p, Free(i)).Some?
    requires Relinkable(ListOf(p, Side(p, p.live[i])), p.live[i])
    ensures Owners(Step(code, p, Free(i)).value, f) + Cover(Leak(code, p, i), f) == Owners(p, f)
  {
    assert OnOneSide(p, p.live[i]);
    FreeByCover(code, ListOf(p, Side(p, p.live[i])), p.live[i], f);
    CoverAt(p.live, i, f);
    CoverConcat(p.live[..i], p.live[i + 1..], f);
  }

  lemma FreeListWellFormed(code: Code, blocks: seq<Range>, r: Range, lo: nat, hi: nat)
    requires Ascending(blocks) && Freeable(blocks, r) && Within(blocks, lo, hi) && Within([r], lo, hi)
    requires code.AsWritten? || Relinkable(blocks, r)
    ensures Ascending(FreeBy(code, blocks, r)) && Within(FreeBy(code, blocks, r), lo, hi)
  {
    if code.AsWritten? {
      FreeAscending(blocks, r);
      FreeWithin(blocks, r, lo, hi);
    } else {
      FreeRelinkedAscending(blocks, r);
      FreeRelinkedWithin(blocks, r, lo, hi);
    }
  }

  lemma FreeWellFormed(code: Code, p: Pool, i: nat)
    requires WellFormed(p) && Step(code, p, Free(i)).Some?
    requires Relinkable(ListOf(p, Side(p, p.live[i])), p.live[i])
    ensures WellFormed(Step(code, p, Free(i)).value)
  {
    var r := p.live[i];
    var space := Side(p, r);
    var p1 := Step(code, p, Free(i)).value;
    assert OnOneSide(p, r) && [r][0] == r;
    FreeListWellFormed(code, ListOf(p, space), r, Lo(p, space), Hi(p, space));
    assert forall s :: ListOf(p1, s) == if s == space then FreeBy(code, ListOf(p, space), r) else ListOf(p, s);
    forall j | 0 <= j < |p1.live|
      ensures OnOneSide(p1, p1.live[j])
    {
      assert OnOneSide(p, p.live[if j < i then j else j + 1]);
    }
  }

  lemma FreeStep(code: Code, p: Pool, i: nat, given: seq<Range>)
    requires Safe(p, given) && Step(code, p, Free(i)).Some?
    ensures Relinkable(ListOf(p, Side(p, p.live[i])), p.live[i])
    ensures Safe(Step(code, p, Free(i)).value, given)
    ensures forall f: nat ::
      Owners(Step(code, p, Free(i)).value, f) + Cover(Leak(code, p, i), f) == Owners(p, f)
  {
    var p1 := Step(code, p, Free(i)).value;
    LiveIsFreeable(p, given, i);
    FreeWellFormed(code, p, i);
    forall f: nat
      ensures Owners(p1, f) + Cover(Leak(code, p, i), f) == Owners(p, f)
    {
      FreeOwners(code, p, i, f);
    }
    FreeKeepsEmptyNodes(code, ListOf(p, Side(p, p.live[i])), p.live[i]);
    EmptyNodesStayOutside(p, p1, given);
  }

  lemma WithListWellFormed(p: Pool, space: Space, blocks: seq<Range>)
    requires WellFormed(p) && Ascending(blocks) && Within(blocks, Lo(p, space), Hi(p, space))
    ensures WellFormed(WithList(p, space, blocks))
  {
    var p1 := WithList(p, space, blocks);
    assert forall s :: ListOf(p1, s) == if s == space then blocks else ListOf(p, s);
    forall i | 0 <= i < |p1.live|
      ensures OnOneSide(p1, p1.live[i])
    {
      assert OnOneSide(p, p.live[i]);
    }
  }

  lemma StepAllocates(p: Pool, n: nat, space: Space, got: Option<Range>, blocks: seq<Range>)
    requires WellFormed(p) && p.live == [] && Allocates(ListOf(p, space), n, got, blocks)
    ensures Step(AsWritten, p, Alloc(n, space))
      == if got.None? then None
         else Some(WithList(p, space, blocks).(live := if n > 0 then [got.value] else []))
    ensures WellFormed(WithList(p, space, blocks))
    ensures got.Some? ==> Lo(p, space) <= got.value.start && got.value.end <= p.size
  {
    var k := FirstFit(ListOf(p, space), n);
    if k < |ListOf(p, space)| {
      assert p.live + [got.value] == [got.value];
      assert ListOf(p, space)[k].Top() <= Hi(p, space);
      TakeAscending(ListOf(p, space), k, n);
      TakeWithin(ListOf(p, space), k, n, Lo(p, space), Hi(p, space));
    }
    WithListWellFormed(p, space, blocks);
  }

  /** Taking a single frame, as the paging code does. */
  lemma AllocOne(code: Code, p: Pool, space: Space)
    requires WellFormed(p)
    ensures Step(code, p, Alloc(1, space)).Some? <==> Total(ListOf(p, space)) > 0
    ensures Step(code, p, Alloc(1, space)).Some? ==>
      var p1 := Step(code, p, Alloc(1, space)).value;
      && |p1.live| == |p.live| + 1
      && Granted(ListOf(p, space), ListOf(p1, space), p1.live[|p.live|])
      && p1.live[|p.live|].Count() == 1
      && Lo(p, space) <= p1.live[|p.live|].start < Hi(p, space)
  {
    var blocks := ListOf(p, space);
    OneFrameFits(blocks);
    var k := FirstFit(blocks, 1);
    if k < |blocks| {
      TakeTotal(blocks, k, 1);
      TakeFootprint(blocks, k, 1);
      TakeOneFrames(blocks, k);
      TakeOneRuns(blocks, k);
      assert Lo(p, space) <= blocks[k].start;
    }
  }

  /** The list has given up `got`: what it holds afterwards it held before, and no part of
      `got` is among it. */
  ghost predicate Granted(before: seq<Range>, after: seq<Range>, got: Range) {
    && Total(after) + got.Count() == Total(before)
    && (forall f: nat :: Footprint(after, f) ==> Footprint(before, f))
    && (forall f: nat :: got.Has(f) ==> Footprint(before, f) && !Footprint(after, f))
    && (got.Count() == 1 ==> Frames(before) == [got.start] + Frames(after) && RunsKept(before, after))
  }

  /** One frame moves from the list of `space` to the caller, or there is none. */
  ghost predicate GrantsOne(p: Pool, space: Space, got: Option<Range>, p1: Pool) {
    && (got.None? ==> Total(ListOf(p, space)) == 0 && p1 == p)
    && (got.Some? ==> got.value.Count() == 1 && got.value.end <= p.size)
    && (got.Some? ==> Granted(ListOf(p, space), ListOf(p1, space), got.value))
    && (space.Kernel? ==> p1.user == p.user)
    && (space.User? ==> p1.kernel == p.kernel)
  }

  lemma StepGrantsOne(p: Pool, space: Space, got: Option<Range>, p1: Pool)
    requires WellFormed(p) && p.live == [] && p1.live == []
    requires Step(AsWritten, p, Alloc(1, space)) == if got.None? then None else Some(p1.(live := [got.value]))
    requires got.None? ==> p1 == p
    ensures GrantsOne(p, space, got, p1)
    ensures var list := ListOf(p, space);
      got.Some? ==> FirstFit(list, 1) < |list| && list[FirstFit(list, 1)].Count() == RunFrom(list, got.value.start)
  {
    AllocOne(AsWritten, p, space);
    if got.Some? {
      TakeOneRuns(ListOf(p, space), FirstFit(ListOf(p, space), 1));
      var p2 := Step(AsWritten, p, Alloc(1, space)).value;
      assert p2.live[0] == got.value && ListOf(p2, space) == ListOf(p1, space);
    }
  }

  // --- whole runs -------------------------------------------------------------------------

  /** The state after a sequence of calls, or `None` if one of them stops the run. */
  function Run(code: Code, p: Pool, ops: seq<Op>): Option<Pool>
    decreases |ops|
  {
    if ops == [] then Some(p)
    else
      var next := Step(code, p, ops[0]);
      if next.None? then None else Run(code, next.value, ops[1..])
  }

  lemma OneStep(code: Code, p: Pool, op: Op, given: seq<Range>)
    requires Safe(p, given) && Step(code, p, op).Some?
    ensures Safe(Step(code, p, op).value, given)
    ensures forall f: nat :: Owners(Step(code, p, op).value, f) <= Owners(p, f)
    ensures code.Relinked? || op.Alloc? ==> SameOwners(p, Step(code, p, op).value)
  {
    match op
    case Alloc(n, space) => AllocStep(code, p, n, space, given);
    case Free(i) =>
      FreeStep(code, p, i, given);
      assert forall f: nat :: Cover(Leak(Relinked, p, i), f) == 0;
  }

  /** No double ownership in any run of allocations and frees, for the code as written and for
      the relinked form alike. */
  lemma {:induction false} RunSafe(code: Code, p: Pool, ops: seq<Op>, given: seq<Range>)
    requires Safe(p, given) && Run(code, p, ops).Some?
    ensures Safe(Run(code, p, ops).value, given)
    ensures forall f: nat :: Owners(Run(code, p, ops).value, f) <= Owners(p, f)
    decreases |ops|
  {
    if ops != [] {
      var next := Step(code, p, ops[0]).value;
      OneStep(code, p, ops[0], given);
      RunSafe(code, next, ops[1..], given);
    }
  }

  /** What `Safe` means to the callers: each holds its frames alone, and no frame of theirs
      holds a node of either list. */
  lemma SafeMeansSole(p: Pool, given: seq<Range>, i: nat, f: nat)
    requires Safe(p, given) && i < |p.live| && p.live[i].Has(f)
    ensures Cover(given, f) == 1
    ensures forall j :: 0 <= j < |p.live| && j != i ==> !p.live[j].Has(f)
    ensures forall space :: !Footprint(ListOf(p, space), f)
  {
    CoverMember(p.live, i, f);
    assert Owners(p, f) <= Cover(given, f) <= 1;
    forall j | 0 <= j < |p.live| && j != i
      ensures !p.live[j].Has(f)
    {
      CoverOnceIsDisjoint(p.live, if i < j then i else j, if i < j then j else i, f);
    }
    forall space
      ensures !Footprint(ListOf(p, space), f)
    {
      UntouchedByList(ListOf(p, space), f);
      assert Cover(ListOf(p, space), f) == 0;
      forall k | 0 <= k < |ListOf(p, space)| && ListOf(p, space)[k].Count() == 0
        ensures ListOf(p, space)[k].start != f
      {
        assert Cover(given, ListOf(p, space)[k].start) == 0;
      }
    }
  }

  lemma UntouchedByList(blocks: seq<Range>, f: nat)
    ensures Cover(blocks, f) == 0
      && (forall k :: 0 <= k < |blocks| && blocks[k].Count() == 0 ==> blocks[k].start != f)
      ==> !Footprint(blocks, f)
  {
    if Footprint(blocks, f) {
      var k :| 0 <= k < |blocks| && blocks[k].Touches(f);
      if blocks[k].Count() > 0 {
        CoverMember(blocks, k, f);
      }
    }
  }

  predicate AllocsOnly(ops: seq<Op>) {
    forall i :: 0 <= i < |ops| ==> ops[i].Alloc?
  }

  /** Frame conservation: allocations never change who owns how much in all, and with the
      relinked `free_block` neither does any interleaving of allocations and frees. */
  lemma {:induction false} RunConserves(code: Code, p: Pool, ops: seq<Op>, given: seq<Range>)
    requires Safe(p, given) && Run(code, p, ops).Some?
    requires code.Relinked? || AllocsOnly(ops)
    ensures SameOwners(p, Run(code, p, ops).value)
    decreases |ops|
  {
    if ops != [] {
      var next := Step(code, p, ops[0]).value;
      OneStep(code, p, ops[0], given);
      RunConserves(code, next, ops[1..], given);
    }
  }

  /** Every `free` of the run meets a list that `free_block` as written does not cut short. */
  ghost predicate KeepsAllAlong(p: Pool, ops: seq<Op>)
    requires Run(AsWritten, p, ops).Some?
    decreases |ops|
  {
    ops == [] ||
      ((ops[0].Free? ==> KeepsAll(ListOf(p, Side(p, p.live[ops[0].i])), p.live[ops[0].i]))
        && KeepsAllAlong(Step(AsWritten, p, ops[0]).value, ops[1..]))
  }

  /** As written, a run conserves frames exactly when each of its frees does: what one call
      loses, no later call brings back. */
  lemma {:induction false} RunConservesExactlyWhen(p: Pool, ops: seq<Op>, given: seq<Range>)
    requires Safe(p, given) && Run(AsWritten, p, ops).Some?
    ensures KeepsAllAlong(p, ops)
       <==> SameOwners(p, Run(AsWritten, p, ops).value)
    decreases |ops|
  {
    if ops != [] {
      var next := Step(AsWritten, p, ops[0]).value;
      var last := Run(AsWritten, next, ops[1..]).value;
      OneStep(AsWritten, p, ops[0], given);
      RunSafe(AsWritten, next, ops[1..], given);
      RunConservesExactlyWhen(next, ops[1..], given);
      SandwichedOwners(p, next, last);
      if ops[0].Free? {
        StepConservesExactlyWhen(p, ops[0].i, given);
      }
    }
  }

  lemma SandwichedOwners(p: Pool, next: Pool, last: Pool)
    requires forall f: nat :: Owners(last, f) <= Owners(next, f)
    requires forall f: nat :: Owners(next, f) <= Owners(p, f)
    ensures SameOwners(p, last) <==> SameOwners(p, next) && SameOwners(next, last)
  {
    if SameOwners(p, last) {
      forall f: nat
        ensures Owners(next, f) == Owners(p, f) == Owners(last, f)
      {
        assert Owners(last, f) == Owners(p, f);
      }
    }
  }

  lemma StepConservesExactlyWhen(p: Pool, i: nat, given: seq<Range>)
    requires Safe(p, given) && i < |p.live|
    ensures KeepsAll(ListOf(p, Side(p, p.live[i])), p.live[i])
       <==> SameOwners(p, Step(AsWritten, p, Free(i)).value)
  {
    FreeStep(AsWritten, p, i, given);
    assert OnOneSide(p, p.live[i]);
    LeaksExactlyUnless(ListOf(p, Side(p, p.live[i])), p.live[i]);
    NoLeakNoChange(Leak(AsWritten, p, i), p, Step(AsWritten, p, Free(i)).value);
  }

  lemma NoLeakNoChange(leak: seq<Range>, p: Pool, p1: Pool)
    requires forall f: nat :: Owners(p1, f) + Cover(leak, f) == Owners(p, f)
    ensures NoFrames(leak) <==> SameOwners(p, p1)
  {
    forall f: nat
      ensures Cover(leak, f) == 0 <==> Owners(p1, f) == Owners(p, f)
    {
    }
  }

  lemma LeaksExactlyUnless(blocks: seq<Range>, r: Range)
    requires Ascending(blocks) && Relinkable(blocks, r) && r.start < r.end
    ensures KeepsAll(blocks, r) <==> NoFrames(Lost(blocks, r))
  {
    if KeepsAll(blocks, r) {
      forall f: nat {
        KeepsAllSuffices(blocks, r, f);
      }
    } else {
      var f := LosesOtherwise(blocks, r);
    }
  }
}
