/** The free list as a sequence of blocks: what one operation of the page-frame allocator
does to the list, and what that means for the frames the list owns.

The functions follow os/kernel/src/memory/physical.rs:176-281 as written; the methods of
`FreeLists.PageFrameListAllocator` are proved to perform them on the linked nodes. */
module BlockLists {
  import opened Ranges

  // --- insert ---------------------------------------------------------------------------

  /** Sorted insertion: before the first block that starts above the new one. */
  function Insert(blocks: seq<Range>, b: Range): seq<Range> {
    if blocks == [] then [b]
    else if blocks[0].start > b.start then [b] + blocks
    else [blocks[0]] + Insert(blocks[1..], b)
  }

  /** The new block lies clear of every block of the list. */
  ghost predicate Clear(blocks: seq<Range>, b: Range) {
    forall i :: 0 <= i < |blocks| ==> blocks[i].Top() <= b.start || b.Top() <= blocks[i].start
  }

  lemma {:induction false} InsertAt(blocks: seq<Range>, b: Range, k: nat)
    requires k <= |blocks|
    requires forall i :: 0 <= i < k ==> blocks[i].start <= b.start
    requires k < |blocks| ==> b.start < blocks[k].start
    ensures Insert(blocks, b) == blocks[..k] + [b] + blocks[k..]
  {
    if k > 0 {
      InsertAt(blocks[1..], b, k - 1);
    }
  }

  /** Insertion puts the block at one position and moves nothing else. */
  lemma {:induction false} InsertPosition(blocks: seq<Range>, b: Range) returns (k: nat)
    requires Ascending(blocks)
    ensures k <= |blocks|
    ensures Insert(blocks, b) == blocks[..k] + [b] + blocks[k..]
    ensures forall i :: 0 <= i < k ==> blocks[i].start <= b.start
    ensures forall i :: k <= i < |blocks| ==> b.start < blocks[i].start
  {
    if blocks == [] || blocks[0].start > b.start {
      k := 0;
    } else {
      k := InsertPosition(blocks[1..], b);
      k := k + 1;
    }
  }

  lemma InsertAscending(blocks: seq<Range>, b: Range)
    requires Ascending(blocks) && b.start <= b.end && Clear(blocks, b)
    ensures Ascending(Insert(blocks, b))
  {
    var k := InsertPosition(blocks, b);
    SpliceAscending(blocks[..k], b, blocks[k..]);
  }

  lemma SpliceAscending(left: seq<Range>, b: Range, right: seq<Range>)
    requires Ascending(left) && Ascending(right) && b.start <= b.end
    requires forall i :: 0 <= i < |left| ==> left[i].Top() <= b.start
    requires forall j :: 0 <= j < |right| ==> b.Top() <= right[j].start
    requires forall i, j :: 0 <= i < |left| && 0 <= j < |right| ==> left[i].Top() <= right[j].start
    ensures Ascending(left + [b] + right)
  {
  }

  lemma InsertWithin(blocks: seq<Range>, b: Range, lo: nat, hi: nat)
    requires Ascending(blocks) && Within(blocks, lo, hi) && Within([b], lo, hi)
    ensures Within(Insert(blocks, b), lo, hi)
  {
    var k := InsertPosition(blocks, b);
    assert [b][0] == b;
  }

  lemma InsertCover(blocks: seq<Range>, b: Range, f: nat)
    requires Ascending(blocks)
    ensures Cover(Insert(blocks, b), f) == Cover(blocks, f) + One(b, f)
  {
    var k := InsertPosition(blocks, b);
    assert blocks == blocks[..k] + blocks[k..];
    CoverConcat(blocks[..k], blocks[k..], f);
    CoverConcat(blocks[..k] + [b], blocks[k..], f);
    CoverConcat(blocks[..k], [b], f);
    CoverSingle(b, f);
  }

  // --- alloc ----------------------------------------------------------------------------

  /** The index of the first block with at least `n` frames, or the length of the list. */
  function FirstFit(blocks: seq<Range>, n: nat): (k: nat)
    ensures k <= |blocks|
    ensures forall i :: 0 <= i < k ==> blocks[i].Count() < n
    ensures k < |blocks| ==> blocks[k].Count() >= n
  {
    if blocks == [] then 0
    else if blocks[0].Count() >= n then 0
    else 1 + FirstFit(blocks[1..], n)
  }

  function Remove(blocks: seq<Range>, k: nat): seq<Range>
    requires k < |blocks|
  {
    blocks[..k] + blocks[k + 1..]
  }

  /** The part of block `b` that goes back to the list when `n` frames are taken from it. */
  function Remainder(b: Range, n: nat): seq<Range>
    requires n <= b.Count()
  {
    if n < b.Count() then [Range(b.start + n, b.end)] else []
  }

  /** The list after taking `n` frames from block `k`: the block leaves the list and what
      remains of it is inserted again. */
  function Take(blocks: seq<Range>, k: nat, n: nat): seq<Range>
    requires k < |blocks| && n <= blocks[k].Count()
  {
    if n < blocks[k].Count()
    then Insert(Remove(blocks, k), Range(blocks[k].start + n, blocks[k].end))
    else Remove(blocks, k)
  }

  /** `got` and `blocks` are what one call of the list allocator returns and leaves behind. */
  ghost predicate Allocates(before: seq<Range>, n: nat, got: Option<Range>, blocks: seq<Range>) {
    var k := FirstFit(before, n);
    if k == |before| then got == None && blocks == before
    else got == Some(Range(before[k].start, before[k].start + n)) && blocks == Take(before, k, n)
  }

  /** Inserting the remainder puts it back at the place the block came from. */
  lemma TakeInPlace(blocks: seq<Range>, k: nat, n: nat)
    requires Ascending(blocks) && k < |blocks| && n <= blocks[k].Count()
    ensures Take(blocks, k, n) == blocks[..k] + Remainder(blocks[k], n) + blocks[k + 1..]
  {
    if n < blocks[k].Count() {
      var rest := Remove(blocks, k);
      var r := Range(blocks[k].start + n, blocks[k].end);
      forall i | 0 <= i < k
        ensures rest[i].start <= r.start
      {
        assert rest[i] == blocks[i] && blocks[i].Top() <= blocks[k].start;
      }
      if k < |rest| {
        assert rest[k] == blocks[k + 1] && blocks[k].Top() <= blocks[k + 1].start;
      }
      InsertAt(rest, r, k);
      assert rest[..k] == blocks[..k] && rest[k..] == blocks[k + 1..];
    } else {
      assert blocks[..k] + [] + blocks[k + 1..] == Remove(blocks, k);
    }
  }

  lemma TakeAscending(blocks: seq<Range>, k: nat, n: nat)
    requires Ascending(blocks) && k < |blocks| && n <= blocks[k].Count()
    ensures Ascending(Take(blocks, k, n))
  {
    TakeInPlace(blocks, k, n);
    var t := Take(blocks, k, n);
    var gap := if n < blocks[k].Count() then 0 else 1;
    forall i | 0 <= i < |t|
      ensures t[i].start <= t[i].end
    {
      assert blocks[if i < k then i else i + gap].start <= blocks[if i < k then i else i + gap].end;
    }
    forall i, j | 0 <= i < j < |t|
      ensures t[i].Top() <= t[j].start
    {
      var i' := if i < k then i else i + gap;
      var j' := if j < k then j else j + gap;
      assert blocks[i'].Top() <= blocks[j'].start;
    }
  }

  lemma TakeWithin(blocks: seq<Range>, k: nat, n: nat, lo: nat, hi: nat)
    requires Ascending(blocks) && k < |blocks| && n <= blocks[k].Count() && Within(blocks, lo, hi)
    ensures Within(Take(blocks, k, n), lo, hi)
  {
    TakeInPlace(blocks, k, n);
    var t := Take(blocks, k, n);
    assert forall i :: 0 <= i < |t| ==> t[i].start >= lo && t[i].Top() <= hi;
  }

  lemma RemoveKeeps(blocks: seq<Range>, k: nat, hi: nat)
    requires Ascending(blocks) && Within(blocks, 1, hi) && k < |blocks|
    ensures Ascending(Remove(blocks, k)) && Within(Remove(blocks, k), 1, hi)
  {
  }

  /** Taking frames moves them out of the list one for one. */
  lemma TakeCover(blocks: seq<Range>, k: nat, n: nat, f: nat)
    requires Ascending(blocks) && k < |blocks| && n <= blocks[k].Count()
    ensures Cover(Take(blocks, k, n), f)
         + One(Range(blocks[k].start, blocks[k].start + n), f) == Cover(blocks, f)
  {
    TakeInPlace(blocks, k, n);
    CoverSplice(blocks, k, Remainder(blocks[k], n), f);
    CoverSingle(Range(blocks[k].start + n, blocks[k].end), f);
  }

  lemma TakeTotal(blocks: seq<Range>, k: nat, n: nat)
    requires Ascending(blocks) && k < |blocks| && n <= blocks[k].Count()
    ensures Total(Take(blocks, k, n)) + n == Total(blocks)
  {
    TakeInPlace(blocks, k, n);
    TotalSplice(blocks, k, Remainder(blocks[k], n));
    assert [Range(blocks[k].start + n, blocks[k].end)][1..] == [];
  }

  /** Taking at least one frame clears the block's first frame from the footprint, and never
      makes the footprint larger. */
  lemma TakeFootprint(blocks: seq<Range>, k: nat, n: nat)
    requires Ascending(blocks) && k < |blocks| && n <= blocks[k].Count()
    ensures forall f: nat :: Footprint(Take(blocks, k, n), f) ==> Footprint(blocks, f)
    ensures forall f: nat :: blocks[k].start <= f < blocks[k].start + n
              ==> Footprint(blocks, f) && !Footprint(Take(blocks, k, n), f)
  {
    forall f: nat | Footprint(Take(blocks, k, n), f)
      ensures Footprint(blocks, f)
      ensures !(blocks[k].start <= f < blocks[k].start + n)
    {
      var i :| 0 <= i < |Take(blocks, k, n)| && Take(blocks, k, n)[i].Touches(f);
      TakenFrom(blocks, k, n, i, f);
    }
    forall f: nat | blocks[k].start <= f < blocks[k].start + n
      ensures Footprint(blocks, f)
    {
      assert blocks[k].Touches(f);
    }
  }

  /** A node that is left lies in the frames of an old one, and behind the frames taken. */
  lemma TakenFrom(blocks: seq<Range>, k: nat, n: nat, i: nat, f: nat)
    requires Ascending(blocks) && k < |blocks| && n <= blocks[k].Count()
    requires i < |Take(blocks, k, n)| && Take(blocks, k, n)[i].Touches(f)
    ensures Footprint(blocks, f) && !(blocks[k].start <= f < blocks[k].start + n)
  {
    TakeInPlace(blocks, k, n);
    var j := if i >= k && n == blocks[k].Count() then i + 1 else i;
    assert Take(blocks, k, n)[i] == if j == k then Range(blocks[k].start + n, blocks[k].end) else blocks[j];
    assert blocks[j].Touches(f);
  }

  /** The remainder of a block fits between its former neighbours. */
  lemma RemainderFits(blocks: seq<Range>, k: nat, n: nat, hi: nat)
    requires Ascending(blocks) && Within(blocks, 1, hi) && k < |blocks| && n < blocks[k].Count()
    ensures var r := Range(blocks[k].start + n, blocks[k].end);
      && Within([r], 1, hi)
      && Clear(Remove(blocks, k), r)
      && forall f: nat :: Footprint(Remove(blocks, k) + [r], f)
           ==> Footprint(blocks, f) && (n > 0 ==> f != blocks[k].start)
  {
    var r := Range(blocks[k].start + n, blocks[k].end);
    var rest := Remove(blocks, k);
    assert [r][0] == r && blocks[k].Top() == r.end;
    forall i | 0 <= i < |rest|
      ensures rest[i].Top() <= r.start || r.Top() <= rest[i].start
    {
      RemainingBlock(blocks, k, i);
    }
    forall f: nat | Footprint(rest + [r], f)
      ensures Footprint(blocks, f) && (n > 0 ==> f != blocks[k].start)
    {
      var i :| 0 <= i < |rest + [r]| && (rest + [r])[i].Touches(f);
      if i < |rest| {
        RemainingBlock(blocks, k, i);
        assert blocks[if i < k then i else i + 1].Touches(f);
      } else {
        assert blocks[k].Touches(f);
      }
    }
  }

  lemma RemainingBlock(blocks: seq<Range>, k: nat, i: nat)
    requires Ascending(blocks) && k < |blocks| && i < |Remove(blocks, k)|
    ensures var j := if i < k then i else i + 1;
      j < |blocks| && Remove(blocks, k)[i] == blocks[j]
    ensures Remove(blocks, k)[i].Top() <= blocks[k].start || blocks[k].Top() <= Remove(blocks, k)[i].start
  {
  }

  /** A request for one frame is met by the first frame of the list, whatever empty nodes come
      before it. */
  lemma TakeOneFrames(blocks: seq<Range>, k: nat)
    requires Ascending(blocks) && k == FirstFit(blocks, 1) < |blocks|
    ensures Frames(blocks) == [blocks[k].start] + Frames(Take(blocks, k, 1))
  {
    TakeInPlace(blocks, k, 1);
    SplitAt(blocks, k);
    hide *;
    FirstOfThree(blocks[..k], blocks[k], blocks[k + 1..]);
  }

  /** What is left of the blocks from a frame on does not depend on whether frames before it have
      been taken. */
  ghost predicate RunsKept(before: seq<Range>, after: seq<Range>) {
    forall f: nat :: f in Frames(after) ==> RunFrom(after, f) == RunFrom(before, f)
  }

  /** The frame handed out begins a block, and all other frames keep theirs. */
  lemma TakeOneRuns(blocks: seq<Range>, k: nat)
    requires Ascending(blocks) && k == FirstFit(blocks, 1) < |blocks|
    ensures RunFrom(blocks, blocks[k].start) == blocks[k].Count()
    ensures RunsKept(blocks, Take(blocks, k, 1))
  {
    hide *;
    TakeInPlace(blocks, k, 1);
    SplitAt(blocks, k);
    RestIsAbove(blocks, k);
    RunsOfThree(blocks[..k], blocks[k], blocks[k + 1..]);
  }

  lemma RestIsAbove(blocks: seq<Range>, k: nat)
    requires Ascending(blocks) && k < |blocks|
    ensures var right := blocks[k + 1..];
      forall j :: 0 <= j < |right| ==> blocks[k].Top() <= right[j].start
  {
  }

  lemma RunsOfThree(left: seq<Range>, b: Range, right: seq<Range>)
    requires b.Count() >= 1 && forall i :: 0 <= i < |left| ==> left[i].Count() == 0
    requires forall j :: 0 <= j < |right| ==> b.Top() <= right[j].start
    ensures RunFrom(left + [b] + right, b.start) == b.Count()
    ensures RunsKept(left + [b] + right, left + Remainder(b, 1) + right)
  {
    hide Frames, Remainder, RunFrom;
    Regroup(left, [b], right);
    Regroup(left, Remainder(b, 1), right);
    RunBehindEmpty(left, [b] + right, b.start);
    RunOfFirst(b, right);
    forall f: nat | f in Frames(left + (Remainder(b, 1) + right))
      ensures RunFrom(left + (Remainder(b, 1) + right), f) == RunFrom(left + ([b] + right), f)
    {
      BehindEmpty(left, Remainder(b, 1) + right);
      RunBehindEmpty(left, [b] + right, f);
      RunBehindEmpty(left, Remainder(b, 1) + right, f);
      RunInRemainder(b, right, f);
    }
  }

  lemma RunOfFirst(b: Range, right: seq<Range>)
    requires b.Count() >= 1
    ensures RunFrom([b] + right, b.start) == b.Count()
  {
  }

  lemma RunInRemainder(b: Range, right: seq<Range>, f: nat)
    requires b.Count() >= 1 && forall j :: 0 <= j < |right| ==> b.Top() <= right[j].start
    requires f in Frames(Remainder(b, 1) + right)
    ensures RunFrom(Remainder(b, 1) + right, f) == RunFrom([b] + right, f)
  {
    var rest := Remainder(b, 1) + right;
    FramesIn(rest, f);
    assert f != b.start;
    assert ([b] + right)[1..] == right;
    if b.Count() > 1 {
      assert rest[1..] == right;
    } else {
      assert rest == right;
    }
  }

  lemma SplitAt(blocks: seq<Range>, k: nat)
    requires k == FirstFit(blocks, 1) < |blocks|
    ensures blocks == blocks[..k] + [blocks[k]] + blocks[k + 1..] && blocks[k].Count() >= 1
    ensures forall i :: 0 <= i < |blocks[..k]| ==> blocks[..k][i].Count() == 0
  {
  }

  lemma FirstOfThree(left: seq<Range>, b: Range, right: seq<Range>)
    requires b.Count() >= 1 && forall i :: 0 <= i < |left| ==> left[i].Count() == 0
    ensures Frames(left + [b] + right) == [b.start] + Frames(left + Remainder(b, 1) + right)
  {
    hide Frames, Remainder;
    Regroup(left, [b], right);
    BehindEmpty(left, [b] + right);
    Regroup(left, Remainder(b, 1), right);
    BehindEmpty(left, Remainder(b, 1) + right);
    SplitFirst(b, right);
  }

  lemma Regroup(a: seq<Range>, b: seq<Range>, c: seq<Range>)
    ensures a + b + c == a + (b + c)
  {
  }

  lemma BehindEmpty(left: seq<Range>, right: seq<Range>)
    requires forall i :: 0 <= i < |left| ==> left[i].Count() == 0
    ensures Frames(left + right) == Frames(right)
  {
    FramesConcat(left, right);
    EmptyFrames(left);
  }

  lemma SplitFirst(b: Range, rest: seq<Range>)
    requires b.Count() >= 1
    ensures Frames([b] + rest) == [b.start] + Frames(Remainder(b, 1) + rest)
  {
    hide Frames, Remainder, From;
    FramesFirst(b, rest);
    FirstAndRest(b.start, b.Count() - 1);
    RemainderFrames(b, rest);
    ConcatOne(b.start, From(b.start + 1, b.Count() - 1), Frames(rest));
  }

  lemma ConcatOne(x: nat, a: seq<nat>, b: seq<nat>)
    ensures [x] + a + b == [x] + (a + b)
  {
  }

  lemma FramesFirst(b: Range, rest: seq<Range>)
    ensures Frames([b] + rest) == From(b.start, b.Count()) + Frames(rest)
  {
    hide From;
    assert ([b] + rest)[1..] == rest;
  }

  lemma RemainderFrames(b: Range, rest: seq<Range>)
    requires b.Count() >= 1
    ensures Frames(Remainder(b, 1) + rest) == From(b.start + 1, b.Count() - 1) + Frames(rest)
  {
    hide Frames;
    if b.Count() > 1 {
      FramesFirst(Range(b.start + 1, b.end), rest);
    } else {
      assert [] + rest == rest && From(b.start + 1, 0) == [];
    }
  }

  lemma FirstAndRest(start: nat, n: nat)
    ensures From(start, n + 1) == [start] + From(start + 1, n)
  {
  }

  /** A request for one frame succeeds as long as the list holds a frame at all. */
  lemma {:induction false} OneFrameFits(blocks: seq<Range>)
    ensures FirstFit(blocks, 1) < |blocks| <==> Total(blocks) > 0
  {
    if blocks != [] {
      OneFrameFits(blocks[1..]);
    }
  }

  // --- free -----------------------------------------------------------------------------

  datatype Fusion = Bottom | Top | Neither

  /** How a freed range meets one block, in the order in which the code asks. */
  function Meets(block: Range, r: Range): Fusion {
    if r.end == block.start then Bottom
    else if block.end == r.start then Top
    else Neither
  }

  /** Where the walk over the list stops: at the first block that the range extends, or that
      reaches beyond the start of the range. */
  function FuseAt(blocks: seq<Range>, r: Range): (k: nat)
    ensures k <= |blocks|
    ensures forall i :: 0 <= i < k ==> Meets(blocks[i], r).Neither? && blocks[i].end <= r.start
    ensures k < |blocks| ==> !Meets(blocks[k], r).Neither? || blocks[k].end > r.start
  {
    if blocks == [] then 0
    else if !Meets(blocks[0], r).Neither? || blocks[0].end > r.start then 0
    else 1 + FuseAt(blocks[1..], r)
  }

  function Outcome(blocks: seq<Range>, r: Range): Fusion {
    var k := FuseAt(blocks, r);
    if k < |blocks| then Meets(blocks[k], r) else Neither
  }

  /** `free_block` as written. The node written for a fusion at the bottom is reachable from
      nowhere, since its predecessor still points at the old block, whose own `next` has been
      taken; the node written for a fusion at the top has no `next`. Either way the list now
      ends there. Only an empty range at the very start of a block changes nothing: the node
      written is that of the block itself. */
  function Free(blocks: seq<Range>, r: Range): seq<Range> {
    var k := FuseAt(blocks, r);
    match Outcome(blocks, r)
    case Bottom => if r.start == blocks[k].start then blocks else blocks[..k + 1]
    case Top => blocks[..k] + [Range(blocks[k].start, blocks[k].end + r.Count())]
    case Neither => Insert(blocks, r.Written())
  }

  /** `free_block` as its comment promises (os/kernel/src/memory/physical.rs:249-250): the
      same walk and the same choice of neighbour, with the fused block linked in place. */
  function FreeRelinked(blocks: seq<Range>, r: Range): seq<Range> {
    var k := FuseAt(blocks, r);
    match Outcome(blocks, r)
    case Bottom => blocks[..k] + [Range(r.start, blocks[k].end)] + blocks[k + 1..]
    case Top => blocks[..k] + [Range(blocks[k].start, r.end)] + blocks[k + 1..]
    case Neither => Insert(blocks, r)
  }

  /** What a caller of `free_block` hands over: a range that no block of the list touches,
      but for an empty node at its start. It may be empty or inverted. */
  ghost predicate Freeable(blocks: seq<Range>, r: Range) {
    forall i :: 0 <= i < |blocks| ==>
      blocks[i].Top() <= r.start || r.Top() <= blocks[i].start || blocks[i] == Range(r.start, r.start)
  }

  /** The range starts exactly where the list has an empty node, which it will then extend. */
  ghost predicate OntoEmptyNode(blocks: seq<Range>, r: Range) {
    var k := FuseAt(blocks, r);
    && k < |blocks| && r.start < r.end && blocks[k] == Range(r.start, r.start)
    && forall i :: 0 <= i < |blocks| && i != k ==> blocks[i].Top() <= r.start || r.Top() <= blocks[i].start
  }

  /** What can be freed by the relinked form: no empty node lies inside of the result. */
  ghost predicate Relinkable(blocks: seq<Range>, r: Range) {
    r.start <= r.end && (Clear(blocks, r) || OntoEmptyNode(blocks, r))
  }

  /** A range that extends no block lies clear of them all. */
  lemma FreeableIsClear(blocks: seq<Range>, r: Range)
    requires Ascending(blocks) && Freeable(blocks, r) && Outcome(blocks, r).Neither?
    ensures Clear(blocks, r) && Clear(blocks, r.Written())
  {
    var k := FuseAt(blocks, r);
    forall i | 0 <= i < |blocks|
      ensures blocks[i] != Range(r.start, r.start)
    {
      if i > k {
        assert blocks[k].Top() <= blocks[i].start;
      }
    }
  }

  /** As written, the list stays sorted and free of overlaps. */
  lemma FreeAscending(blocks: seq<Range>, r: Range)
    requires Ascending(blocks) && Freeable(blocks, r)
    ensures Ascending(Free(blocks, r))
  {
    if Outcome(blocks, r).Neither? {
      FreeableIsClear(blocks, r);
      InsertAscending(blocks, r.Written());
    }
  }

  lemma FreeWithin(blocks: seq<Range>, r: Range, lo: nat, hi: nat)
    requires Ascending(blocks) && Freeable(blocks, r) && Within(blocks, lo, hi) && Within([r], lo, hi)
    ensures Within(Free(blocks, r), lo, hi)
  {
    assert [r][0] == r;
    match Outcome(blocks, r)
    case Neither => InsertWithin(blocks, r.Written(), lo, hi);
    case Bottom =>
    case Top =>
  }

  lemma FreeRelinkedWithin(blocks: seq<Range>, r: Range, lo: nat, hi: nat)
    requires Ascending(blocks) && Relinkable(blocks, r)
    requires Within(blocks, lo, hi) && Within([r], lo, hi)
    ensures Within(FreeRelinked(blocks, r), lo, hi)
  {
    assert [r][0] == r;
    match Outcome(blocks, r)
    case Neither => InsertWithin(blocks, r, lo, hi);
    case Bottom =>
    case Top =>
  }

  lemma ReplaceAscending(blocks: seq<Range>, k: nat, x: Range)
    requires Ascending(blocks) && k < |blocks| && x.start <= x.end
    requires forall i :: 0 <= i < k ==> blocks[i].Top() <= x.start
    requires forall i :: k < i < |blocks| ==> x.Top() <= blocks[i].start
    ensures Ascending(blocks[..k] + [x] + blocks[k + 1..])
  {
    var t := blocks[..k] + [x] + blocks[k + 1..];
    assert forall i :: 0 <= i < |t| ==> t[i] == if i == k then x else blocks[i];
  }

  lemma FreeRelinkedAscending(blocks: seq<Range>, r: Range)
    requires Ascending(blocks) && Relinkable(blocks, r)
    ensures Ascending(FreeRelinked(blocks, r))
  {
    var k := FuseAt(blocks, r);
    match Outcome(blocks, r)
    case Neither => InsertAscending(blocks, r);
    case Bottom => ReplaceAscending(blocks, k, Range(r.start, blocks[k].end));
    case Top =>
      forall i | k < i < |blocks|
        ensures Range(blocks[k].start, r.end).Top() <= blocks[i].start
      {
        assert blocks[k].Top() <= blocks[i].start;
      }
      ReplaceAscending(blocks, k, Range(blocks[k].start, r.end));
  }

  /** The relinked form gains exactly the freed frames, whatever it fuses with. */
  lemma FreeRelinkedCover(blocks: seq<Range>, r: Range, f: nat)
    requires Ascending(blocks) && Relinkable(blocks, r)
    ensures Cover(FreeRelinked(blocks, r), f) == Cover(blocks, f) + One(r, f)
  {
    var k := FuseAt(blocks, r);
    match Outcome(blocks, r)
    case Neither => InsertCover(blocks, r, f);
    case Bottom =>
      CoverSplice(blocks, k, [Range(r.start, blocks[k].end)], f);
      CoverSingle(Range(r.start, blocks[k].end), f);
    case Top =>
      CoverSplice(blocks, k, [Range(blocks[k].start, r.end)], f);
      CoverSingle(Range(blocks[k].start, r.end), f);
  }

  /** The blocks behind the place where the list is cut. */
  function Lost(blocks: seq<Range>, r: Range): seq<Range> {
    var k := FuseAt(blocks, r);
    match Outcome(blocks, r)
    case Bottom => if r.start == blocks[k].start then [] else [r] + blocks[k + 1..]
    case Top => blocks[k + 1..]
    case Neither => []
  }

  /** As written, the frames of `Lost` leak and no others: every frame of the list and of the
      freed range is afterwards either in the list or lost, never both, never twice. */
  lemma FreeCover(blocks: seq<Range>, r: Range, f: nat)
    requires Ascending(blocks) && Freeable(blocks, r)
    ensures Cover(Free(blocks, r), f) + Cover(Lost(blocks, r), f) == Cover(blocks, f) + One(r, f)
  {
    hide FuseAt, Insert, Cover, Freeable;
    var k := FuseAt(blocks, r);
    CoverNothing(f);
    match Outcome(blocks, r)
    case Neither => InsertCover(blocks, r.Written(), f);
    case Bottom =>
      if r.start != blocks[k].start {
        CutCover(blocks, k, r, f);
      }
    case Top => FusedCover(blocks, k, Range(blocks[k].start, blocks[k].end + r.Count()), r, f);
  }

  lemma CoverNothing(f: nat)
    ensures Cover([], f) == 0
  {
  }

  lemma FusedCover(blocks: seq<Range>, k: nat, fused: Range, r: Range, f: nat)
    requires k < |blocks| && blocks[k].start <= blocks[k].end == r.start
    requires fused == Range(blocks[k].start, r.start + r.Count())
    ensures Cover(blocks[..k] + [fused], f) + Cover(blocks[k + 1..], f) == Cover(blocks, f) + One(r, f)
  {
    CoverAt(blocks, k, f);
    CoverConcat(blocks[..k], [fused], f);
    CoverSingle(fused, f);
  }

  lemma CutCover(blocks: seq<Range>, k: nat, r: Range, f: nat)
    requires k < |blocks|
    ensures Cover(blocks[..k + 1], f) + Cover([r] + blocks[k + 1..], f) == Cover(blocks, f) + One(r, f)
  {
    CoverAt(blocks, k, f);
    assert blocks[..k + 1] == blocks[..k] + [blocks[k]];
    CoverConcat(blocks[..k], [blocks[k]], f);
    CoverSingle(blocks[k], f);
    CoverConcat([r], blocks[k + 1..], f);
    CoverSingle(r, f);
  }

  /** Exactly when `free_block` as written keeps every frame: the range extends no block from
      below, unless it is empty, and any block it extends from above has no non-empty block behind it. */
  ghost predicate KeepsAll(blocks: seq<Range>, r: Range) {
    var k := FuseAt(blocks, r);
    match Outcome(blocks, r)
    case Bottom => r.start == blocks[k].start
    case Top => forall i :: k < i < |blocks| ==> blocks[i].start == blocks[i].end
    case Neither => true
  }

  lemma {:induction false} EmptyBlocksCoverNothing(rs: seq<Range>, f: nat)
    requires forall i :: 0 <= i < |rs| ==> rs[i].start == rs[i].end
    ensures Cover(rs, f) == 0
  {
    if rs != [] {
      EmptyBlocksCoverNothing(rs[1..], f);
    }
  }

  lemma KeepsAllSuffices(blocks: seq<Range>, r: Range, f: nat)
    requires Ascending(blocks) && Freeable(blocks, r) && KeepsAll(blocks, r)
    ensures Cover(Lost(blocks, r), f) == 0
  {
    if Outcome(blocks, r).Top? {
      EmptyBlocksCoverNothing(blocks[FuseAt(blocks, r) + 1..], f);
    }
  }

  lemma LosesOtherwise(blocks: seq<Range>, r: Range) returns (f: nat)
    requires Ascending(blocks) && Freeable(blocks, r) && r.start < r.end
    requires !KeepsAll(blocks, r)
    ensures Cover(Lost(blocks, r), f) > 0
  {
    var k := FuseAt(blocks, r);
    if Outcome(blocks, r).Bottom? {
      f := r.start;
      CoverMember(Lost(blocks, r), 0, f);
    } else {
      var i :| k < i < |blocks| && blocks[i].start != blocks[i].end;
      f := blocks[i].start;
      assert blocks[k + 1..][i - k - 1] == blocks[i];
      CoverMember(Lost(blocks, r), i - k - 1, f);
    }
  }

  lemma FreeConservesExactlyWhen(blocks: seq<Range>, r: Range)
    requires Ascending(blocks) && Freeable(blocks, r) && r.start < r.end
    ensures KeepsAll(blocks, r)
       <==> forall f: nat :: Cover(Free(blocks, r), f) == Cover(blocks, f) + One(r, f)
  {
    if KeepsAll(blocks, r) {
      forall f: nat
        ensures Cover(Free(blocks, r), f) == Cover(blocks, f) + One(r, f)
      {
        FreeCover(blocks, r, f);
        KeepsAllSuffices(blocks, r, f);
      }
    } else {
      var f := LosesOtherwise(blocks, r);
      FreeCover(blocks, r, f);
    }
  }

  /** A range added behind all blocks: fused with the last one where it extends it. */
  function Append(blocks: seq<Range>, r: Range): seq<Range> {
    var n := |blocks|;
    if n > 0 && blocks[n - 1].end == r.start
    then blocks[..n - 1] + [Range(blocks[n - 1].start, r.end)]
    else blocks + [r]
  }

  /** Sorted by address, and no block touches the next. */
  ghost predicate Spaced(blocks: seq<Range>) {
    && (forall i :: 0 <= i < |blocks| ==> blocks[i].start <= blocks[i].end)
    && (forall i, j :: 0 <= i < j < |blocks| ==> blocks[i].end < blocks[j].start)
  }

  /** The range lies behind all blocks. It may be empty, and inverted by one frame. */
  ghost predicate Behind(blocks: seq<Range>, r: Range) {
    && Spaced(blocks) && r.start <= r.end + 1
    && forall i :: 0 <= i < |blocks| ==> blocks[i].end <= r.start
  }

  lemma BehindIsFreeable(blocks: seq<Range>, r: Range)
    requires Behind(blocks, r)
    ensures Ascending(blocks) && Freeable(blocks, r)
  {
  }

  /** Freeing behind all blocks of the list, as `init` does, is an append. */
  lemma FreeAtEnd(blocks: seq<Range>, r: Range)
    requires Behind(blocks, r) && r.start <= r.end
    ensures Free(blocks, r) == Append(blocks, r)
  {
    var n := |blocks|;
    var k := FuseAt(blocks, r);
    assert forall i :: 0 <= i < n - 1 ==> blocks[i].end < blocks[n - 1].start <= blocks[n - 1].end <= r.start;
    assert k >= n - 1;
    if k == n {
      InsertAt(blocks, r, n);
      assert blocks[..n] == blocks;
    }
  }

  /** An inverted range that is freed behind all blocks cuts off empty nodes at most, and leaves
      at most one. */
  lemma FreeInverted(blocks: seq<Range>, r: Range)
    requires Behind(blocks, r) && r.end < r.start
    ensures var k := FuseAt(blocks, r);
      if k == |blocks| then Free(blocks, r) == blocks + [Range(r.start, r.start)]
      else Free(blocks, r) == blocks[..k + 1] && forall i :: k < i < |blocks| ==> blocks[i] == Range(r.start, r.start)
  {
    hide Free, FuseAt;
    if FuseAt(blocks, r) == |blocks| {
      InvertedAppended(blocks, r);
    } else {
      MetBehind(blocks, r);
      OnlyNodesBehind(blocks, r, FuseAt(blocks, r));
      InvertedCut(blocks, r, FuseAt(blocks, r));
    }
  }

  lemma InvertedAppended(blocks: seq<Range>, r: Range)
    requires r.end < r.start && FuseAt(blocks, r) == |blocks|
    requires forall i :: 0 <= i < |blocks| ==> blocks[i].start <= blocks[i].end <= r.start
    ensures Free(blocks, r) == blocks + [Range(r.start, r.start)]
  {
    hide FuseAt, Insert;
    InsertAt(blocks, r.Written(), |blocks|);
    assert blocks[..|blocks|] == blocks;
  }

  lemma InvertedCut(blocks: seq<Range>, r: Range, k: nat)
    requires r.end < r.start && k == FuseAt(blocks, r) < |blocks|
    requires Outcome(blocks, r).Bottom? || (Outcome(blocks, r).Top? && blocks[k].end == r.start)
    requires r.start != blocks[k].start || !Outcome(blocks, r).Bottom?
    ensures Free(blocks, r) == blocks[..k + 1]
  {
    hide FuseAt, Insert, Outcome;
    assert r.Count() == 0 && blocks[..k] + [blocks[k]] == blocks[..k + 1];
  }

  lemma MetBehind(blocks: seq<Range>, r: Range)
    requires Behind(blocks, r) && r.end < r.start && FuseAt(blocks, r) < |blocks|
    ensures r.start <= blocks[FuseAt(blocks, r)].end + 1
    ensures Outcome(blocks, r).Bottom? || (Outcome(blocks, r).Top? && blocks[FuseAt(blocks, r)].end == r.start)
    ensures r.start != blocks[FuseAt(blocks, r)].start || !Outcome(blocks, r).Bottom?
  {
    hide FuseAt;
  }

  lemma OnlyNodesBehind(blocks: seq<Range>, r: Range, k: nat)
    requires Behind(blocks, r) && r.end < r.start && k < |blocks| && r.start <= blocks[k].end + 1
    ensures forall i :: k < i < |blocks| ==> blocks[i] == Range(r.start, r.start)
  {
    forall i | k < i < |blocks|
      ensures blocks[i] == Range(r.start, r.start)
    {
      assert blocks[k].end < blocks[i].start;
    }
  }

  /** What `free_block` leaves of a list when a range is freed behind it: all frames, all blocks
      from `lo` on, and no new empty node but at the start of a range without frames. */
  ghost predicate GrownBy(blocks: seq<Range>, r: Range, after: seq<Range>) {
    && Spaced(after) && StartsFrom(blocks, r, after) && NodesFrom(blocks, r, after)
    && (forall i :: 0 <= i < |after| ==> after[i].end <= r.start + r.Count())
    && Total(after) == Total(blocks) + r.Count()
    && forall f: nat :: Cover(after, f) == Cover(blocks, f) + One(r, f)
  }

  ghost predicate StartsIn(blocks: seq<Range>, f: nat) {
    exists i :: 0 <= i < |blocks| && blocks[i].start == f
  }

  lemma AppendTotal(blocks: seq<Range>, r: Range)
    requires Behind(blocks, r) && r.start <= r.end
    ensures Total(Append(blocks, r)) == Total(blocks) + r.Count()
  {
    var n := |blocks|;
    if n > 0 && blocks[n - 1].end == r.start {
      var fused := [Range(blocks[n - 1].start, r.end)];
      assert blocks[..n - 1] + fused + blocks[n..] == Append(blocks, r);
      TotalSplice(blocks, n - 1, fused);
      assert fused[1..] == [];
    } else {
      TotalConcat(blocks, [r]);
      assert [r][1..] == [];
    }
  }

  lemma AppendCover(blocks: seq<Range>, r: Range, f: nat)
    requires Behind(blocks, r) && r.start <= r.end
    ensures Cover(Append(blocks, r), f) == Cover(blocks, f) + One(r, f)
  {
    var n := |blocks|;
    if n > 0 && blocks[n - 1].end == r.start {
      var fused := Range(blocks[n - 1].start, r.end);
      assert blocks[..n - 1] + [fused] + blocks[n..] == Append(blocks, r);
      CoverSplice(blocks, n - 1, [fused], f);
      CoverSingle(fused, f);
    } else {
      CoverConcat(blocks, [r], f);
      CoverSingle(r, f);
    }
  }

  ghost predicate NoneEndsAt(blocks: seq<Range>, f: nat) {
    forall i :: 0 <= i < |blocks| ==> blocks[i].end != f
  }

  /** An empty node of `after` lies outside of the range, and is an old one unless the range has no
      frames either and extends no block. */
  ghost predicate NodesFrom(blocks: seq<Range>, r: Range, after: seq<Range>) {
    forall i :: 0 <= i < |after| && after[i].Count() == 0 ==>
      && !r.Has(after[i].start)
      && (after[i] in blocks || (r.Count() == 0 && after[i].start == r.start && NoneEndsAt(blocks, r.start)))
  }

  ghost predicate StartsFrom(blocks: seq<Range>, r: Range, after: seq<Range>) {
    forall i :: 0 <= i < |after| ==> after[i].start == r.start || StartsIn(blocks, after[i].start)
  }

  lemma LastFused(blocks: seq<Range>, r: Range, after: seq<Range>)
    requires Behind(blocks, r) && r.start <= r.end && blocks != [] && blocks[|blocks| - 1].end == r.start
    requires after == blocks[..|blocks| - 1] + [Range(blocks[|blocks| - 1].start, r.end)]
    ensures Spaced(after) && StartsFrom(blocks, r, after) && NodesFrom(blocks, r, after)
    ensures forall i :: 0 <= i < |after| ==> after[i].end <= r.end
  {
    var n := |blocks|;
    assert StartsIn(blocks, blocks[n - 1].start);
    forall i | 0 <= i < n - 1
      ensures after[i] == blocks[i] && StartsIn(blocks, after[i].start) && after[i].end < r.start && after[i] in blocks
    {
      assert blocks[i].end < blocks[n - 1].start;
    }
    assert after[n - 1].Count() == 0 ==> after[n - 1] == blocks[n - 1];
  }

  lemma LastAppended(blocks: seq<Range>, r: Range, after: seq<Range>)
    requires Behind(blocks, r) && r.start <= r.end && (blocks == [] || blocks[|blocks| - 1].end != r.start)
    requires after == blocks + [r]
    ensures Spaced(after) && StartsFrom(blocks, r, after) && NodesFrom(blocks, r, after)
    ensures forall i :: 0 <= i < |after| ==> after[i].end <= r.end
  {
    AllBefore(blocks, r);
    AppendedSpaced(blocks, r, after);
    AppendedStarts(blocks, r, after);
    AppendedNodes(blocks, r, after);
    hide Spaced, StartsFrom, NodesFrom;
  }

  lemma AppendedSpaced(blocks: seq<Range>, r: Range, after: seq<Range>)
    requires Spaced(blocks) && r.start <= r.end && after == blocks + [r]
    requires forall i :: 0 <= i < |blocks| ==> blocks[i].end < r.start
    ensures Spaced(after) && forall i :: 0 <= i < |after| ==> after[i].end <= r.end
  {
  }

  lemma AppendedStarts(blocks: seq<Range>, r: Range, after: seq<Range>)
    requires after == blocks + [r]
    ensures StartsFrom(blocks, r, after)
  {
    assert forall i :: 0 <= i < |blocks| ==> after[i] == blocks[i];
  }

  lemma AppendedNodes(blocks: seq<Range>, r: Range, after: seq<Range>)
    requires r.start <= r.end && after == blocks + [r]
    requires forall i :: 0 <= i < |blocks| ==> blocks[i].end < r.start && blocks[i].start <= blocks[i].end
    ensures NodesFrom(blocks, r, after)
  {
    forall i | 0 <= i < |after| && after[i].Count() == 0
      ensures !r.Has(after[i].start)
      ensures after[i] in blocks || (r.Count() == 0 && after[i].start == r.start && NoneEndsAt(blocks, r.start))
    {
      assert i < |blocks| ==> after[i] == blocks[i];
    }
  }

  lemma AllBefore(blocks: seq<Range>, r: Range)
    requires Behind(blocks, r) && (blocks == [] || blocks[|blocks| - 1].end != r.start)
    ensures forall i :: 0 <= i < |blocks| ==> blocks[i].end < r.start
  {
    forall i | 0 <= i < |blocks|
      ensures blocks[i].end < r.start
    {
      assert i < |blocks| - 1 ==> blocks[i].end < blocks[|blocks| - 1].start;
    }
  }

  lemma CutTotal(blocks: seq<Range>, k: nat, f: nat)
    requires k <= |blocks| && forall i :: k <= i < |blocks| ==> blocks[i].start == blocks[i].end
    ensures Total(blocks[..k]) == Total(blocks) && Cover(blocks[..k], f) == Cover(blocks, f)
  {
    assert blocks == blocks[..k] + blocks[k..];
    TotalConcat(blocks[..k], blocks[k..]);
    CoverConcat(blocks[..k], blocks[k..], f);
    EmptyBlocksCoverNothing(blocks[k..], f);
    EmptyFrames(blocks[k..]);
    FramesTotal(blocks[k..]);
  }

  lemma CutGrown(blocks: seq<Range>, r: Range, k: nat)
    requires Behind(blocks, r) && r.end < r.start && k <= |blocks|
    requires forall i :: k <= i < |blocks| ==> blocks[i] == Range(r.start, r.start)
    ensures GrownBy(blocks, r, blocks[..k])
  {
    hide Total, Cover;
    CutTotal(blocks, k, 0);
    forall f: nat
      ensures Cover(blocks[..k], f) == Cover(blocks, f) + One(r, f)
    {
      CutTotal(blocks, k, f);
    }
    CutShape(blocks, r, k);
    hide Spaced, StartsFrom, NodesFrom;
  }

  lemma CutShape(blocks: seq<Range>, r: Range, k: nat)
    requires Behind(blocks, r) && r.end < r.start && k <= |blocks|
    ensures Spaced(blocks[..k]) && StartsFrom(blocks, r, blocks[..k]) && NodesFrom(blocks, r, blocks[..k])
  {
    forall i | 0 <= i < k
      ensures StartsIn(blocks, blocks[i].start) && blocks[i] in blocks
    {
    }
  }

  ghost predicate NodeNear(blocks: seq<Range>, f: nat) {
    exists i :: 0 <= i < |blocks| && blocks[i].Count() == 0 && (blocks[i].start == f || blocks[i].start + 1 == f)
  }

  /** Empty nodes before the start of the range stay. */
  lemma NodeStays(blocks: seq<Range>, r: Range, i: nat)
    requires Behind(blocks, r) && i < |blocks| && blocks[i].Count() == 0 && blocks[i].start < r.start
    ensures blocks[i] in Free(blocks, r)
  {
    if r.start <= r.end {
      FreeAtEnd(blocks, r);
      hide Free;
      assert i < |blocks| - 1 || blocks[i].end != r.start;
      assert Append(blocks, r)[i] == blocks[i];
    } else {
      FreeInverted(blocks, r);
      hide Free, FuseAt;
      assert Free(blocks, r)[i] == blocks[i];
    }
  }

  /** A range without frames leaves an empty node at its start or right before it, if there is one
      or if no block ends there. */
  lemma NodeLeft(blocks: seq<Range>, r: Range)
    requires Behind(blocks, r) && r.Count() == 0
    requires NoneEndsAt(blocks, r.start) || exists i :: 0 <= i < |blocks| && blocks[i] == Range(r.start, r.start)
    ensures NodeNear(Free(blocks, r), r.start)
  {
    var n, after := |blocks|, Free(blocks, r);
    if r.start <= r.end {
      FreeAtEnd(blocks, r);
      hide Free;
      if NoneEndsAt(blocks, r.start) {
        assert after[n] == Range(r.start, r.start);
      } else {
        var i :| 0 <= i < n && blocks[i] == Range(r.start, r.start);
        NodeIsLast(blocks, r, i);
        assert after[n - 1] == Range(r.start, r.start);
      }
    } else {
      InvertedNear(blocks, r);
    }
  }

  lemma NodeIsLast(blocks: seq<Range>, r: Range, i: nat)
    requires Behind(blocks, r) && i < |blocks| && blocks[i] == Range(r.start, r.start)
    ensures i == |blocks| - 1
  {
    var last := blocks[|blocks| - 1];
    assert last.start <= last.end <= r.start;
  }

  lemma InvertedNear(blocks: seq<Range>, r: Range)
    requires Behind(blocks, r) && r.end < r.start
    requires NoneEndsAt(blocks, r.start) || exists i :: 0 <= i < |blocks| && blocks[i] == Range(r.start, r.start)
    ensures NodeNear(Free(blocks, r), r.start)
  {
    FreeInverted(blocks, r);
    var n, k, after := |blocks|, FuseAt(blocks, r), Free(blocks, r);
    if k == n {
      hide Free, FuseAt;
      assert after[n] == Range(r.start, r.start);
    } else {
      MetBehind(blocks, r);
      hide Free, FuseAt;
      assert after[k] == blocks[k];
      if i :| 0 <= i < n && blocks[i] == Range(r.start, r.start) {
        assert k < i ==> blocks[k].end < blocks[i].start;
      }
      assert blocks[k].Count() == 0;
    }
  }

  lemma AppendGrown(blocks: seq<Range>, r: Range)
    requires Behind(blocks, r) && r.start <= r.end
    ensures GrownBy(blocks, r, Append(blocks, r))
  {
    hide Total, Cover, Spaced, StartsFrom, NodesFrom;
    if blocks != [] && blocks[|blocks| - 1].end == r.start {
      LastFused(blocks, r, Append(blocks, r));
    } else {
      LastAppended(blocks, r, Append(blocks, r));
    }
    AppendTotal(blocks, r);
    forall f: nat
      ensures Cover(Append(blocks, r), f) == Cover(blocks, f) + One(r, f)
    {
      AppendCover(blocks, r, f);
    }
  }

  lemma NodeGrown(blocks: seq<Range>, r: Range)
    requires Behind(blocks, r) && r.end < r.start && FuseAt(blocks, r) == |blocks|
    ensures GrownBy(blocks, r, blocks + [Range(r.start, r.start)])
  {
    var node := Range(r.start, r.start);
    assert blocks != [] ==> Meets(blocks[|blocks| - 1], r).Neither?;
    hide FuseAt;
    AppendGrown(blocks, node);
    hide Total, Cover, Spaced, StartsIn;
    assert forall f: nat :: One(node, f) == One(r, f) == 0;
  }

  /** Freeing a range behind all blocks loses no frame, whatever the range is. */
  lemma FreeBehind(blocks: seq<Range>, r: Range)
    requires Behind(blocks, r)
    ensures GrownBy(blocks, r, Free(blocks, r))
  {
    hide Free, FuseAt, GrownBy, Append, Spaced;
    if r.start <= r.end {
      FreeAtEnd(blocks, r);
      AppendGrown(blocks, r);
    } else if FuseAt(blocks, r) == |blocks| {
      FreeInverted(blocks, r);
      NodeGrown(blocks, r);
    } else {
      FreeInverted(blocks, r);
      CutGrown(blocks, r, FuseAt(blocks, r) + 1);
    }
  }

  /** A concrete leak: freeing [1, 2) below [2, 3) loses both the range and the block behind. */
  lemma FreeLeaks()
    ensures Free([Range(2, 3), Range(5, 9)], Range(1, 2)) == [Range(2, 3)]
  {
    var blocks := [Range(2, 3), Range(5, 9)];
    assert FuseAt(blocks, Range(1, 2)) == 0;
  }
}
