/** What `init` leaves in the two free lists: regions are freed in ascending order, split at
the kernel limit (os/kernel/src/memory/physical.rs:56-68). */
module InitLists {
  import opened Ranges
  import opened BlockLists

  /** How many frames of the regions lie below frame `limit`. */
  function Below(rs: seq<Range>, limit: nat): nat {
    if rs == [] then 0 else Lower(rs[0], limit).Count() + Below(rs[1..], limit)
  }

  /** The part of a region that lies below frame `limit`. */
  function Lower(r: Range, limit: nat): Range {
    Range(r.start, if r.end < limit then r.end else limit)
  }

  lemma {:induction false} BelowConcat(a: seq<Range>, b: seq<Range>, limit: nat)
    ensures Below(a + b, limit) == Below(a, limit) + Below(b, limit)
  {
    if a == [] {
      assert a + b == b;
    } else {
      assert (a + b)[1..] == a[1..] + b;
      BelowConcat(a[1..], b, limit);
    }
  }

  function FillKernel(kernel: seq<Range>, r: Range, limit: nat): seq<Range> {
    if r.start < limit then Free(kernel, Lower(r, limit)) else kernel
  }

  /** A region that reaches the limit from below leaves its upper part, be it empty. */
  function FillUser(user: seq<Range>, r: Range, limit: nat): seq<Range> {
    if r.start >= limit then Free(user, r)
    else if r.end >= limit then Free(user, Range(limit, r.end))
    else user
  }

  /** An entry of the region list: a region, or an area shorter than a page, which arrives empty or
      inverted by one frame. */
  predicate Entry(r: Range) {
    1 <= r.start <= r.end + 1
  }

  /** The entry ends at the limit, or starts there and holds no frame. */
  predicate Marks(r: Range, limit: nat) {
    (r.start < limit && r.end == limit) || (r.start == limit && r.end <= limit)
  }

  ghost predicate EndsAt(rs: seq<Range>, limit: nat) {
    exists i :: 0 <= i < |rs| && Marks(rs[i], limit)
  }

  ghost predicate FramelessAt(rs: seq<Range>, f: nat) {
    exists i :: 0 <= i < |rs| && rs[i].Count() == 0 && rs[i].start == f
  }

  /** Where empty nodes come from: regions that end at the limit, and entries without frames. */
  ghost predicate LeavesNode(rs: seq<Range>, limit: nat, f: nat) {
    (f == limit && EndsAt(rs, limit)) || FramelessAt(rs, f)
  }

  /** The user list begins with an empty node at the limit. */
  predicate EmptyNodeFirst(user: seq<Range>, limit: nat) {
    |user| > 0 && user[0] == Range(limit, limit)
  }

  /** No empty node lies in a frame of the regions. */
  ghost predicate NodesClear(blocks: seq<Range>, done: seq<Range>, limit: nat) {
    forall i :: 0 <= i < |blocks| && blocks[i].Count() == 0 ==>
      Cover(done, blocks[i].start) == 0 && LeavesNode(done, limit, blocks[i].start)
  }

  ghost predicate RegionEndsAt(rs: seq<Range>, f: nat) {
    exists i :: 0 <= i < |rs| && rs[i].start < rs[i].end == f
  }

  /** An entry without frames starts where no region starts or goes on and where none ends, so that
      its node remains. */
  ghost predicate Gap(rs: seq<Range>, f: nat) {
    FramelessAt(rs, f) && Cover(rs, f) == 0 && !RegionEndsAt(rs, f)
  }

  ghost predicate NodesAtGaps(blocks: seq<Range>, done: seq<Range>, limit: nat) {
    forall i :: 0 <= i < |blocks| && blocks[i].Count() == 0 && blocks[i].start != limit ==>
      !RegionEndsAt(done, blocks[i].start)
  }

  ghost predicate GapsKept(kernel: seq<Range>, user: seq<Range>, done: seq<Range>) {
    forall f: nat :: Gap(done, f) ==> NodeNear(kernel, f) || NodeNear(user, f)
  }

  /** The lists after the entries `done` have been freed, all of which end at `frontier` or
      before. */
  ghost predicate Filled(kernel: seq<Range>, user: seq<Range>, done: seq<Range>, limit: nat, frontier: nat) {
    && FilledShape(kernel, user, limit, frontier)
    && (forall f: nat :: Cover(kernel, f) + Cover(user, f) == Cover(done, f))
    && Total(kernel) == Below(done, limit)
    && NodesClear(kernel, done, limit) && NodesClear(user, done, limit)
    && (EmptyNodeFirst(user, limit) <==> EndsAt(done, limit) && Cover(done, limit) == 0)
    && NodesAtGaps(kernel, done, limit) && NodesAtGaps(user, done, limit) && GapsKept(kernel, user, done)
  }

  ghost predicate FilledShape(kernel: seq<Range>, user: seq<Range>, limit: nat, frontier: nat) {
    && Spaced(kernel) && Spaced(user)
    && (forall i :: 0 <= i < |kernel| ==> 1 <= kernel[i].start < limit && kernel[i].end <= limit)
    && (forall i :: 0 <= i < |kernel| ==> kernel[i].end <= frontier)
    && (forall i :: 0 <= i < |user| ==> limit <= user[i].start && user[i].end <= frontier)
  }

  /** Entries that end at the frontier or before. */
  ghost predicate EndBy(rs: seq<Range>, frontier: nat) {
    forall i :: 0 <= i < |rs| ==> rs[i].start + rs[i].Count() <= frontier
  }

  lemma {:induction false} NoneBehind(rs: seq<Range>, frontier: nat, f: nat)
    requires EndBy(rs, frontier) && frontier <= f
    ensures Cover(rs, f) == 0
  {
    if rs != [] {
      assert rs[0].start + rs[0].Count() <= frontier;
      NoneBehind(rs[1..], frontier, f);
    }
  }

  lemma FillBehind(kernel: seq<Range>, user: seq<Range>, limit: nat, frontier: nat, r: Range)
    requires FilledShape(kernel, user, limit, frontier) && frontier <= r.start && Entry(r)
    ensures r.start < limit ==> user == [] && Behind(kernel, Lower(r, limit))
    ensures r.start < limit <= r.end ==> Behind(user, Range(limit, r.end))
    ensures limit <= r.start ==> Behind(user, r)
  {
    assert user != [] ==> limit <= user[0].start <= user[0].end <= frontier;
  }

  lemma KernelGrown(kernel: seq<Range>, r: Range, after: seq<Range>, limit: nat, frontier: nat)
    requires GrownBy(kernel, r, after) && 1 <= r.start < limit && r.start + r.Count() <= limit
    requires r.start + r.Count() <= frontier
    requires forall i :: 0 <= i < |kernel| ==> 1 <= kernel[i].start < limit
    ensures Spaced(after) && forall i :: 0 <= i < |after| ==> 1 <= after[i].start < limit && after[i].end <= limit
    ensures forall i :: 0 <= i < |after| ==> after[i].end <= frontier
  {
  }

  lemma UserGrown(user: seq<Range>, r: Range, after: seq<Range>, limit: nat, frontier: nat)
    requires GrownBy(user, r, after) && limit <= r.start && r.start + r.Count() <= frontier
    requires forall i :: 0 <= i < |user| ==> limit <= user[i].start
    ensures Spaced(after) && forall i :: 0 <= i < |after| ==> limit <= after[i].start && after[i].end <= frontier
  {
  }

  lemma FillShape(kernel: seq<Range>, user: seq<Range>, limit: nat, frontier: nat, r: Range)
    requires FilledShape(kernel, user, limit, frontier) && frontier <= r.start && Entry(r)
    ensures FilledShape(FillKernel(kernel, r, limit), FillUser(user, r, limit), limit, r.start + r.Count())
  {
    hide Behind, GrownBy, Spaced, Free;
    FillBehind(kernel, user, limit, frontier, r);
    if r.start < limit {
      FreeBehind(kernel, Lower(r, limit));
      KernelGrown(kernel, Lower(r, limit), FillKernel(kernel, r, limit), limit, r.start + r.Count());
      if limit <= r.end {
        FreeBehind(user, Range(limit, r.end));
        UserGrown(user, Range(limit, r.end), FillUser(user, r, limit), limit, r.start + r.Count());
      }
    } else {
      FreeBehind(user, r);
      UserGrown(user, r, FillUser(user, r, limit), limit, r.start + r.Count());
    }
  }

  lemma FillCover(kernel: seq<Range>, user: seq<Range>, limit: nat, frontier: nat, r: Range, f: nat)
    requires FilledShape(kernel, user, limit, frontier) && frontier <= r.start && Entry(r)
    ensures Cover(FillKernel(kernel, r, limit), f) + Cover(FillUser(user, r, limit), f)
      == Cover(kernel, f) + Cover(user, f) + One(r, f)
  {
    FillBehind(kernel, user, limit, frontier, r);
    hide Behind, Spaced, Free, FilledShape, StartsFrom, NodesFrom;
    if r.start < limit {
      FreeBehind(kernel, Lower(r, limit));
      if limit <= r.end {
        FreeBehind(user, Range(limit, r.end));
      }
    } else {
      FreeBehind(user, r);
    }
  }

  lemma FillTotal(kernel: seq<Range>, user: seq<Range>, limit: nat, frontier: nat, r: Range)
    requires FilledShape(kernel, user, limit, frontier) && frontier <= r.start && Entry(r)
    ensures Total(FillKernel(kernel, r, limit)) == Total(kernel) + Lower(r, limit).Count()
  {
    FillBehind(kernel, user, limit, frontier, r);
    if r.start < limit {
      FreeBehind(kernel, Lower(r, limit));
    }
  }

  lemma LeavesMore(done: seq<Range>, r: Range, limit: nat, f: nat)
    ensures EndsAt(done + [r], limit) <==> EndsAt(done, limit) || Marks(r, limit)
    ensures FramelessAt(done + [r], f) <==> FramelessAt(done, f) || (r.Count() == 0 && r.start == f)
  {
    var all := done + [r];
    assert forall i :: 0 <= i < |all| ==> all[i] == if i < |done| then done[i] else r;
    if EndsAt(done, limit) {
      var i :| 0 <= i < |done| && Marks(done[i], limit);
      assert Marks(all[i], limit);
    }
    if Marks(r, limit) {
      assert Marks(all[|done|], limit);
    }
    if FramelessAt(done, f) {
      var i :| 0 <= i < |done| && done[i].Count() == 0 && done[i].start == f;
      assert all[i].start == f;
    }
    if r.Count() == 0 && r.start == f {
      assert all[|done|].start == f;
    }
  }

  /** One list has grown by the part of an entry on its side. */
  lemma NodesStayClear(blocks: seq<Range>, part: Range, after: seq<Range>, done: seq<Range>, r: Range, limit: nat)
    requires NodesClear(blocks, done, limit) && NodesFrom(blocks, part, after)
    requires forall i :: 0 <= i < |after| && r.Has(after[i].start) ==> part.Has(after[i].start)
    requires part.Count() == 0 ==> Cover(done, part.start) == 0
    requires part.Count() == 0 ==>
      (part.start == limit && Marks(r, limit)) || (r.Count() == 0 && r.start == part.start)
    ensures NodesClear(after, done + [r], limit)
  {
    forall i | 0 <= i < |after| && after[i].Count() == 0
      ensures Cover(done + [r], after[i].start) == 0 && LeavesNode(done + [r], limit, after[i].start)
    {
      var f := after[i].start;
      CoverConcat(done, [r], f);
      CoverSingle(r, f);
      LeavesMore(done, r, limit, f);
    }
  }

  lemma SameNodesClear(blocks: seq<Range>, done: seq<Range>, r: Range, limit: nat)
    requires NodesClear(blocks, done, limit) && forall i :: 0 <= i < |blocks| ==> !r.Has(blocks[i].start)
    ensures NodesClear(blocks, done + [r], limit)
  {
    forall i | 0 <= i < |blocks| && blocks[i].Count() == 0
      ensures Cover(done + [r], blocks[i].start) == 0 && LeavesNode(done + [r], limit, blocks[i].start)
    {
      var f := blocks[i].start;
      CoverConcat(done, [r], f);
      CoverSingle(r, f);
      LeavesMore(done, r, limit, f);
    }
  }

  lemma StartsAtOrBefore(blocks: seq<Range>, part: Range, after: seq<Range>)
    requires GrownBy(blocks, part, after) && forall i :: 0 <= i < |blocks| ==> blocks[i].start <= part.start
    ensures forall i :: 0 <= i < |after| ==> after[i].start <= part.start
  {
  }

  lemma BehindStarts(blocks: seq<Range>, r: Range)
    requires Behind(blocks, r)
    ensures forall i :: 0 <= i < |blocks| ==> blocks[i].start <= r.start
  {
  }

  /** No entry without frames leaves its node in a frame of the regions. */
  lemma FillNodes(kernel: seq<Range>, user: seq<Range>, done: seq<Range>, limit: nat, frontier: nat, r: Range)
    requires FilledShape(kernel, user, limit, frontier) && frontier <= r.start && Entry(r) && EndBy(done, frontier)
    requires NodesClear(kernel, done, limit) && NodesClear(user, done, limit)
    ensures NodesClear(FillKernel(kernel, r, limit), done + [r], limit)
    ensures NodesClear(FillUser(user, r, limit), done + [r], limit)
  {
    FillBehind(kernel, user, limit, frontier, r);
    NoneBehind(done, frontier, r.start);
    if r.start < limit {
      KernelNodes(kernel, done, limit, r);
      if limit <= r.end {
        NoneBehind(done, frontier, limit);
        UpperNodes(user, done, limit, r);
      }
    } else {
      hide Free;
      SameNodesClear(kernel, done, r, limit);
      UserNodes(user, done, limit, r);
    }
  }

  lemma KernelNodes(kernel: seq<Range>, done: seq<Range>, limit: nat, r: Range)
    requires Behind(kernel, Lower(r, limit)) && r.start < limit && NodesClear(kernel, done, limit)
    requires Cover(done, r.start) == 0
    ensures NodesClear(FillKernel(kernel, r, limit), done + [r], limit)
  {
    var part := Lower(r, limit);
    FreeBehind(kernel, part);
    BehindStarts(kernel, part);
    hide Behind, Free;
    StartsAtOrBefore(kernel, part, Free(kernel, part));
    hide Spaced;
    NodesStayClear(kernel, part, Free(kernel, part), done, r, limit);
  }

  lemma UpperNodes(user: seq<Range>, done: seq<Range>, limit: nat, r: Range)
    requires user == [] && r.start < limit <= r.end && Behind(user, Range(limit, r.end))
    requires NodesClear(user, done, limit) && Cover(done, limit) == 0
    ensures NodesClear(FillUser(user, r, limit), done + [r], limit)
  {
    var part := Range(limit, r.end);
    FreeAtEnd(user, part);
    var after := Free(user, part);
    assert after == [part];
    hide Free;
    NodesStayClear(user, part, after, done, r, limit);
  }

  lemma UserNodes(user: seq<Range>, done: seq<Range>, limit: nat, r: Range)
    requires Behind(user, r) && limit <= r.start && NodesClear(user, done, limit) && Cover(done, r.start) == 0
    ensures NodesClear(FillUser(user, r, limit), done + [r], limit)
  {
    FreeBehind(user, r);
    hide Behind, Free, Spaced;
    NodesStayClear(user, r, Free(user, r), done, r, limit);
  }

  /** When the list begins with an empty node at the limit. */
  lemma FirstAfter(user: seq<Range>, r: Range, limit: nat)
    requires Behind(user, r) && limit <= r.start && forall i :: 0 <= i < |user| ==> limit <= user[i].start
    ensures EmptyNodeFirst(Free(user, r), limit) <==>
      if r.start > limit then EmptyNodeFirst(user, limit) else r.Count() == 0
  {
    if r.start <= r.end {
      FreeAtEnd(user, r);
    } else {
      FreeInverted(user, r);
    }
    hide Free, FuseAt;
    if user != [] {
      assert user[0].start <= user[0].end <= r.start;
    }
  }

  lemma FillFirst(kernel: seq<Range>, user: seq<Range>, done: seq<Range>, limit: nat, frontier: nat, r: Range)
    requires FilledShape(kernel, user, limit, frontier) && frontier <= r.start && Entry(r) && EndBy(done, frontier)
    requires EmptyNodeFirst(user, limit) <==> EndsAt(done, limit) && Cover(done, limit) == 0
    ensures EmptyNodeFirst(FillUser(user, r, limit), limit)
       <==> EndsAt(done + [r], limit) && Cover(done + [r], limit) == 0
  {
    CoverConcat(done, [r], limit);
    CoverSingle(r, limit);
    LeavesMore(done, r, limit, limit);
    FillBehind(kernel, user, limit, frontier, r);
    if r.start <= limit {
      NoneBehind(done, frontier, limit);
    }
    if limit <= r.start {
      hide Behind;
      FirstAfter(user, r, limit);
    } else if limit <= r.end {
      FreeAtEnd(user, Range(limit, r.end));
    }
  }

  lemma EndsMore(done: seq<Range>, r: Range, f: nat)
    ensures RegionEndsAt(done + [r], f) <==> RegionEndsAt(done, f) || r.start < r.end == f
  {
    var all := done + [r];
    assert forall i :: 0 <= i < |all| ==> all[i] == if i < |done| then done[i] else r;
    if RegionEndsAt(done, f) {
      var i :| 0 <= i < |done| && done[i].start < done[i].end == f;
      assert all[i].end == f;
    }
    if r.start < r.end == f {
      assert all[|done|].end == f;
    }
  }

  /** A region that ends at the frontier is the end of a block. */
  lemma BlockEnds(kernel: seq<Range>, user: seq<Range>, done: seq<Range>, limit: nat, frontier: nat, f: nat)
    requires FilledShape(kernel, user, limit, frontier) && frontier <= f && f != limit && RegionEndsAt(done, f)
    requires forall g: nat :: Cover(kernel, g) + Cover(user, g) == Cover(done, g)
    ensures f < limit ==> !NoneEndsAt(kernel, f)
    ensures limit < f ==> !NoneEndsAt(user, f)
  {
    var i :| 0 <= i < |done| && done[i].start < done[i].end == f;
    CoverMember(done, i, f - 1);
    if Cover(kernel, f - 1) > 0 {
      var k := CoverWitness(kernel, f - 1);
      assert kernel[k].end == f;
    } else {
      var k := CoverWitness(user, f - 1);
      assert user[k].end == f;
    }
  }

  /** One list has grown by the part of an entry on its side. */
  lemma NodesStayAtGaps(blocks: seq<Range>, part: Range, after: seq<Range>, done: seq<Range>, r: Range, limit: nat)
    requires NodesAtGaps(blocks, done, limit) && NodesFrom(blocks, part, after)
    requires part.start != limit ==>
      part.start == r.start && (NoneEndsAt(blocks, part.start) ==> !RegionEndsAt(done, r.start))
    requires forall i :: 0 <= i < |blocks| ==> blocks[i].start <= r.start
    ensures NodesAtGaps(after, done + [r], limit)
  {
    forall i | 0 <= i < |after| && after[i].Count() == 0 && after[i].start != limit
      ensures !RegionEndsAt(done + [r], after[i].start)
    {
      EndsMore(done, r, after[i].start);
      if after[i] in blocks {
        var k :| 0 <= k < |blocks| && blocks[k] == after[i];
      }
    }
  }

  lemma SameAtGaps(blocks: seq<Range>, done: seq<Range>, r: Range, limit: nat)
    requires NodesAtGaps(blocks, done, limit) && forall i :: 0 <= i < |blocks| ==> blocks[i].start <= r.start
    ensures NodesAtGaps(blocks, done + [r], limit)
  {
    forall i | 0 <= i < |blocks| && blocks[i].Count() == 0 && blocks[i].start != limit
      ensures !RegionEndsAt(done + [r], blocks[i].start)
    {
      EndsMore(done, r, blocks[i].start);
    }
  }

  lemma FillAtGaps(kernel: seq<Range>, user: seq<Range>, done: seq<Range>, limit: nat, frontier: nat, r: Range)
    requires FilledShape(kernel, user, limit, frontier) && frontier <= r.start && Entry(r)
    requires forall g: nat :: Cover(kernel, g) + Cover(user, g) == Cover(done, g)
    requires NodesAtGaps(kernel, done, limit) && NodesAtGaps(user, done, limit)
    ensures NodesAtGaps(FillKernel(kernel, r, limit), done + [r], limit)
    ensures NodesAtGaps(FillUser(user, r, limit), done + [r], limit)
  {
    FillBehind(kernel, user, limit, frontier, r);
    if RegionEndsAt(done, r.start) && r.start != limit {
      BlockEnds(kernel, user, done, limit, frontier, r.start);
    }
    StartsBelow(kernel, user, limit, frontier, r);
    hide FilledShape, NodesAtGaps, NoneEndsAt, RegionEndsAt, Free;
    if r.start < limit {
      var part := Lower(r, limit);
      FreeBehind(kernel, part);
      hide Spaced, StartsFrom, Behind;
      NodesStayAtGaps(kernel, part, Free(kernel, part), done, r, limit);
      if limit <= r.end {
        FreeBehind(user, Range(limit, r.end));
        NodesStayAtGaps(user, Range(limit, r.end), Free(user, Range(limit, r.end)), done, r, limit);
      } else {
        SameAtGaps(user, done, r, limit);
      }
    } else {
      SameAtGaps(kernel, done, r, limit);
      FreeBehind(user, r);
      NodesStayAtGaps(user, r, Free(user, r), done, r, limit);
    }
  }

  lemma StartsBelow(kernel: seq<Range>, user: seq<Range>, limit: nat, frontier: nat, r: Range)
    requires FilledShape(kernel, user, limit, frontier) && frontier <= r.start
    ensures forall i :: 0 <= i < |kernel| ==> kernel[i].start <= kernel[i].end <= r.start
    ensures forall i :: 0 <= i < |user| ==> user[i].start <= user[i].end <= r.start
  {
  }

  lemma GapBefore(done: seq<Range>, r: Range, f: nat)
    requires Gap(done + [r], f) && FramelessAt(done, f)
    ensures Gap(done, f) && !r.Has(f)
  {
    CoverConcat(done, [r], f);
    CoverSingle(r, f);
    EndsMore(done, r, f);
  }

  lemma GapIsNew(done: seq<Range>, r: Range, limit: nat, f: nat)
    requires Gap(done + [r], f) && !FramelessAt(done, f)
    ensures r.Count() == 0 && r.start == f && !RegionEndsAt(done, f)
  {
    LeavesMore(done, r, limit, f);
    EndsMore(done, r, f);
  }

  lemma {:induction false} FramelessEndBy(rs: seq<Range>, frontier: nat, f: nat)
    requires EndBy(rs, frontier) && FramelessAt(rs, f)
    ensures f <= frontier
  {
  }

  /** A node near `f` is still there after the part has been freed, unless a region begins there. */
  lemma NearStays(blocks: seq<Range>, part: Range, f: nat)
    requires Behind(blocks, part) && NodeNear(blocks, f) && f <= part.start && !part.Has(f)
    ensures NodeNear(Free(blocks, part), f)
  {
    var i :| 0 <= i < |blocks| && blocks[i].Count() == 0 && (blocks[i].start == f || blocks[i].start + 1 == f);
    if blocks[i].start < part.start {
      NodeStays(blocks, part, i);
      hide Free;
      var k :| 0 <= k < |Free(blocks, part)| && Free(blocks, part)[k] == blocks[i];
    } else {
      assert blocks[i] == Range(part.start, part.start);
      NodeLeft(blocks, part);
    }
  }

  /** An entry without frames leaves a node at its start or right before it, where no region ends. */
  lemma NearNew(blocks: seq<Range>, done: seq<Range>, r: Range)
    requires Behind(blocks, r) && r.Count() == 0 && !RegionEndsAt(done, r.start)
    requires forall g: nat :: Cover(blocks, g) <= Cover(done, g)
    requires EndBy(done, r.start)
    ensures NodeNear(Free(blocks, r), r.start)
  {
    forall k | 0 <= k < |blocks| && blocks[k].end == r.start
      ensures blocks[k] == Range(r.start, r.start)
    {
      if blocks[k].start < r.start {
        EndOfRegion(blocks, done, k, r.start);
      }
    }
    NodeLeft(blocks, r);
  }

  lemma EndOfRegion(blocks: seq<Range>, done: seq<Range>, k: nat, f: nat)
    requires k < |blocks| && blocks[k].start < blocks[k].end == f && EndBy(done, f)
    requires forall g: nat :: Cover(blocks, g) <= Cover(done, g)
    ensures RegionEndsAt(done, f)
  {
    CoverMember(blocks, k, f - 1);
    var i := CoverWitness(done, f - 1);
    assert done[i].start + done[i].Count() <= f;
    assert done[i].start < done[i].end == f;
  }

  lemma FillGap(kernel: seq<Range>, user: seq<Range>, done: seq<Range>, limit: nat, frontier: nat, r: Range, f: nat)
    requires FilledShape(kernel, user, limit, frontier) && frontier <= r.start && Entry(r) && EndBy(done, frontier)
    requires forall g: nat :: Cover(kernel, g) + Cover(user, g) == Cover(done, g)
    requires GapsKept(kernel, user, done) && Gap(done + [r], f)
    ensures NodeNear(FillKernel(kernel, r, limit), f) || NodeNear(FillUser(user, r, limit), f)
  {
    FillBehind(kernel, user, limit, frontier, r);
    NoNodes(f);
    hide FilledShape, Free, Spaced, NodeNear, RegionEndsAt;
    if FramelessAt(done, f) {
      GapBefore(done, r, f);
      FramelessEndBy(done, frontier, f);
      if NodeNear(kernel, f) && r.start < limit {
        NearStays(kernel, Lower(r, limit), f);
      }
      if NodeNear(user, f) && limit <= r.start {
        NearStays(user, r, f);
      }
    } else {
      GapIsNew(done, r, limit, f);
      if r.start < limit {
        NearNew(kernel, done, r);
      } else {
        NearNew(user, done, r);
      }
    }
  }

  lemma NoNodes(f: nat)
    ensures !NodeNear([], f)
  {
  }

  lemma FillStep(kernel: seq<Range>, user: seq<Range>, done: seq<Range>, limit: nat, frontier: nat, r: Range)
    requires Filled(kernel, user, done, limit, frontier)
    requires frontier <= r.start && Entry(r) && EndBy(done, frontier)
    ensures Filled(FillKernel(kernel, r, limit), FillUser(user, r, limit), done + [r], limit, r.start + r.Count())
  {
    hide FilledShape, NodesClear, NodesAtGaps, FillKernel, FillUser, EmptyNodeFirst, EndsAt, EndBy;
    hide Gap, NodeNear;
    FillShape(kernel, user, limit, frontier, r);
    forall f: nat
      ensures Cover(FillKernel(kernel, r, limit), f) + Cover(FillUser(user, r, limit), f) == Cover(done + [r], f)
    {
      FillCover(kernel, user, limit, frontier, r, f);
      CoverConcat(done, [r], f);
      CoverSingle(r, f);
    }
    FillTotal(kernel, user, limit, frontier, r);
    BelowConcat(done, [r], limit);
    assert [r][1..] == [];
    FillNodes(kernel, user, done, limit, frontier, r);
    FillFirst(kernel, user, done, limit, frontier, r);
    FillAtGaps(kernel, user, done, limit, frontier, r);
    forall f: nat | Gap(done + [r], f)
      ensures NodeNear(FillKernel(kernel, r, limit), f) || NodeNear(FillUser(user, r, limit), f)
    {
      FillGap(kernel, user, done, limit, frontier, r, f);
    }
  }

  /** The frames `init` may write: those it was given, and those where it leaves an empty node. */
  ghost predicate InitFrame(rs: seq<Range>, limit: nat, f: nat) {
    Cover(rs, f) > 0 || LeavesNode(rs, limit, f)
  }

  lemma LeavesNodeWiden(rs: seq<Range>, i: nat, limit: nat, f: nat)
    requires i <= |rs| && LeavesNode(rs[..i], limit, f)
    ensures LeavesNode(rs, limit, f)
  {
    if FramelessAt(rs[..i], f) {
      var j :| 0 <= j < i && rs[..i][j].Count() == 0 && rs[..i][j].start == f;
      assert rs[j].start == f;
    } else {
      var j :| 0 <= j < i && Marks(rs[..i][j], limit);
      assert Marks(rs[j], limit);
    }
  }

  lemma BlockFootprint(blocks: seq<Range>, rs: seq<Range>, i: nat, limit: nat, f: nat)
    requires i <= |rs| && NodesClear(blocks, rs[..i], limit) && Spaced(blocks) && Footprint(blocks, f)
    requires Cover(blocks, f) <= Cover(rs[..i], f)
    ensures InitFrame(rs, limit, f)
  {
    var k :| 0 <= k < |blocks| && blocks[k].Touches(f);
    assert rs == rs[..i] + rs[i..];
    CoverConcat(rs[..i], rs[i..], f);
    if blocks[k].start < blocks[k].end {
      CoverMember(blocks, k, f);
    } else {
      LeavesNodeWiden(rs, i, limit, f);
    }
  }

  lemma FilledFootprint(kernel: seq<Range>, user: seq<Range>, rs: seq<Range>, i: nat, limit: nat, frontier: nat)
    requires i <= |rs| && Filled(kernel, user, rs[..i], limit, frontier)
    ensures forall f: nat :: Footprint(kernel, f) || Footprint(user, f) ==> InitFrame(rs, limit, f)
  {
    forall f: nat | Footprint(kernel, f) || Footprint(user, f)
      ensures InitFrame(rs, limit, f)
    {
      hide Footprint, NodesClear, Spaced, InitFrame;
      if Footprint(kernel, f) {
        BlockFootprint(kernel, rs, i, limit, f);
      } else {
        BlockFootprint(user, rs, i, limit, f);
      }
    }
  }

  lemma PartFootprint(rs: seq<Range>, i: nat, limit: nat, part: Range)
    requires i < |rs| && rs[i].start <= part.start && part.end <= rs[i].end
    requires part.start < part.end || part == rs[i] || (part.start == limit && Marks(rs[i], limit))
    ensures forall f: nat :: part.Touches(f) ==> InitFrame(rs, limit, f)
  {
    forall f: nat | part.Touches(f)
      ensures InitFrame(rs, limit, f)
    {
      if part.start < part.end {
        CoverMember(rs, i, f);
      } else if part == rs[i] {
        assert rs[i].Count() == 0 && rs[i].start == f;
      }
    }
  }

  lemma LeavesNodeSame(a: seq<Range>, b: seq<Range>, limit: nat, f: nat)
    requires multiset(a) == multiset(b) && LeavesNode(a, limit, f)
    ensures LeavesNode(b, limit, f)
  {
    if FramelessAt(a, f) {
      FramelessSame(a, b, f);
    } else {
      EndsAtSame(a, b, limit);
    }
  }

  lemma EndsAtSame(a: seq<Range>, b: seq<Range>, limit: nat)
    requires multiset(a) == multiset(b) && EndsAt(a, limit)
    ensures EndsAt(b, limit)
  {
    var i :| 0 <= i < |a| && Marks(a[i], limit);
    assert a[i] in multiset(b);
    var j :| 0 <= j < |b| && b[j] == a[i];
  }

  lemma RegionEndSame(a: seq<Range>, b: seq<Range>, f: nat)
    requires multiset(a) == multiset(b) && RegionEndsAt(a, f)
    ensures RegionEndsAt(b, f)
  {
    var i :| 0 <= i < |a| && a[i].start < a[i].end == f;
    assert a[i] in multiset(b);
    var j :| 0 <= j < |b| && b[j] == a[i];
  }

  lemma FramelessSame(a: seq<Range>, b: seq<Range>, f: nat)
    requires multiset(a) == multiset(b) && FramelessAt(a, f)
    ensures FramelessAt(b, f)
  {
    var i :| 0 <= i < |a| && a[i].Count() == 0 && a[i].start == f;
    assert a[i] in multiset(b);
    var j :| 0 <= j < |b| && b[j] == a[i];
  }

  lemma SameGaps(a: seq<Range>, b: seq<Range>)
    requires multiset(a) == multiset(b) && forall f: nat :: Cover(a, f) == Cover(b, f)
    ensures forall f: nat :: RegionEndsAt(a, f) <==> RegionEndsAt(b, f)
    ensures forall f: nat :: Gap(a, f) <==> Gap(b, f)
  {
    hide RegionEndsAt, FramelessAt;
    forall f: nat
      ensures RegionEndsAt(a, f) <==> RegionEndsAt(b, f)
      ensures FramelessAt(a, f) <==> FramelessAt(b, f)
    {
      if RegionEndsAt(a, f) {
        RegionEndSame(a, b, f);
      }
      if RegionEndsAt(b, f) {
        RegionEndSame(b, a, f);
      }
      if FramelessAt(a, f) {
        FramelessSame(a, b, f);
      }
      if FramelessAt(b, f) {
        FramelessSame(b, a, f);
      }
    }
  }

  /** Sorting does not change which frames `init` may write. */
  lemma SameInitFrames(a: seq<Range>, b: seq<Range>, limit: nat)
    requires multiset(a) == multiset(b) && forall f: nat :: Cover(a, f) == Cover(b, f)
    ensures EndsAt(a, limit) <==> EndsAt(b, limit)
    ensures forall f: nat :: LeavesNode(a, limit, f) <==> LeavesNode(b, limit, f)
    ensures forall f: nat :: InitFrame(a, limit, f) <==> InitFrame(b, limit, f)
  {
    hide EndsAt, FramelessAt, LeavesNode;
    if EndsAt(a, limit) {
      EndsAtSame(a, b, limit);
    }
    if EndsAt(b, limit) {
      EndsAtSame(b, a, limit);
    }
    forall f: nat
      ensures LeavesNode(a, limit, f) <==> LeavesNode(b, limit, f)
    {
      if LeavesNode(a, limit, f) {
        LeavesNodeSame(a, b, limit, f);
      }
      if LeavesNode(b, limit, f) {
        LeavesNodeSame(b, a, limit, f);
      }
    }
  }
}
