/** The page-frame allocator as it lies in memory: a linked list whose nodes are written into
the free frames themselves (os/kernel/src/memory/physical.rs:126-282). */
module FreeLists {
  import opened Ranges
  import opened PhysMemory
  import BlockLists

  /** The frame number stored as a link to block `i`. */
  function Link(blocks: seq<Range>, i: nat): nat {
    if i < |blocks| then blocks[i].start else 0
  }

  ghost predicate NodeHolds(ns: seq<Node>, blocks: seq<Range>, i: nat)
    requires i < |blocks|
  {
    && 0 < blocks[i].start < |ns|
    && ns[blocks[i].start] == Node(blocks[i].Count(), Link(blocks, i + 1))
  }

  /** The nodes `ns` hold the list `blocks`, starting at frame `first`. */
  ghost predicate Linked(ns: seq<Node>, first: nat, blocks: seq<Range>) {
    && first == Link(blocks, 0)
    && forall i :: 0 <= i < |blocks| ==> NodeHolds(ns, blocks, i)
  }

  /** Between two memories, nothing changes outside the footprint of `blocks`, and within it
      only the first two words of a frame do. */
  ghost predicate WritesNodesIn(m0: seq<PageFrame>, m1: seq<PageFrame>, blocks: seq<Range>) {
    && |m0| == |m1|
    && (forall f :: 0 <= f < |m0| && !Footprint(blocks, f) ==> m1[f] == m0[f])
    && (forall f, i :: 0 <= f < |m0| && 2 <= i < 512 ==> m1[f][i] == m0[f][i])
  }

  lemma TwoWrites(m0: seq<PageFrame>, m1: seq<PageFrame>, m2: seq<PageFrame>, blocks: seq<Range>)
    requires WritesNodesIn(m0, m1, blocks) && WritesNodesIn(m1, m2, blocks)
    ensures WritesNodesIn(m0, m2, blocks)
  {
  }

  lemma WritesWiden(m0: seq<PageFrame>, m1: seq<PageFrame>, a: seq<Range>, b: seq<Range>)
    requires WritesNodesIn(m0, m1, a)
    requires forall f: nat :: Footprint(a, f) ==> Footprint(b, f)
    ensures WritesNodesIn(m0, m1, b)
  {
  }

  lemma NodeOf(blocks: seq<Range>, r: Range, size: nat)
    requires BlockLists.Clear(blocks, r) && Within([r], 1, size)
    ensures BlockLists.Clear(blocks, r.Written()) && Within([r.Written()], 1, size)
  {
    assert [r][0] == r;
  }

  lemma SameArea(m0: seq<PageFrame>, m1: seq<PageFrame>, blocks: seq<Range>, r: Range)
    requires WritesNodesIn(m0, m1, blocks + [r.Written()])
    ensures WritesNodesIn(m0, m1, blocks + [r])
  {
    forall f: nat | Footprint(blocks + [r.Written()], f)
      ensures Footprint(blocks + [r], f)
    {
      var i :| 0 <= i < |blocks + [r.Written()]| && (blocks + [r.Written()])[i].Touches(f);
      assert (blocks + [r])[i].Touches(f);
    }
    WritesWiden(m0, m1, blocks + [r.Written()], blocks + [r]);
  }

  /** The first frame of an allocation still reads as the node of the block it was cut from, with
      the count of that block: nothing zeroes it. */
  ghost predicate StaleNode(w: PageFrame, frameCount: nat) {
    w[0] == CountWord(frameCount) && w[1] == ZERO_WORD
  }

  /** The frame of the node before block `i`; 0 stands for the head. */
  function Before(blocks: seq<Range>, i: nat): nat
    requires i <= |blocks|
  {
    if i == 0 then 0 else blocks[i - 1].start
  }

  /** Setting the `next` of the node in frame `current`; the head lies outside. */
  function SetNextIn(ns: seq<Node>, current: nat, next: nat): seq<Node>
    requires current < |ns|
  {
    if current == 0 then ns else ns[current := ns[current].(next := next)]
  }

  lemma NodesBound(ns: seq<Node>, first: nat, blocks: seq<Range>, i: nat)
    requires Linked(ns, first, blocks) && |ns| > 0 && i <= |blocks|
    ensures Before(blocks, i) < |ns|
    ensures i > 0 ==> Before(blocks, i) != 0 && Footprint(blocks, Before(blocks, i))
  {
    if i > 0 {
      assert NodeHolds(ns, blocks, i - 1);
      assert blocks[i - 1].Touches(blocks[i - 1].start);
    }
  }

  /** Frame `f` holds the node of block `k`, if of any. */
  ghost predicate OnlyNodeAt(blocks: seq<Range>, k: int, f: nat) {
    forall j :: 0 <= j < |blocks| && j != k ==> blocks[j].start != f
  }

  lemma NodesApart(blocks: seq<Range>, k: nat)
    requires Ascending(blocks) && k < |blocks|
    ensures OnlyNodeAt(blocks, k, blocks[k].start)
  {
  }

  /** Writing one node and redirecting its predecessor links it in at position `i`. */
  lemma LinkIn(ns: seq<Node>, first: nat, blocks: seq<Range>, i: nat, b: Range)
    requires Linked(ns, first, blocks) && |ns| > 0
    requires i <= |blocks| && 0 < b.start < |ns| && Before(blocks, i) < |ns|
    requires OnlyNodeAt(blocks, -1, b.start) && (i > 0 ==> OnlyNodeAt(blocks, i - 1, blocks[i - 1].start))
    ensures Linked(SetNextIn(ns[b.start := Node(b.Count(), Link(blocks, i))], Before(blocks, i), b.start),
                   if i == 0 then b.start else first, blocks[..i] + [b] + blocks[i..])
  {
    var ns2 := SetNextIn(ns[b.start := Node(b.Count(), Link(blocks, i))], Before(blocks, i), b.start);
    var t := blocks[..i] + [b] + blocks[i..];
    NodesBound(ns, first, blocks, i);
    forall j | 0 <= j < |t|
      ensures NodeHolds(ns2, t, j)
    {
      if j < i {
        assert NodeHolds(ns, blocks, j);
      } else if j > i {
        assert NodeHolds(ns, blocks, j - 1);
      }
    }
  }

  /** Clearing the node of block `k` and redirecting its predecessor links the block out. */
  lemma LinkOut(ns: seq<Node>, first: nat, blocks: seq<Range>, k: nat)
    requires Linked(ns, first, blocks) && |ns| > 0 && k < |blocks|
    requires blocks[k].start < |ns| && Before(blocks, k) < |ns|
    requires OnlyNodeAt(blocks, k, blocks[k].start) && (k > 0 ==> OnlyNodeAt(blocks, k - 1, blocks[k - 1].start))
    ensures var ns2 := SetNextIn(SetNextIn(ns, blocks[k].start, 0), Before(blocks, k), Link(blocks, k + 1));
      && Linked(ns2, if k == 0 then Link(blocks, 1) else first, BlockLists.Remove(blocks, k))
      && ns2[blocks[k].start] == Node(blocks[k].Count(), 0)
  {
    var ns2 := SetNextIn(SetNextIn(ns, blocks[k].start, 0), Before(blocks, k), Link(blocks, k + 1));
    var t := BlockLists.Remove(blocks, k);
    assert NodeHolds(ns, blocks, k);
    NodesBound(ns, first, blocks, k);
    forall j | 0 <= j < |t|
      ensures NodeHolds(ns2, t, j)
    {
      assert NodeHolds(ns, blocks, if j < k then j else j + 1);
    }
  }

  /** Writes to frames that hold none of its nodes leave a list alone. */
  lemma ListUntouched(m0: seq<PageFrame>, m1: seq<PageFrame>, first: nat, blocks: seq<Range>, area: seq<Range>)
    requires Linked(NodeView(m0), first, blocks) && WritesNodesIn(m0, m1, area)
    requires forall i :: 0 <= i < |blocks| ==> !Footprint(area, blocks[i].start)
    ensures Linked(NodeView(m1), first, blocks)
  {
    forall i | 0 <= i < |blocks|
      ensures NodeHolds(NodeView(m1), blocks, i)
    {
      assert NodeHolds(NodeView(m0), blocks, i);
    }
  }

  lemma ListUnwritten(m0: seq<PageFrame>, m1: seq<PageFrame>, first: nat, blocks: seq<Range>, f: nat)
    requires Linked(NodeView(m0), first, blocks) && |m1| == |m0| && !Footprint(blocks, f)
    requires forall g :: 0 <= g < |m0| && g != f ==> m1[g] == m0[g]
    ensures Linked(NodeView(m1), first, blocks)
  {
    forall i | 0 <= i < |blocks|
      ensures NodeHolds(NodeView(m1), blocks, i)
    {
      assert NodeHolds(NodeView(m0), blocks, i);
      assert blocks[i].Touches(blocks[i].start);
    }
  }

  /** Overwriting the node of block `k` with one that has no `next` ends the list there. */
  lemma CutAt(ns: seq<Node>, ns1: seq<Node>, first: nat, blocks: seq<Range>, k: nat, last: Range)
    requires Linked(ns, first, blocks) && |ns1| == |ns| && k < |blocks|
    requires last.start == blocks[k].start < |ns| && ns1[last.start] == Node(last.Count(), 0)
    requires forall j :: 0 <= j < k ==> blocks[j].start < |ns| && ns1[blocks[j].start] == ns[blocks[j].start]
    ensures Linked(ns1, first, blocks[..k] + [last])
  {
    var t := blocks[..k] + [last];
    assert NodeHolds(ns, blocks, k);
    forall j | 0 <= j < |t|
      ensures NodeHolds(ns1, t, j)
    {
      assert NodeHolds(ns, blocks, j);
    }
  }

  /** Memory after the remainder of block `k` has been inserted again. */
  lemma Reinserted(m0: seq<PageFrame>, m1: seq<PageFrame>, m2: seq<PageFrame>,
                   blocks: seq<Range>, k: nat, n: nat)
    requires Ascending(blocks) && Within(blocks, 1, |m0|) && k < |blocks| && n < blocks[k].Count()
    requires WritesNodesIn(m0, m1, blocks)
    requires WritesNodesIn(m1, m2, BlockLists.Remove(blocks, k) + [Range(blocks[k].start + n, blocks[k].end)])
    ensures WritesNodesIn(m0, m2, blocks)
    ensures n > 0 ==> m2[blocks[k].start] == m1[blocks[k].start]
  {
    BlockLists.RemainderFits(blocks, k, n, |m0|);
    WritesWiden(m1, m2, BlockLists.Remove(blocks, k) + [Range(blocks[k].start + n, blocks[k].end)], blocks);
    TwoWrites(m0, m1, m2, blocks);
  }

  lemma BottomFusion(blocks: seq<Range>, frames: Range, k: nat, size: nat)
    requires Ascending(blocks) && Within(blocks, 1, size)
    requires BlockLists.Freeable(blocks, frames) && Within([frames], 1, size)
    requires k == BlockLists.FuseAt(blocks, frames) < |blocks| && blocks[k].start == frames.end
    ensures BlockLists.Free(blocks, frames)
      == if frames.start == blocks[k].start then blocks else blocks[..k] + [blocks[k]]
    ensures Ascending(BlockLists.Free(blocks, frames)) && Within(BlockLists.Free(blocks, frames), 1, size)
    ensures OnlyNodeAt(blocks, k, blocks[k].start) && forall j :: 0 <= j <= k ==> 0 < blocks[j].start < size
    ensures forall j :: 0 <= j < k ==> blocks[j].start != frames.start
    ensures (blocks + [frames])[k].Touches(blocks[k].start) && (blocks + [frames])[|blocks|].Touches(frames.start)
    ensures 0 < frames.start < size && (frames.start == blocks[k].start ==> frames.Count() == 0)
  {
    assert [frames][0] == frames;
    BlockLists.FreeAscending(blocks, frames);
    BlockLists.FreeWithin(blocks, frames, 1, size);
    NodesApart(blocks, k);
    assert blocks[..k] + [blocks[k]] == blocks[..k + 1];
  }

  lemma TopFusion(blocks: seq<Range>, frames: Range, k: nat, size: nat)
    requires Ascending(blocks) && Within(blocks, 1, size)
    requires BlockLists.Freeable(blocks, frames) && Within([frames], 1, size)
    requires k == BlockLists.FuseAt(blocks, frames) < |blocks|
    requires frames.end != blocks[k].start && blocks[k].end == frames.start
    ensures BlockLists.Free(blocks, frames) == blocks[..k] + [Range(blocks[k].start, blocks[k].end + frames.Count())]
    ensures Ascending(BlockLists.Free(blocks, frames)) && Within(BlockLists.Free(blocks, frames), 1, size)
    ensures OnlyNodeAt(blocks, k, blocks[k].start) && forall j :: 0 <= j <= k ==> 0 < blocks[j].start < size
    ensures Range(blocks[k].start, blocks[k].end + frames.Count()).Count() == blocks[k].Count() + frames.Count()
    ensures (blocks + [frames])[k].Touches(blocks[k].start)
  {
    BlockLists.FreeAscending(blocks, frames);
    BlockLists.FreeWithin(blocks, frames, 1, size);
    NodesApart(blocks, k);
  }

  class PageFrameListAllocator {
    const mem: array<PageFrame>
    var head: Node
    /** The blocks of the list in order. */
    ghost var blocks: seq<Range>

    ghost predicate Valid()
      reads this, mem
    {
      && mem.Length > 0
      && Ascending(blocks)
      && Within(blocks, 1, mem.Length)
      && Linked(Nodes(), head.next, blocks)
    }

    ghost function Nodes(): seq<Node>
      reads mem
    {
      NodeView(mem[..])
    }

    constructor (mem: array<PageFrame>)
      requires mem.Length > 0
      ensures this.mem == mem && blocks == [] && Valid()
    {
      this.mem := mem;
      head := Node(0, 0);
      blocks := [];
    }

    /** The `next` of the node that the walk stands on; 0 stands for the head. */
    function NextOf(current: nat): nat
      requires current < mem.Length
      reads this, mem
    {
      if current == 0 then head.next else ReadNode(mem[current]).next
    }

    method WriteNodeAt(f: nat, node: Node, ghost area: seq<Range>)
      requires f < mem.Length && Footprint(area, f)
      modifies mem
      ensures Nodes() == old(Nodes())[f := node]
      ensures mem[f][0] == CountWord(node.frameCount) && mem[f][1] == Word(node.next, 0)
      ensures forall g :: 0 <= g < mem.Length && g != f ==> mem[g] == old(mem[g])
      ensures WritesNodesIn(old(mem[..]), mem[..], area)
    {
      mem[f] := WriteNode(mem[f], node);
    }

    method SetNext(current: nat, next: nat, ghost area: seq<Range>)
      requires current < mem.Length && (current != 0 ==> Footprint(area, current))
      modifies this`head, mem
      ensures head == if current == 0 then old(head).(next := next) else old(head)
      ensures Nodes() == SetNextIn(old(Nodes()), current, next)
      ensures current != 0 ==> mem[current][0] == CountWord(ReadNode(old(mem[current])).frameCount)
      ensures current != 0 ==> mem[current][1] == Word(next, 0)
      ensures forall g :: 0 <= g < mem.Length && (g != current || g == 0) ==> mem[g] == old(mem[g])
      ensures WritesNodesIn(old(mem[..]), mem[..], area)
    {
      if current == 0 {
        head := head.(next := next);
      } else {
        WriteNodeAt(current, ReadNode(mem[current]).(next := next), area);
      }
    }

    /** The end of every insertion: the new node is written and its predecessor, which lies
        before block `i`, redirected to it. */
    method LinkNode(current: nat, frames: Range, ghost i: nat)
      requires Valid() && frames.start <= frames.end
      requires BlockLists.Clear(blocks, frames) && Within([frames], 1, mem.Length)
      requires i <= |blocks| && current == Before(blocks, i) < mem.Length
      requires NextOf(current) == Link(blocks, i)
      requires BlockLists.Insert(blocks, frames) == blocks[..i] + [frames] + blocks[i..]
      modifies this, mem
      ensures Valid() && blocks == BlockLists.Insert(old(blocks), frames)
      ensures WritesNodesIn(old(mem[..]), mem[..], old(blocks) + [frames])
    {
      ghost var area := blocks + [frames];
      assert [frames][0] == frames && area[|blocks|].Touches(frames.start);
      if i > 0 {
        NodesBound(Nodes(), head.next, blocks, i);
        NodesApart(blocks, i - 1);
        assert area[i - 1].Touches(current);
      }
      LinkIn(Nodes(), head.next, blocks, i, frames);
      BlockLists.InsertAscending(blocks, frames);
      BlockLists.InsertWithin(blocks, frames, 1, mem.Length);
      var newBlock := Node(frames.Count(), NextOf(current));
      WriteNodeAt(frames.start, newBlock, area);
      ghost var between := mem[..];
      SetNext(current, frames.start, area);
      TwoWrites(old(mem[..]), between, mem[..], area);
      blocks := BlockLists.Insert(blocks, frames);
    }

    /** The walk stops at the first node above the new block, which is where `BlockLists.Insert`
        puts it. The node has a count of 0 for an inverted range too. */
    method Insert(frames: Range)
      requires Valid() && BlockLists.Clear(blocks, frames) && Within([frames], 1, mem.Length)
      modifies this, mem
      ensures Valid() && blocks == BlockLists.Insert(old(blocks), frames.Written())
      ensures WritesNodesIn(old(mem[..]), mem[..], old(blocks) + [frames])
    {
      var newBlock := frames.Written();
      NodeOf(blocks, frames, mem.Length);
      InsertNode(newBlock);
      SameArea(old(mem[..]), mem[..], old(blocks), frames);
    }

    method InsertNode(frames: Range)
      requires Valid() && frames.start <= frames.end
      requires BlockLists.Clear(blocks, frames) && Within([frames], 1, mem.Length)
      modifies this, mem
      ensures Valid() && blocks == BlockLists.Insert(old(blocks), frames)
      ensures WritesNodesIn(old(mem[..]), mem[..], old(blocks) + [frames])
    {
      if head.next == 0 {
        LinkNode(0, frames, 0);
        return;
      }

      var current := 0;
      ghost var i := 0;
      while NextOf(current) != 0
        invariant 0 <= i <= |blocks|
        invariant current == Before(blocks, i) < mem.Length && NextOf(current) == Link(blocks, i)
        invariant forall j :: 0 <= j < i ==> blocks[j].start <= frames.start
        decreases |blocks| - i
      {
        assert NodeHolds(Nodes(), blocks, i);
        var block := NextOf(current);
        if block > frames.start {
          BlockLists.InsertAt(blocks, frames, i);
          LinkNode(current, frames, i);
          return;
        }
        current := block;
        i := i + 1;
      }

      BlockLists.InsertAt(blocks, frames, i);
      LinkNode(current, frames, i);
    }

    /** First fit. Returns the number of the frame with the node, now unlinked, or 0. */
    method FindFreeBlock(frameCount: nat) returns (block: nat)
      requires Valid()
      modifies this, mem
      ensures Valid()
      ensures var k := BlockLists.FirstFit(old(blocks), frameCount);
        if k == |old(blocks)| then
          block == 0 && blocks == old(blocks) && mem[..] == old(mem[..])
        else
          && block == old(blocks)[k].start
          && blocks == BlockLists.Remove(old(blocks), k)
          && 0 < block < mem.Length
          && ReadNode(mem[block]) == Node(old(blocks)[k].Count(), 0)
          && StaleNode(mem[block], old(blocks)[k].Count())
      ensures WritesNodesIn(old(mem[..]), mem[..], old(blocks))
    {
      ghost var k := BlockLists.FirstFit(blocks, frameCount);
      var current := 0;
      ghost var i := 0;
      while NextOf(current) != 0
        invariant 0 <= i <= k
        invariant current == Before(blocks, i) < mem.Length && NextOf(current) == Link(blocks, i)
        decreases |blocks| - i
      {
        assert NodeHolds(Nodes(), blocks, i);
        block := NextOf(current);
        if ReadNode(mem[block]).frameCount >= frameCount {
          Unlink(current, block, k);
          return;
        } else {
          current := block;
          i := i + 1;
        }
      }
      block := 0;
    }

    /** Take block `k` out of the list: its `next` is moved to its predecessor. */
    method Unlink(current: nat, block: nat, ghost k: nat)
      requires Valid() && k < |blocks| && block == blocks[k].start
      requires current == Before(blocks, k) < mem.Length
      modifies this, mem
      ensures Valid() && blocks == BlockLists.Remove(old(blocks), k)
      ensures 0 < block < mem.Length && ReadNode(mem[block]) == Node(old(blocks)[k].Count(), 0)
      ensures StaleNode(mem[block], old(blocks)[k].Count())
      ensures WritesNodesIn(old(mem[..]), mem[..], old(blocks))
    {
      assert NodeHolds(Nodes(), blocks, k);
      NodesApart(blocks, k);
      if k > 0 {
        NodesApart(blocks, k - 1);
      }
      NodesBound(Nodes(), head.next, blocks, k);
      assert blocks[k].Touches(block);
      LinkOut(Nodes(), head.next, blocks, k);
      BlockLists.RemoveKeeps(blocks, k, mem.Length);
      hide Ascending, Within, BlockLists.Remove;
      var next := ReadNode(mem[block]).next;
      SetNext(block, 0, blocks);
      ghost var between := mem[..];
      SetNext(current, next, blocks);
      TwoWrites(old(mem[..]), between, mem[..], blocks);
      blocks := BlockLists.Remove(blocks, k);
    }

    /** Take frames from the first fit, or nothing where the kernel stops
        with "Out of memory". The frame handed out still carries the node of the block it
        began. */
    method AllocBlock(frameCount: nat) returns (r: Option<Range>)
      requires Valid()
      modifies this, mem
      ensures Valid()
      ensures BlockLists.Allocates(old(blocks), frameCount, r, blocks)
      ensures r.None? ==> mem[..] == old(mem[..])
      ensures r.Some? && frameCount > 0 ==> 0 < r.value.start < mem.Length
      ensures r.Some? && frameCount > 0 ==>
        StaleNode(mem[r.value.start], old(blocks)[BlockLists.FirstFit(old(blocks), frameCount)].Count())
      ensures WritesNodesIn(old(mem[..]), mem[..], old(blocks))
    {
      ghost var k := BlockLists.FirstFit(blocks, frameCount);
      hide Linked, Ascending, BlockLists.Insert, BlockLists.FirstFit, Total;
      var block := FindFreeBlock(frameCount);
      if block == 0 {
        return None;
      }
      var remaining := Range(block + frameCount, block + ReadNode(mem[block]).frameCount);
      if remaining.Count() > 0 {
        PutBack(remaining, old(mem[..]), old(blocks), k, frameCount);
      }
      return Some(Range(block, remaining.start));
    }

    /** Insert what remains of block `k` of `before`, which has just been unlinked. */
    method PutBack(remaining: Range, ghost m0: seq<PageFrame>, ghost before: seq<Range>, ghost k: nat, ghost n: nat)
      requires Valid() && Ascending(before) && Within(before, 1, mem.Length) && k < |before|
      requires n < before[k].Count() && remaining == Range(before[k].start + n, before[k].end)
      requires blocks == BlockLists.Remove(before, k) && WritesNodesIn(m0, mem[..], before)
      modifies this, mem
      ensures Valid() && blocks == BlockLists.Take(before, k, n)
      ensures n > 0 ==> mem[before[k].start] == old(mem[before[k].start])
      ensures WritesNodesIn(m0, mem[..], before)
    {
      BlockLists.RemainderFits(before, k, n, mem.Length);
      Insert(remaining);
      Reinserted(m0, old(mem[..]), mem[..], before, k, n);
    }

    /** The walk stops where `BlockLists.FuseAt` says: at a node that the range extends, for which a
        fused node is written, or else at the place of the range. */
    method FreeBlock(frames: Range)
      requires Valid() && BlockLists.Freeable(blocks, frames) && Within([frames], 1, mem.Length)
      modifies this, mem
      ensures Valid() && blocks == BlockLists.Free(old(blocks), frames)
      ensures WritesNodesIn(old(mem[..]), mem[..], old(blocks) + [frames])
    {
      ghost var k := BlockLists.FuseAt(blocks, frames);
      var current := 0;
      ghost var i := 0;

      while NextOf(current) != 0
        invariant 0 <= i <= k
        invariant current == Before(blocks, i) < mem.Length && NextOf(current) == Link(blocks, i)
        decreases |blocks| - i
      {
        assert NodeHolds(Nodes(), blocks, i);
        var block := NextOf(current);
        var blockEnd := block + ReadNode(mem[block]).frameCount;
        if frames.end == block {
          FuseBottom(block, frames, k);
          return;
        } else if blockEnd == frames.start {
          FuseTop(block, frames, k);
          return;
        } else if blockEnd > frames.start {
          break;
        }
        current := block;
        i := i + 1;
      }

      Insert(frames);
    }

    method FuseBottom(block: nat, frames: Range, ghost k: nat)
      requires Valid() && BlockLists.Freeable(blocks, frames) && Within([frames], 1, mem.Length)
      requires k == BlockLists.FuseAt(blocks, frames) < |blocks| && block == blocks[k].start == frames.end
      modifies this, mem
      ensures Valid() && blocks == BlockLists.Free(old(blocks), frames)
      ensures WritesNodesIn(old(mem[..]), mem[..], old(blocks) + [frames])
    {
      hide BlockLists.Free, BlockLists.Freeable, BlockLists.FuseAt, Ascending, Within;
      ghost var area := blocks + [frames];
      BottomFusion(blocks, frames, k, mem.Length);
      assert NodeHolds(Nodes(), blocks, k);
      var newBlock := Node(ReadNode(mem[block]).frameCount + frames.Count(), ReadNode(mem[block]).next);
      SetNext(block, 0, area);
      ghost var between := mem[..];
      WriteNodeAt(frames.start, newBlock, area);
      TwoWrites(old(mem[..]), between, mem[..], area);
      if frames.start == block {
        assert Nodes() == old(Nodes());
      } else {
        CutAt(old(Nodes()), Nodes(), head.next, blocks, k, blocks[k]);
      }
      blocks := BlockLists.Free(blocks, frames);
    }

    method FuseTop(block: nat, frames: Range, ghost k: nat)
      requires Valid() && BlockLists.Freeable(blocks, frames) && Within([frames], 1, mem.Length)
      requires k == BlockLists.FuseAt(blocks, frames) < |blocks| && block == blocks[k].start
      requires frames.end != block && blocks[k].end == frames.start
      modifies this, mem
      ensures Valid() && blocks == BlockLists.Free(old(blocks), frames)
      ensures WritesNodesIn(old(mem[..]), mem[..], old(blocks) + [frames])
    {
      hide BlockLists.Free, BlockLists.Freeable, BlockLists.FuseAt, Ascending, Within;
      ghost var area, fused := blocks + [frames], Range(block, blocks[k].end + frames.Count());
      TopFusion(blocks, frames, k, mem.Length);
      assert NodeHolds(Nodes(), blocks, k);
      var newBlock := Node(ReadNode(mem[block]).frameCount + frames.Count(), 0);
      WriteNodeAt(block, newBlock, area);
      CutAt(old(Nodes()), Nodes(), head.next, blocks, k, fused);
      blocks := BlockLists.Free(blocks, frames);
    }
  }
}
