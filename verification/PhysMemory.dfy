/** Physical memory: page frames of 512 words of 8 bytes, addressed by frame number.

A word is kept as the two fields a page-table entry has: the frame number in the address
bits and the remaining bits as flags. The same words are read as the `PageFrameNode`s that
the free lists keep inside free frames (os/kernel/src/memory/physical.rs:126-152), so what a
list leaves behind in a frame is what the next owner of the frame finds there. */
module PhysMemory {

  const PAGE_SIZE := 4096

  datatype Word = Word(frame: nat, flags: nat)

  /** An unused page-table entry. */
  const ZERO_WORD := Word(0, 0)

  type PageFrame = w: seq<Word> | |w| == 512 witness seq(512, _ => Word(0, 0))

  /** A page table without entries. */
  function ZeroFrame(): (w: PageFrame)
    ensures forall i :: 0 <= i < 512 ==> w[i] == ZERO_WORD
  {
    seq(512, _ => ZERO_WORD)
  }

  /** A node of a free list. `next` is the frame number of the next node; 0 is the null
      pointer that stands for `None`, so frame 0 can hold no node. */
  datatype Node = Node(frameCount: nat, next: nat)

  function ReadNode(w: PageFrame): Node {
    Node(w[0].frame * PAGE_SIZE + w[0].flags, w[1].frame)
  }

  /** The first word of a node. Read as a page-table entry it is present for odd counts. */
  function CountWord(frameCount: nat): Word {
    Word(frameCount / PAGE_SIZE, frameCount % PAGE_SIZE)
  }

  /** Writing a node touches the first two words of the frame and no others. */
  function WriteNode(w: PageFrame, n: Node): (r: PageFrame)
    ensures ReadNode(r) == n && r[0] == CountWord(n.frameCount)
    ensures forall i :: 2 <= i < 512 ==> r[i] == w[i]
  {
    w[0 := CountWord(n.frameCount)][1 := Word(n.next, 0)]
  }

  /** What every frame of a memory reads as when it is taken for a node. */
  function NodeView(m: seq<PageFrame>): (ns: seq<Node>)
    ensures |ns| == |m|
    ensures forall f :: 0 <= f < |m| ==> ns[f] == ReadNode(m[f])
  {
    seq(|m|, f requires 0 <= f < |m| => ReadNode(m[f]))
  }
}
