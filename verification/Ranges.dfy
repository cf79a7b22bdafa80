/** Half-open ranges of page frames, and the counting functions in which ownership is stated.

`Cover(rs, f)` is the number of ranges of `rs` that hold frame `f`. Saying that a set of
lists covers a frame at most once says at the same time that the ranges are disjoint within
each list and across the lists; saying that a cover does not change says that no frame is
lost and none is gained. */
module Ranges {

  datatype Option<+T> = None | Some(value: T)

  /** A `PhysFrameRange` or `PageRange`: the numbers `start`, ..., `end - 1`. */
  datatype Range = Range(start: nat, end: nat) {
    predicate Has(f: nat) {
      start <= f < end
    }

    /** The iterator count of the range: 0 for empty and for inverted ranges. */
    function Count(): nat {
      if start < end then end - start else 0
    }

    /** What a list node at the start of the range says: its count is 0 for inverted ranges too. */
    function Written(): Range {
      Range(start, start + Count())
    }

    /** The end of the space taken by a list node describing this range: even an empty
        node occupies the frame at which it is written. */
    function Top(): nat {
      if start < end then end else start + 1
    }

    predicate Touches(f: nat) {
      start <= f < Top()
    }
  }

  function Min(a: nat, b: nat): nat {
    if a < b then a else b
  }

  function One(r: Range, f: nat): nat {
    if r.Has(f) then 1 else 0
  }

  /** How many ranges of `rs` hold frame `f`. */
  function Cover(rs: seq<Range>, f: nat): nat {
    if rs == [] then 0 else One(rs[0], f) + Cover(rs[1..], f)
  }

  /** How many frames the ranges of `rs` hold, counted with multiplicity. */
  function Total(rs: seq<Range>): nat {
    if rs == [] then 0 else rs[0].Count() + Total(rs[1..])
  }

  /** The `n` numbers from `start` on. */
  function From(start: nat, n: nat): (r: seq<nat>)
    ensures |r| == n && forall i :: 0 <= i < n ==> r[i] == start + i
  {
    seq(n, i => start + i)
  }

  /** The frames of the ranges in the order of the list. */
  function Frames(rs: seq<Range>): seq<nat> {
    if rs == [] then [] else From(rs[0].start, rs[0].Count()) + Frames(rs[1..])
  }

  /** How many frames of its range there are from frame `f` on. */
  function RunFrom(rs: seq<Range>, f: nat): nat {
    if rs == [] then 0 else if rs[0].Has(f) then rs[0].end - f else RunFrom(rs[1..], f)
  }

  ghost predicate Footprint(rs: seq<Range>, f: nat) {
    exists i :: 0 <= i < |rs| && rs[i].Touches(f)
  }

  /** Sorted by address, and no two ranges share a frame. */
  ghost predicate Ascending(rs: seq<Range>) {
    && (forall i :: 0 <= i < |rs| ==> rs[i].start <= rs[i].end)
    && (forall i, j :: 0 <= i < j < |rs| ==> rs[i].Top() <= rs[j].start)
  }

  /** Every node of the list lies in the frames from `lo` up to `hi`. */
  ghost predicate Within(rs: seq<Range>, lo: nat, hi: nat) {
    forall i :: 0 <= i < |rs| ==> lo <= rs[i].start && rs[i].Top() <= hi
  }

  lemma {:induction false} CoverConcat(a: seq<Range>, b: seq<Range>, f: nat)
    ensures Cover(a + b, f) == Cover(a, f) + Cover(b, f)
  {
    if a == [] {
      assert a + b == b;
    } else {
      assert (a + b)[1..] == a[1..] + b;
      CoverConcat(a[1..], b, f);
    }
  }

  lemma CoverSingle(r: Range, f: nat)
    ensures Cover([r], f) == One(r, f)
  {
    assert [r][1..] == [];
  }

  lemma CoverAt(rs: seq<Range>, k: nat, f: nat)
    requires k < |rs|
    ensures Cover(rs, f) == Cover(rs[..k], f) + One(rs[k], f) + Cover(rs[k + 1..], f)
  {
    assert rs == rs[..k] + ([rs[k]] + rs[k + 1..]);
    CoverConcat(rs[..k], [rs[k]] + rs[k + 1..], f);
    CoverConcat([rs[k]], rs[k + 1..], f);
    CoverSingle(rs[k], f);
  }

  /** Replacing one element by a list changes the cover by the difference. */
  lemma CoverSplice(rs: seq<Range>, k: nat, mid: seq<Range>, f: nat)
    requires k < |rs|
    ensures Cover(rs[..k] + mid + rs[k + 1..], f) + One(rs[k], f) == Cover(rs, f) + Cover(mid, f)
  {
    CoverAt(rs, k, f);
    CoverConcat(rs[..k] + mid, rs[k + 1..], f);
    CoverConcat(rs[..k], mid, f);
  }

  lemma {:induction false} TotalConcat(a: seq<Range>, b: seq<Range>)
    ensures Total(a + b) == Total(a) + Total(b)
  {
    if a == [] {
      assert a + b == b;
    } else {
      assert (a + b)[1..] == a[1..] + b;
      TotalConcat(a[1..], b);
    }
  }

  lemma TotalSplice(rs: seq<Range>, k: nat, mid: seq<Range>)
    requires k < |rs|
    ensures Total(rs[..k] + mid + rs[k + 1..]) + rs[k].Count() == Total(rs) + Total(mid)
  {
    assert rs == rs[..k] + ([rs[k]] + rs[k + 1..]);
    TotalConcat(rs[..k], [rs[k]] + rs[k + 1..]);
    TotalConcat([rs[k]], rs[k + 1..]);
    TotalConcat(rs[..k] + mid, rs[k + 1..]);
    TotalConcat(rs[..k], mid);
    assert [rs[k]][1..] == [];
  }

  /** A frame is covered exactly when some range holds it. */
  lemma {:induction false} CoverWitness(rs: seq<Range>, f: nat) returns (i: nat)
    requires Cover(rs, f) > 0
    ensures i < |rs| && rs[i].Has(f)
  {
    if rs[0].Has(f) {
      i := 0;
    } else {
      i := CoverWitness(rs[1..], f);
      i := i + 1;
    }
  }

  lemma CoverMember(rs: seq<Range>, i: nat, f: nat)
    requires i < |rs| && rs[i].Has(f)
    ensures Cover(rs, f) > 0
  {
    CoverAt(rs, i, f);
  }

  /** A cover of at most one means that the ranges are pairwise disjoint. */
  lemma CoverOnceIsDisjoint(rs: seq<Range>, i: nat, j: nat, f: nat)
    requires i < j < |rs| && Cover(rs, f) <= 1
    ensures !(rs[i].Has(f) && rs[j].Has(f))
  {
    CoverAt(rs, i, f);
    if rs[j].Has(f) {
      assert rs[i + 1..][j - i - 1] == rs[j];
      CoverMember(rs[i + 1..], j - i - 1, f);
    }
  }

  lemma {:induction false} FramesTotal(rs: seq<Range>)
    ensures |Frames(rs)| == Total(rs)
  {
    if rs != [] {
      FramesTotal(rs[1..]);
    }
  }

  lemma {:induction false} FramesConcat(a: seq<Range>, b: seq<Range>)
    ensures Frames(a + b) == Frames(a) + Frames(b)
  {
    if a == [] {
      assert a + b == b;
    } else {
      assert (a + b)[1..] == a[1..] + b;
      FramesConcat(a[1..], b);
    }
  }

  lemma {:induction false} EmptyFrames(rs: seq<Range>)
    requires forall i :: 0 <= i < |rs| ==> rs[i].Count() == 0
    ensures Frames(rs) == []
  {
    if rs != [] {
      EmptyFrames(rs[1..]);
    }
  }

  lemma {:induction false} FramesIn(rs: seq<Range>, f: nat)
    requires f in Frames(rs)
    ensures exists i :: 0 <= i < |rs| && rs[i].Has(f)
  {
    if rs[0].Has(f) {
      assert 0 <= 0 < |rs|;
    } else {
      FramesIn(rs[1..], f);
      var i :| 0 <= i < |rs[1..]| && rs[1..][i].Has(f);
      assert rs[i + 1].Has(f);
    }
  }

  lemma {:induction false} RunBehindEmpty(left: seq<Range>, right: seq<Range>, f: nat)
    requires forall i :: 0 <= i < |left| ==> left[i].Count() == 0
    ensures RunFrom(left + right, f) == RunFrom(right, f)
  {
    if left == [] {
      assert left + right == right;
    } else {
      assert (left + right)[1..] == left[1..] + right;
      assert left[0].Count() == 0;
      RunBehindEmpty(left[1..], right, f);
    }
  }

  lemma {:induction false} RunPositive(rs: seq<Range>, f: nat)
    requires f in Frames(rs)
    ensures RunFrom(rs, f) >= 1
  {
    if !rs[0].Has(f) {
      RunPositive(rs[1..], f);
    }
  }
}
