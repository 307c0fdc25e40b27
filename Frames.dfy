/**
 * Frame indices and half-open frame windows, shared by the clip extractors.
 */
module Frames {

  /** The half-open window [start, end) of frame indices. */
  datatype Span = Span(start: int, end: int)

  predicate Covers(w: Span, f: int)
  {
    w.start <= f < w.end
  }

  /** Python's max and min on frame indices. */
  function Max(a: int, b: int): int { if a >= b then a else b }

  function Min(a: int, b: int): int { if a <= b then a else b }

  /**
   * The frame indices a window covers (empty when end <= start). The bare
   * bound makes the set finite; Covers gives the comprehension its trigger.
   */
  ghost function FrameSet(w: Span): set<int>
  {
    set f: int | w.start <= f < w.end && Covers(w, f)
  }

  lemma EmptyWindow(w: Span)
    requires w.end <= w.start
    ensures FrameSet(w) == {}
  {
    assert forall g :: !Covers(w, g);
  }

  /** Python's range(lo, hi) over frame indices. */
  function FrameRange(lo: int, hi: int): (r: seq<int>)
    ensures |r| == if lo < hi then hi - lo else 0
    ensures forall k :: 0 <= k < |r| ==> r[k] == lo + k
    decreases hi - lo
  {
    if lo >= hi then [] else [lo] + FrameRange(lo + 1, hi)
  }

  /** No two windows of the list share a frame. */
  ghost predicate PairwiseDisjoint(ws: seq<Span>)
  {
    forall j, k :: 0 <= j < k < |ws| ==> FrameSet(ws[j]) !! FrameSet(ws[k])
  }

  /** Every window of the list lies inside the frames [0, n) and is not empty. */
  predicate InsideFrames(ws: seq<Span>, n: int)
  {
    forall k :: 0 <= k < |ws| ==> 0 <= ws[k].start < ws[k].end <= n
  }
}
