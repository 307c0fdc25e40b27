/**
 * predict_frames.py: scan the frames with the four action models, then cut
 * one clip per detection, clamped to the video and dropped whole when it
 * overlaps a clip already cut for the same class.
 */
module PredictFrames {
  import opened Frames
  import opened ActionScan

  const MAX_FRAMES: nat := 10
  const THRESHOLD: real := 0.4
  const PRE_FRAMES: int := 10
  const POST_FRAMES: int := 30
  const SKIP_AFTER_DETECTION: nat := 30

  const Config: ScanConfig := ScanConfig(MAX_FRAMES, THRESHOLD, SKIP_AFTER_DETECTION)

  /** An output clip: directory clip_{ordinal:04d}, cut from `window`, holding `frames` in order. */
  datatype Clip = Clip(ordinal: nat, window: Span, frames: seq<int>)

  /** The window of a candidate centre, clamped to the frames [0, n). */
  function ClampedWindow(center: int, n: int): Span
  {
    Span(Max(center - PRE_FRAMES, 0), Min(center + POST_FRAMES, n))
  }

  /** The frames covered by the windows ws: the allocator's `used` set. */
  ghost function Covered(ws: seq<Span>): set<int>
  {
    if ws == [] then {} else Covered(ws[..|ws| - 1]) + FrameSet(ws[|ws| - 1])
  }

  /**
   * The windows accepted for one class, candidates taken in order: a
   * candidate is accepted when its clamped window shares no frame with the
   * windows accepted before it.
   */
  ghost function Allocated(centers: seq<int>, n: int): seq<Span>
  {
    if centers == [] then []
    else
      var accepted := Allocated(centers[..|centers| - 1], n);
      var w := ClampedWindow(centers[|centers| - 1], n);
      if FrameSet(w) !! Covered(accepted) then accepted + [w] else accepted
  }

  /** The clips written for the accepted windows ws: numbered from 0, each holding its whole window. */
  ghost function ClipsOf(ws: seq<Span>): seq<Clip>
  {
    if ws == [] then []
    else
      var w := ws[|ws| - 1];
      ClipsOf(ws[..|ws| - 1]) + [Clip(|ws| - 1, w, FrameRange(w.start, w.end))]
  }

  /** Python's any(f in used for f in range(start, end)). */
  function Overlaps(w: Span, used: set<int>): (r: bool)
    ensures r <==> !(FrameSet(w) !! used)
  {
    var r := exists f | w.start <= f < w.end :: f in used;
    assert r ==> !(FrameSet(w) !! used) by {
      if r {
        var f :| w.start <= f < w.end && f in used;
        assert Covers(w, f);
      }
    }
    r
  }

  /** Adds every frame of w to `used`. */
  method Claim(used: set<int>, w: Span) returns (used': set<int>)
    ensures used' == used + FrameSet(w)
  {
    used' := used;
    var f := w.start;
    while f < w.end
      invariant w.start <= f <= Max(w.start, w.end)
      invariant used' == used + FrameSet(Span(w.start, f))
    {
      used' := used' + {f};
      f := f + 1;
    }
    if w.start >= w.end {
      EmptyWindow(w);
      EmptyWindow(Span(w.start, f));
    }
  }

  /** Copies the frames of w, in order, into a clip directory; every copy is recorded. */
  method CopyFrames(w: Span) returns (frames: seq<int>)
    ensures frames == FrameRange(w.start, w.end)
  {
    frames := [];
    var f := w.start;
    while f < w.end
      invariant w.start <= f <= Max(w.start, w.end)
      invariant frames == FrameRange(w.start, f)
    {
      frames := frames + [f];
      f := f + 1;
    }
    assert w.start < w.end ==> f == w.end;
  }

  /**
   * Clip saving for one class: `used` and `clip_index` start afresh, each
   * centre's clamped window is dropped when any of its frames is used, and
   * otherwise claims its frames and is copied into the next clip directory.
   */
  method AllocateClass(centers: seq<int>, n: int) returns (clips: seq<Clip>, used: set<int>)
    ensures clips == ClipsOf(Allocated(centers, n))
    ensures used == Covered(Allocated(centers, n))
  {
    clips, used := [], {};
    var clipIndex := 0;
    ghost var accepted: seq<Span> := [];
    for k := 0 to |centers|
      invariant accepted == Allocated(centers[..k], n)
      invariant used == Covered(accepted)
      invariant clipIndex == |clips| == |accepted|
      invariant clips == ClipsOf(accepted)
    {
      assert centers[..k + 1][..k] == centers[..k];
      var center := centers[k];
      var start := Max(center - PRE_FRAMES, 0);
      var end := Min(center + POST_FRAMES, n);
      var w := Span(start, end);
      if Overlaps(w, used) {
        continue;
      }
      used := Claim(used, w);
      var frames := CopyFrames(w);
      assert (accepted + [w])[..|accepted|] == accepted;
      accepted := accepted + [w];
      clips := clips + [Clip(clipIndex, w, frames)];
      clipIndex := clipIndex + 1;
    }
    assert centers[..|centers|] == centers;
  }

  /**
   * Clip saving for all classes, in the order of the model dictionary; each
   * class gets its own `used` set and its own clip numbering.
   */
  method SaveClips(detected: map<ActionClass, seq<int>>, n: int) returns (clips: map<ActionClass, seq<Clip>>)
    requires forall c :: c in detected <==> c in Classes
    ensures forall c :: c in clips <==> c in Classes
    ensures forall c :: c in clips ==> clips[c] == ClipsOf(Allocated(detected[c], n))
  {
    clips := map[];
    for k := 0 to |Classes|
      invariant forall c :: c in clips <==> exists j :: 0 <= j < k && Classes[j] == c
      invariant forall c :: c in clips ==> clips[c] == ClipsOf(Allocated(detected[c], n))
    {
      var cls := Classes[k];
      var classClips, _ := AllocateClass(detected[cls], n);
      clips := clips[cls := classClips];
    }
    forall c | c in Classes
      ensures c in clips
    {
      assert Classes[IndexOf(c)] == c;
    }
  }

  /** The clips of one class: numbered 0, 1, 2, ..., each a non-empty window inside [0, n) copied whole, no two sharing a frame. */
  ghost predicate ValidClips(clips: seq<Clip>, n: int)
  {
    && (forall k :: 0 <= k < |clips| ==>
          && clips[k].ordinal == k
          && 0 <= clips[k].window.start < clips[k].window.end <= n
          && clips[k].frames == FrameRange(clips[k].window.start, clips[k].window.end))
    && (forall j, k :: 0 <= j < k < |clips| ==> FrameSet(clips[j].window) !! FrameSet(clips[k].window))
  }

  /** The whole script: scan the n frames, then save the clips of every class. */
  method Run(n: nat, conf: Confidence) returns (clips: map<ActionClass, seq<Clip>>)
    ensures forall c :: c in clips <==> c in Classes
    ensures forall c :: c in clips ==> clips[c] == ClipsOf(Allocated(ClassCenters(n, Config, conf, c), n))
    ensures forall c :: c in clips ==> ValidClips(clips[c], n)
  {
    var detected := Scan(n, Config, conf);
    clips := SaveClips(detected, n);
    forall c | c in clips
      ensures ValidClips(clips[c], n)
    {
      var centers := ClassCenters(n, Config, conf, c);
      ScanCentersSound(n, Config, conf, c);
      AllocatedInside(centers, n);
      AllocatedDisjoint(centers, n);
      ClipsOfShape(Allocated(centers, n));
    }
  }

  lemma {:induction false} ClipsOfShape(ws: seq<Span>)
    ensures |ClipsOf(ws)| == |ws|
    ensures forall k :: 0 <= k < |ws| ==> ClipsOf(ws)[k] == Clip(k, ws[k], FrameRange(ws[k].start, ws[k].end))
  {
    if ws != [] {
      ClipsOfShape(ws[..|ws| - 1]);
    }
  }

  /** `used` is exactly the union of the accepted windows. */
  lemma {:induction false} CoveredIsUnion(ws: seq<Span>)
    ensures forall f :: f in Covered(ws) <==> exists k :: 0 <= k < |ws| && f in FrameSet(ws[k])
  {
    if ws != [] {
      var front := ws[..|ws| - 1];
      CoveredIsUnion(front);
      forall f | f in Covered(ws)
        ensures exists k :: 0 <= k < |ws| && f in FrameSet(ws[k])
      {
        if f in Covered(front) {
          var k :| 0 <= k < |front| && f in FrameSet(front[k]);
          assert ws[k] == front[k];
        }
      }
      forall k | 0 <= k < |ws|
        ensures FrameSet(ws[k]) <= Covered(ws)
      {
        if k < |front| {
          assert ws[k] == front[k];
        }
      }
    }
  }

  /** The windows accepted for one class are pairwise disjoint. */
  lemma {:induction false} AllocatedDisjoint(centers: seq<int>, n: int)
    ensures PairwiseDisjoint(Allocated(centers, n))
  {
    if centers != [] {
      var front := centers[..|centers| - 1];
      var accepted := Allocated(front, n);
      var w := ClampedWindow(centers[|centers| - 1], n);
      AllocatedDisjoint(front, n);
      if FrameSet(w) !! Covered(accepted) {
        var ws := accepted + [w];
        CoveredIsUnion(accepted);
        forall j, k | 0 <= j < k < |ws|
          ensures FrameSet(ws[j]) !! FrameSet(ws[k])
        {
          if k < |accepted| {
            assert ws[j] == accepted[j] && ws[k] == accepted[k];
          } else {
            assert ws[j] == accepted[j] && ws[k] == w;
            assert FrameSet(accepted[j]) <= Covered(accepted);
          }
        }
      }
    }
  }

  /** Centres inside [0, n) give non-empty windows inside [0, n). */
  lemma {:induction false} AllocatedInside(centers: seq<int>, n: int)
    requires forall k :: 0 <= k < |centers| ==> 0 <= centers[k] < n
    ensures InsideFrames(Allocated(centers, n), n)
  {
    if centers != [] {
      var front := centers[..|centers| - 1];
      assert forall k :: 0 <= k < |front| ==> front[k] == centers[k];
      AllocatedInside(front, n);
    }
  }

  /**
   * First come, first served: the windows accepted from a prefix of the
   * candidates stay accepted, in the same positions, whatever comes later.
   */
  lemma {:induction false} AllocatedPrefix(centers: seq<int>, n: int)
    ensures forall k :: 0 <= k <= |centers| ==> Allocated(centers[..k], n) <= Allocated(centers, n)
  {
    if centers != [] {
      var front := centers[..|centers| - 1];
      AllocatedPrefix(front, n);
      assert Allocated(front, n) <= Allocated(centers, n);
      assert centers[..|centers|] == centers;
      forall k | 0 <= k < |centers|
        ensures Allocated(centers[..k], n) <= Allocated(centers, n)
      {
        assert centers[..k] == front[..k];
      }
    }
  }

  /** Every window of ws is the clamped window of one of the candidates. */
  ghost predicate DrawnFrom(ws: seq<Span>, centers: seq<int>, n: int)
  {
    forall k :: 0 <= k < |ws| ==> exists j :: 0 <= j < |centers| && ws[k] == ClampedWindow(centers[j], n)
  }

  /** Every accepted window is the clamped window of one of the candidates. */
  lemma {:induction false} AllocatedFromCandidates(centers: seq<int>, n: int)
    ensures DrawnFrom(Allocated(centers, n), centers, n)
  {
    if centers != [] {
      var front := centers[..|centers| - 1];
      var accepted := Allocated(front, n);
      var ws := Allocated(centers, n);
      AllocatedFromCandidates(front, n);
      forall k | 0 <= k < |ws|
        ensures exists j :: 0 <= j < |centers| && ws[k] == ClampedWindow(centers[j], n)
      {
        if k < |accepted| {
          var j :| 0 <= j < |front| && accepted[k] == ClampedWindow(front[j], n);
          assert ws[k] == accepted[k] && front[j] == centers[j];
        } else {
          assert ws[k] == ClampedWindow(centers[|centers| - 1], n);
        }
      }
    }
  }

  /**
   * No candidate is dropped without cause: every candidate's clamped window
   * is accepted or shares a frame with an accepted window.
   */
  lemma {:induction false} AllocatedMaximal(centers: seq<int>, n: int)
    ensures var ws := Allocated(centers, n);
      forall j :: 0 <= j < |centers| ==>
        var w := ClampedWindow(centers[j], n);
        w in ws || !(FrameSet(w) !! Covered(ws))
  {
    if centers != [] {
      var front := centers[..|centers| - 1];
      var accepted := Allocated(front, n);
      var ws := Allocated(centers, n);
      AllocatedMaximal(front, n);
      assert accepted <= ws;
      assert Covered(accepted) <= Covered(ws) by {
        if ws != accepted {
          assert ws[..|ws| - 1] == accepted;
        }
      }
      forall j | 0 <= j < |centers|
        ensures var w := ClampedWindow(centers[j], n); w in ws || !(FrameSet(w) !! Covered(ws))
      {
        if j < |front| {
          assert front[j] == centers[j];
          var w := ClampedWindow(centers[j], n);
          if w in accepted {
            var k :| 0 <= k < |accepted| && accepted[k] == w;
            assert ws[k] == w;
          }
        }
      }
    }
  }
}
