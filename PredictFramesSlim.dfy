/**
 * predict_frames_slim.py: the same scan as predict_frames.py (threshold 0.5),
 * then one clip per detection of exactly MAX_FRAMES frames centred on it,
 * dropped (never clamped) when it does not fit inside the video. Frames that
 * cannot be read are left out of the clip, which still counts.
 */
module PredictFramesSlim {
  import opened Frames
  import opened ActionScan

  const MAX_FRAMES: nat := 10
  const THRESHOLD: real := 0.5
  const SKIP_AFTER_DETECTION: nat := 30

  const Config: ScanConfig := ScanConfig(MAX_FRAMES, THRESHOLD, SKIP_AFTER_DETECTION)

  /** An output clip: directory clip_1_{ordinal:04d}, cut from `window`, holding the `frames` that could be read. */
  datatype Clip = Clip(ordinal: nat, window: Span, frames: seq<int>)

  /** `readable(f)`: reading frame f gives an image (cv2.imread does not return None). */
  type Readable = int -> bool

  /** The window of exactly MAX_FRAMES frames around a centre. */
  function FixedWindow(center: int): Span
  {
    var start := center - MAX_FRAMES / 2;
    Span(start, start + MAX_FRAMES)
  }

  predicate Fits(w: Span, n: int)
  {
    !(w.start < 0 || w.end > n)
  }

  /** The windows kept for one class: those of the candidates that fit in [0, n), in order. */
  ghost function Kept(centers: seq<int>, n: int): seq<Span>
  {
    if centers == [] then []
    else
      var w := FixedWindow(centers[|centers| - 1]);
      Kept(centers[..|centers| - 1], n) + if Fits(w, n) then [w] else []
  }

  /** The readable frames of [lo, hi), in order. */
  ghost function ReadableIn(lo: int, hi: int, readable: Readable): seq<int>
    decreases hi - lo
  {
    if hi <= lo then [] else ReadableIn(lo, hi - 1, readable) + if readable(hi - 1) then [hi - 1] else []
  }

  /** A clip holds exactly the readable frames of its window, each once, in increasing order. */
  lemma {:induction false} ReadableInMembers(lo: int, hi: int, readable: Readable)
    ensures forall x :: x in ReadableIn(lo, hi, readable) <==> lo <= x < hi && readable(x)
    ensures forall a, b :: 0 <= a < b < |ReadableIn(lo, hi, readable)| ==>
      ReadableIn(lo, hi, readable)[a] < ReadableIn(lo, hi, readable)[b]
    decreases hi - lo
  {
    if hi > lo {
      ReadableInMembers(lo, hi - 1, readable);
      var front := ReadableIn(lo, hi - 1, readable);
      var all := ReadableIn(lo, hi, readable);
      assert all == front + if readable(hi - 1) then [hi - 1] else [];
      forall a, b | 0 <= a < b < |all|
        ensures all[a] < all[b]
      {
        assert all[a] == front[a] && front[a] in front;
        if b == |front| {
          assert all[b] == hi - 1;
        } else {
          assert all[b] == front[b];
        }
      }
    }
  }

  /** The clips written for the kept windows ws: numbered from 0, each holding its readable frames. */
  ghost function ClipsOf(ws: seq<Span>, readable: Readable): seq<Clip>
  {
    if ws == [] then []
    else
      var w := ws[|ws| - 1];
      ClipsOf(ws[..|ws| - 1], readable) + [Clip(|ws| - 1, w, ReadableIn(w.start, w.end, readable))]
  }

  /** Copies the frames of w into a clip directory, skipping those that cannot be read. */
  method CopyReadable(w: Span, readable: Readable) returns (frames: seq<int>)
    ensures frames == ReadableIn(w.start, w.end, readable)
  {
    frames := [];
    var f := w.start;
    while f < w.end
      invariant w.start <= f && (w.start < w.end ==> f <= w.end)
      invariant w.start >= w.end ==> f == w.start
      invariant frames == ReadableIn(w.start, f, readable)
    {
      if readable(f) {
        frames := frames + [f];
      }
      f := f + 1;
    }
  }

  /** Clip saving for one class: `clip_index` starts at 0 and advances only for a window that fits. */
  method SaveClass(centers: seq<int>, n: int, readable: Readable) returns (clips: seq<Clip>)
    ensures clips == ClipsOf(Kept(centers, n), readable)
  {
    clips := [];
    var clipIndex := 0;
    ghost var kept: seq<Span> := [];
    for k := 0 to |centers|
      invariant kept == Kept(centers[..k], n)
      invariant clipIndex == |clips| == |kept|
      invariant clips == ClipsOf(kept, readable)
    {
      KeptStep(centers, k, n);
      var center := centers[k];
      var start := center - MAX_FRAMES / 2;
      var end := start + MAX_FRAMES;
      if start < 0 || end > n {
        continue;
      }
      var w := Span(start, end);
      var frames := CopyReadable(w, readable);
      ClipsOfStep(kept, w, readable);
      kept := kept + [w];
      clips := clips + [Clip(clipIndex, w, frames)];
      clipIndex := clipIndex + 1;
    }
    assert centers[..|centers|] == centers;
  }

  /** One more candidate: its window is kept exactly when it fits. */
  lemma KeptStep(centers: seq<int>, k: nat, n: int)
    requires k < |centers|
    ensures var w := FixedWindow(centers[k]);
      Kept(centers[..k + 1], n) == Kept(centers[..k], n) + if Fits(w, n) then [w] else []
  {
    assert centers[..k + 1][..k] == centers[..k];
  }

  /** One more kept window: one more clip, numbered after the others. */
  lemma ClipsOfStep(ws: seq<Span>, w: Span, readable: Readable)
    ensures ClipsOf(ws + [w], readable) == ClipsOf(ws, readable) + [Clip(|ws|, w, ReadableIn(w.start, w.end, readable))]
  {
    assert (ws + [w])[..|ws|] == ws;
  }

  /** Clip saving for all classes, each with its own clip numbering. */
  method SaveClips(detected: map<ActionClass, seq<int>>, n: int, readable: Readable)
      returns (clips: map<ActionClass, seq<Clip>>)
    requires forall c :: c in detected <==> c in Classes
    ensures forall c :: c in clips <==> c in Classes
    ensures forall c :: c in clips ==> clips[c] == ClipsOf(Kept(detected[c], n), readable)
  {
    clips := map[];
    for k := 0 to |Classes|
      invariant forall c :: c in clips <==> exists j :: 0 <= j < k && Classes[j] == c
      invariant forall c :: c in clips ==> clips[c] == ClipsOf(Kept(detected[c], n), readable)
    {
      var cls := Classes[k];
      var classClips := SaveClass(detected[cls], n, readable);
      clips := clips[cls := classClips];
    }
    forall c | c in Classes
      ensures c in clips
    {
      assert Classes[IndexOf(c)] == c;
    }
  }

  /**
   * The clips of one class, for the centres of a scan: one clip per detection,
   * numbered 0, 1, 2, ..., each exactly the scanned window [i, i + MAX_FRAMES)
   * of its detection, no two sharing a frame, each holding the readable
   * frames of its window in order.
   */
  ghost predicate ValidClips(clips: seq<Clip>, centers: seq<int>, n: int, readable: Readable)
  {
    && |clips| == |centers|
    && (forall k :: 0 <= k < |clips| ==>
          && clips[k].ordinal == k
          && clips[k].window == Span(centers[k] - MAX_FRAMES / 2, centers[k] - MAX_FRAMES / 2 + MAX_FRAMES)
          && 0 <= clips[k].window.start && clips[k].window.end <= n
          && clips[k].frames == ReadableIn(clips[k].window.start, clips[k].window.end, readable))
    && (forall j, k :: 0 <= j < k < |clips| ==> FrameSet(clips[j].window) !! FrameSet(clips[k].window))
  }

  /** The whole script: scan the n frames, then save the clips of every class. */
  method Run(n: nat, conf: Confidence, readable: Readable) returns (clips: map<ActionClass, seq<Clip>>)
    ensures forall c :: c in clips <==> c in Classes
    ensures forall c :: c in clips ==> ValidClips(clips[c], ClassCenters(n, Config, conf, c), n, readable)
  {
    var detected := Scan(n, Config, conf);
    clips := SaveClips(detected, n, readable);
    forall c | c in clips
      ensures ValidClips(clips[c], ClassCenters(n, Config, conf, c), n, readable)
    {
      ScanClipsValid(n, conf, readable, c);
    }
  }

  /** The windows of a scan's detections always fit, so the boundary check never drops one. */
  lemma ScanClipsValid(n: nat, conf: Confidence, readable: Readable, c: ActionClass)
    ensures var centers := ClassCenters(n, Config, conf, c);
      ValidClips(ClipsOf(Kept(centers, n), readable), centers, n, readable)
  {
    var centers := ClassCenters(n, Config, conf, c);
    ScanWindowsFit(n, conf, c);
    KeptAll(centers, n);
    var ws := Kept(centers, n);
    KeptDisjoint(centers, n);
    ClipsOfShape(ws, readable);
    var clips := ClipsOf(ws, readable);
    assert |clips| == |centers|;
    forall k | 0 <= k < |clips|
      ensures clips[k].ordinal == k
      ensures clips[k].window == Span(centers[k] - MAX_FRAMES / 2, centers[k] - MAX_FRAMES / 2 + MAX_FRAMES)
      ensures 0 <= clips[k].window.start && clips[k].window.end <= n
      ensures clips[k].frames == ReadableIn(clips[k].window.start, clips[k].window.end, readable)
    {
      assert clips[k] == Clip(k, ws[k], ReadableIn(ws[k].start, ws[k].end, readable));
      assert ws[k] == FixedWindow(centers[k]);
    }
    forall j, k | 0 <= j < k < |clips|
      ensures FrameSet(clips[j].window) !! FrameSet(clips[k].window)
    {
      assert clips[j].window == ws[j] && clips[k].window == ws[k];
    }
  }

  /**
   * The clip window of a detection is the scanned window [i, i + MAX_FRAMES)
   * of its cursor, so it always fits in [0, n); and detections are far enough
   * apart for their windows not to overlap.
   */
  lemma ScanWindowsFit(n: nat, conf: Confidence, c: ActionClass)
    ensures var centers := ClassCenters(n, Config, conf, c);
      && (forall k :: 0 <= k < |centers| ==> Fits(FixedWindow(centers[k]), n))
      && Spaced(centers, MAX_FRAMES)
  {
    var centers := ClassCenters(n, Config, conf, c);
    ScanCentersSound(n, Config, conf, c);
    forall k | 0 <= k < |centers|
      ensures Fits(FixedWindow(centers[k]), n)
    {
      var i := centers[k] - Config.window / 2;
      assert 0 <= i < n - Config.window;
      assert FixedWindow(centers[k]) == Span(i, i + MAX_FRAMES);
    }
  }

  lemma {:induction false} ClipsOfShape(ws: seq<Span>, readable: Readable)
    ensures |ClipsOf(ws, readable)| == |ws|
    ensures forall k :: 0 <= k < |ws| ==>
      ClipsOf(ws, readable)[k] == Clip(k, ws[k], ReadableIn(ws[k].start, ws[k].end, readable))
  {
    if ws != [] {
      ClipsOfShape(ws[..|ws| - 1], readable);
    }
  }

  /**
   * A candidate's window is kept exactly when it fits in [0, n), and every
   * kept window is exactly MAX_FRAMES long.
   */
  lemma {:induction false} KeptExactly(centers: seq<int>, n: int)
    ensures forall j :: 0 <= j < |centers| ==> (FixedWindow(centers[j]) in Kept(centers, n) <==> Fits(FixedWindow(centers[j]), n))
    ensures forall w :: w in Kept(centers, n) ==> Fits(w, n) && w.end - w.start == MAX_FRAMES
  {
    if centers != [] {
      var front := centers[..|centers| - 1];
      KeptExactly(front, n);
      forall j | 0 <= j < |front|
        ensures front[j] == centers[j]
      {
      }
    }
  }

  /** When every candidate's window fits, no candidate is dropped. */
  lemma {:induction false} KeptAll(centers: seq<int>, n: int)
    requires forall k :: 0 <= k < |centers| ==> Fits(FixedWindow(centers[k]), n)
    ensures Kept(centers, n) == seq(|centers|, k requires 0 <= k < |centers| => FixedWindow(centers[k]))
  {
    if centers != [] {
      var front := centers[..|centers| - 1];
      KeptAll(front, n);
    }
  }

  /** Candidates at least MAX_FRAMES apart give pairwise disjoint windows. */
  lemma {:induction false} KeptDisjoint(centers: seq<int>, n: int)
    requires Spaced(centers, MAX_FRAMES)
    ensures PairwiseDisjoint(Kept(centers, n))
    ensures forall w :: w in Kept(centers, n) ==> exists j :: 0 <= j < |centers| && w == FixedWindow(centers[j])
  {
    if centers != [] {
      var front := centers[..|centers| - 1];
      var last := centers[|centers| - 1];
      var w := FixedWindow(last);
      assert Spaced(front, MAX_FRAMES);
      KeptDisjoint(front, n);
      var ws := Kept(centers, n);
      var before := Kept(front, n);
      forall v | v in ws
        ensures exists j :: 0 <= j < |centers| && v == FixedWindow(centers[j])
      {
        if v in before {
          var j :| 0 <= j < |front| && v == FixedWindow(front[j]);
          assert front[j] == centers[j];
        } else {
          assert v == FixedWindow(centers[|centers| - 1]);
        }
      }
      if Fits(w, n) {
        forall j, k | 0 <= j < k < |ws|
          ensures FrameSet(ws[j]) !! FrameSet(ws[k])
        {
          if k < |before| {
            assert ws[j] == before[j] && ws[k] == before[k];
          } else {
            assert ws[j] == before[j] && ws[k] == w;
            assert ws[j] in before;
            var i :| 0 <= i < |front| && ws[j] == FixedWindow(front[i]);
            assert front[i] == centers[i] && centers[i] + MAX_FRAMES <= last;
            forall f | f in FrameSet(ws[j]) ensures f !in FrameSet(w) {
              assert Covers(ws[j], f);
            }
          }
        }
      }
    }
  }
}
