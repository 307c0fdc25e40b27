/**
 * extract_frames.py: read the video frame by frame and save every
 * `interval`-th frame, `interval` being the frame rate truncated to an
 * integer, under the dense names frame_0000.jpg, frame_0001.jpg, ...
 *
 * The video is modelled by the outcomes of its successive reads; what the
 * saved images look like (timestamp, detection boxes) is not modelled, only
 * which source frame each saved file holds.
 */
module ExtractFrames {
  import opened Results
  import opened FrameNames

  datatype ExtractError =
    | CannotOpen    // the capture was not opened: the script exits
    | ZeroDivision  // interval 0: `frame_count % interval` raises

  /** One file written by the script: its name and the number of the frame it holds. */
  datatype SavedFrame = SavedFrame(name: string, source: nat)

  /** Python's int() of a float: truncation toward zero. */
  function Trunc(r: real): (t: int)
    ensures r >= 0.0 ==> t >= 0 && t as real <= r < t as real + 1.0
    ensures r < 0.0 ==> t <= 0 && t as real - 1.0 < r <= t as real
  {
    if r >= 0.0 then r.Floor else -((-r).Floor)
  }

  function Abs(x: int): nat
  {
    if x < 0 then -x else x
  }

  /**
   * The number of frames read before the first failed read, `grabbed[k]`
   * being the `ret` of the k-th call to read(); reads past the end fail.
   */
  function ReadCount(grabbed: seq<bool>): (n: nat)
    ensures n <= |grabbed|
    ensures forall k :: 0 <= k < n ==> grabbed[k]
    ensures n < |grabbed| ==> !grabbed[n]
  {
    if grabbed == [] || !grabbed[0] then 0
    else
      var rest := ReadCount(grabbed[1..]);
      assert forall k :: 1 <= k < 1 + rest ==> grabbed[k] == grabbed[1..][k - 1];
      1 + rest
  }

  /** The files saved while reading the first n frames, in the order they are written. */
  ghost function Sampled(n: nat, interval: int): seq<SavedFrame>
    requires interval != 0
  {
    if n == 0 then []
    else
      var before := Sampled(n - 1, interval);
      before + if (n - 1) % interval == 0 then [SavedFrame(FrameName(|before|), n - 1)] else []
  }

  /**
   * Lines 21-23 and 25-77: exit if the capture did not open; otherwise read
   * until the first failed read, saving frame `frame_count` as
   * frame_{saved_count:04d}.jpg when `frame_count % interval == 0`.
   */
  method Extract(isOpened: bool, frameRate: real, grabbed: seq<bool>) returns (r: Result<seq<SavedFrame>, ExtractError>)
    ensures !isOpened ==> r == Err(CannotOpen)
    ensures isOpened && Trunc(frameRate) == 0 ==>
      r == if ReadCount(grabbed) == 0 then Ok([]) else Err(ZeroDivision)
    ensures isOpened && Trunc(frameRate) != 0 ==> r == Ok(Sampled(ReadCount(grabbed), Trunc(frameRate)))
  {
    if !isOpened {
      return Err(CannotOpen);
    }
    var interval := Trunc(frameRate);
    var frameCount := 0;
    var savedCount := 0;
    var saved: seq<SavedFrame> := [];
    while frameCount < |grabbed| && grabbed[frameCount]
      invariant frameCount <= ReadCount(grabbed)
      invariant savedCount == |saved|
      invariant interval != 0 ==> saved == Sampled(frameCount, interval)
      invariant interval == 0 ==> frameCount == 0 && saved == []
      decreases |grabbed| - frameCount
    {
      if interval == 0 {
        return Err(ZeroDivision);
      }
      if frameCount % interval == 0 {
        saved := saved + [SavedFrame(FrameName(savedCount), frameCount)];
        savedCount := savedCount + 1;
      }
      frameCount := frameCount + 1;
    }
    r := Ok(saved);
  }

  /** Some file of `saved` holds frame f. */
  ghost predicate SavesFrame(saved: seq<SavedFrame>, f: int)
  {
    exists k :: 0 <= k < |saved| && saved[k].source == f
  }

  lemma SavesFrameAppend(before: seq<SavedFrame>, x: SavedFrame, f: int)
    ensures SavesFrame(before + [x], f) <==> SavesFrame(before, f) || x.source == f
  {
    var s := before + [x];
    if SavesFrame(s, f) {
      var k :| 0 <= k < |s| && s[k].source == f;
      if k < |before| {
        assert before[k] == s[k];
      }
    }
    if SavesFrame(before, f) {
      var k :| 0 <= k < |before| && before[k].source == f;
      assert s[k] == before[k];
    }
    assert s[|before|] == x;
  }

  /** A frame is saved exactly when it was read and its number is a multiple of the interval. */
  lemma {:induction false} SampledExactly(n: nat, interval: int, f: int)
    requires interval != 0
    ensures SavesFrame(Sampled(n, interval), f) <==> 0 <= f < n && f % interval == 0
  {
    if n > 0 {
      SampledExactly(n - 1, interval, f);
      var before := Sampled(n - 1, interval);
      if (n - 1) % interval == 0 {
        SavesFrameAppend(before, SavedFrame(FrameName(|before|), n - 1), f);
      } else {
        assert Sampled(n, interval) == before;
        assert f == n - 1 ==> f % interval != 0;
      }
    }
  }

  /** The divisibility test does not depend on the sign of the divisor. */
  lemma ModAbs(x: int, d: int)
    requires d != 0
    ensures x % d == 0 <==> x % Abs(d) == 0
  {
    if d < 0 {
      if x % d == 0 {
        assert x == (-d) * (-(x / d));
        MultipleMod(-(x / d), -d);
      }
      if x % (-d) == 0 {
        assert x == d * (-(x / (-d)));
        MultipleMod(-(x / (-d)), d);
      }
    }
  }

  lemma MultipleMod(q: int, d: int)
    requires d != 0
    ensures (d * q) % d == 0
  {
    var x := d * q;
    var r := x % d;
    var p := x / d;
    assert x == d * p + r && 0 <= r < Abs(d);
    assert d * (q - p) == r;
    if q - p > 0 {
      MulAtLeast(q - p, d);
    } else if q - p < 0 {
      MulAtLeast(p - q, d);
    }
  }

  /** A non-zero multiple of d is at least |d| in size. */
  lemma MulAtLeast(m: int, d: int)
    requires m >= 1 && d != 0
    ensures Abs(d * m) >= Abs(d)
  {
    if d > 0 {
      assert d * m == d + d * (m - 1);
    } else {
      assert d * m == d + d * (m - 1);
    }
  }

  lemma MulMonotone(a: int, b: int, c: nat)
    requires a <= b
    ensures a * c <= b * c
  {
    assert b * c - a * c == (b - a) * c;
  }

  /** The only multiple of a (a >= 1) in (s*a - a, s*a] is s*a. */
  lemma MultipleBetween(x: int, a: int, s: int)
    requires a >= 1 && x % a == 0
    requires (s - 1) * a < x <= s * a
    ensures x == s * a
  {
    var q := x / a;
    assert x == a * q;
    if q < s {
      MulMonotone(q, s - 1, a);
    } else if q > s {
      MulMonotone(s + 1, q, a);
    }
  }

  /** Floor division returns s for any x in [s*a, s*a + a). */
  lemma DivBetween(x: int, a: int, s: int)
    requires a >= 1
    requires s * a <= x < s * a + a
    ensures x / a == s
  {
    var q := x / a;
    assert x == a * q + x % a;
    if q < s {
      MulMonotone(q + 1, s, a);
    } else if q > s {
      MulMonotone(s + 1, q, a);
    }
  }

  /** s is the least count with x <= s * a: the multiples of a in [0, x) number s. */
  predicate CeilingOf(s: int, x: int, a: int)
  {
    (s - 1) * a < x <= s * a
  }

  /** Reading frame x keeps the count the ceiling of x / a, saving it iff it is a multiple of a. */
  lemma CountStep(x: nat, a: int, s: int)
    requires a >= 1 && CeilingOf(s, x, a)
    ensures x % a == 0 ==> x == s * a && CeilingOf(s + 1, x + 1, a)
    ensures x % a != 0 ==> CeilingOf(s, x + 1, a)
  {
    Distrib(s, a);
    if x % a == 0 {
      MultipleBetween(x, a, s);
    } else {
      MultipleMod(s, a);
      assert a * s == s * a;
    }
  }

  lemma Distrib(s: int, a: int)
    ensures (s - 1) * a == s * a - a && (s + 1) * a == s * a + a
  {
  }

  /** After n frames, the saved count s is the least s with n <= s * |interval|. */
  lemma {:induction false} SampledCount(n: nat, interval: int)
    requires interval != 0
    ensures CeilingOf(|Sampled(n, interval)|, n, Abs(interval))
  {
    if n > 0 {
      SampledCount(n - 1, interval);
      ModAbs(n - 1, interval);
      CountStep(n - 1, Abs(interval), |Sampled(n - 1, interval)|);
    }
  }

  /** x is file number k: named frame_{k:04d}.jpg and holding frame k * a. */
  predicate FileAt(x: SavedFrame, k: nat, a: nat)
  {
    x == SavedFrame(FrameName(k), k * a)
  }

  /** Every file of `saved` is the file its position calls for. */
  ghost predicate Dense(saved: seq<SavedFrame>, a: nat)
  {
    forall k :: 0 <= k < |saved| ==> FileAt(saved[k], k, a)
  }

  lemma DenseAppend(before: seq<SavedFrame>, a: nat)
    requires Dense(before, a)
    ensures Dense(before + [SavedFrame(FrameName(|before|), |before| * a)], a)
  {
    var x := SavedFrame(FrameName(|before|), |before| * a);
    var after := before + [x];
    assert FileAt(x, |before|, a);
    forall k | 0 <= k < |after|
      ensures FileAt(after[k], k, a)
    {
      if k < |before| {
        assert after[k] == before[k];
      } else {
        assert after[k] == x;
      }
    }
  }

  /** The k-th saved file holds frame k * |interval|. */
  lemma {:induction false} SampledSources(n: nat, interval: int)
    requires interval != 0
    ensures Dense(Sampled(n, interval), Abs(interval))
  {
    if n > 0 {
      SampledSources(n - 1, interval);
      var before := Sampled(n - 1, interval);
      if (n - 1) % interval == 0 {
        SavedAtMultiple(n - 1, interval);
        DenseAppend(before, Abs(interval));
      } else {
        assert Sampled(n, interval) == before;
      }
    }
  }

  /** When frame x is saved, it is frame number (files saved before it) * |interval|. */
  lemma SavedAtMultiple(x: nat, interval: int)
    requires interval != 0 && x % interval == 0
    ensures x == |Sampled(x, interval)| * Abs(interval)
    ensures Sampled(x + 1, interval) ==
      Sampled(x, interval) + [SavedFrame(FrameName(|Sampled(x, interval)|), |Sampled(x, interval)| * Abs(interval))]
  {
    SampledCount(x, interval);
    ModAbs(x, interval);
    CountStep(x, Abs(interval), |Sampled(x, interval)|);
  }

  /**
   * After n frames, `saved_count` is the number of multiples of the
   * interval below n, ceil(n / |interval|); and the k-th file is named
   * frame_{k:04d}.jpg and holds frame k * |interval|: names are dense from 0.
   */
  lemma SampledShape(n: nat, interval: int)
    requires interval != 0
    ensures |Sampled(n, interval)| == (n + Abs(interval) - 1) / Abs(interval)
    ensures forall k :: 0 <= k < |Sampled(n, interval)| ==>
      Sampled(n, interval)[k] == SavedFrame(FrameName(k), k * Abs(interval))
  {
    var a := Abs(interval);
    var s := |Sampled(n, interval)|;
    SampledCount(n, interval);
    SampledSources(n, interval);
    assert (s - 1) * a == s * a - a;
    DivBetween(n + a - 1, a, s);
  }

  /** An interval of one saves every frame read. */
  lemma EveryFrameAtRateOne(frameRate: real, grabbed: seq<bool>)
    requires 1.0 <= frameRate < 2.0
    ensures Trunc(frameRate) == 1
    ensures |Sampled(ReadCount(grabbed), 1)| == ReadCount(grabbed)
    ensures forall f :: 0 <= f < ReadCount(grabbed) ==> SavesFrame(Sampled(ReadCount(grabbed), 1), f)
  {
    SampledShape(ReadCount(grabbed), 1);
    forall f | 0 <= f < ReadCount(grabbed)
      ensures SavesFrame(Sampled(ReadCount(grabbed), 1), f)
    {
      SampledExactly(ReadCount(grabbed), 1, f);
    }
  }
}
