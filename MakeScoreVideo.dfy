/**
 * make_score_video.py: read the frame numbers of the scoring detections,
 * widen each by `margin` frames on both sides, merge them into one sorted
 * list without repeats, collect the frame files that exist, and write a
 * video of them if there is at least one.
 */
module MakeScoreVideo {
  import opened Results
  import opened FrameNames

  const MARGIN: nat := 2

  /** The leading digits of s. */
  function LeadingDigits(s: string): (r: string)
    ensures AllDigits(r) && r <= s
    ensures |r| < |s| ==> !IsDigit(s[|r|])
    ensures r != [] <==> s != [] && IsDigit(s[0])
  {
    if s != [] && IsDigit(s[0]) then [s[0]] + LeadingDigits(s[1..]) else []
  }

  /**
   * r is the first maximal run of digits of s and starts at i: no digit
   * comes before it, and it is not followed by a digit.
   */
  predicate FirstRunAt(s: string, i: int, r: string)
  {
    && r != [] && AllDigits(r)
    && 0 <= i && i + |r| <= |s| && s[i..i + |r|] == r
    && (forall k :: 0 <= k < i ==> !IsDigit(s[k]))
    && (i + |r| == |s| || !IsDigit(s[i + |r|]))
  }

  /** The match of the regular expression (\d+): the first maximal run of digits of s, or empty when s has none. */
  function FirstDigitRun(s: string): (r: string)
    ensures AllDigits(r)
    ensures r == [] <==> forall k :: 0 <= k < |s| ==> !IsDigit(s[k])
    ensures r != [] ==> exists i :: FirstRunAt(s, i, r)
  {
    if s == [] then []
    else if IsDigit(s[0]) then
      var r := LeadingDigits(s);
      assert s[0..|r|] == r;
      assert FirstRunAt(s, 0, r);
      r
    else
      var r := FirstDigitRun(s[1..]);
      assert forall k :: 1 <= k < |s| ==> s[k] == s[1..][k - 1];
      if r == [] then r
      else
        var i :| FirstRunAt(s[1..], i, r);
        assert s[i + 1..i + 1 + |r|] == s[1..][i..i + |r|];
        assert FirstRunAt(s, i + 1, r);
        r
  }

  /** There is at most one first run: the characterisation determines the match. */
  lemma FirstRunUnique(s: string, i: int, r: string, j: int, q: string)
    requires FirstRunAt(s, i, r) && FirstRunAt(s, j, q)
    ensures i == j && r == q
  {
    assert IsDigit(s[i]) && IsDigit(s[j]);
    if |r| < |q| {
      DigitAt(q, |r|);
      assert false;
    } else if |q| < |r| {
      DigitAt(r, |q|);
      assert false;
    }
  }

  lemma DigitAt(s: string, m: int)
    ensures AllDigits(s) && 0 <= m < |s| ==> IsDigit(s[m])
  {
  }

  /** The frame index of a detection's frame name: the value of its first digit run; None (pandas' NaN) when it has no digit. */
  function ParseIndex(name: string): (r: Option<nat>)
    ensures r.None? <==> forall k :: 0 <= k < |name| ==> !IsDigit(name[k])
    ensures r.Some? ==> exists i, d :: FirstRunAt(name, i, d) && r.value == DigitsValue(d)
  {
    var run := FirstDigitRun(name);
    if run == [] then None
    else
      var i :| FirstRunAt(name, i, run);
      Some(DigitsValue(run))
  }

  /**
   * The index is the value of the first run of digits: for a name made of a
   * digit-free prefix, digits, and a rest that does not start with a digit,
   * it is the value of those digits.
   */
  lemma ParseIndexFirstRun(name: string, pre: string, digits: string, post: string)
    requires name == pre + digits + post
    requires forall k :: 0 <= k < |pre| ==> !IsDigit(pre[k])
    requires digits != [] && AllDigits(digits)
    requires post == [] || !IsDigit(post[0])
    ensures ParseIndex(name) == Some(DigitsValue(digits))
  {
    var s := name;
    assert s[|pre|..|pre| + |digits|] == digits;
    assert forall k :: 0 <= k < |pre| ==> s[k] == pre[k];
    assert |pre| + |digits| < |s| ==> s[|pre| + |digits|] == post[0];
    assert FirstRunAt(s, |pre|, digits);
    assert IsDigit(s[|pre|]);
    var r := ParseIndex(s);
    var i, d :| FirstRunAt(s, i, d) && r.value == DigitsValue(d);
    FirstRunUnique(s, i, d, |pre|, digits);
  }

  /** Looking up the file of index idx and reading its name back gives idx (its magnitude, for a negative idx). */
  lemma FrameNameRoundTrip(idx: int)
    ensures ParseIndex(FrameName(idx)) == Some(if idx >= 0 then idx else -idx)
  {
    if idx >= 0 {
      NonNegativeRoundTrip(idx);
    } else {
      NegativeRoundTrip(idx);
    }
  }

  lemma NonNegativeRoundTrip(idx: nat)
    ensures ParseIndex(FrameName(idx)) == Some(idx)
  {
    var pre, digits, post := "frame_", ZeroPad(idx, 4), ".jpg";
    assert FrameName(idx) == pre + digits + post;
    NoDigits(pre);
    ParseIndexFirstRun(FrameName(idx), pre, digits, post);
    ZeroPadValue(idx, 4);
  }

  lemma NegativeRoundTrip(idx: int)
    requires idx < 0
    ensures ParseIndex(FrameName(idx)) == Some(-idx)
  {
    var v: nat := -idx;
    var pre, digits, post := "frame_-", ZeroPad(v, 3), ".jpg";
    ZeroPadValue(v, 3);
    NegativeName(idx);
    NoDigits(pre);
    ParseIndexFirstRun(FrameName(idx), pre, digits, post);
  }

  lemma NegativeName(idx: int)
    requires idx < 0
    ensures FrameName(idx) == "frame_-" + ZeroPad(-idx, 3) + ".jpg"
  {
    var d := ZeroPad(-idx, 3);
    assert "frame_" + ("-" + d) == "frame_-" + d;
  }

  /** The fixed parts of a frame name hold no digit. */
  lemma NoDigits(pre: string)
    requires pre == "frame_" || pre == "frame_-"
    ensures forall k :: 0 <= k < |pre| ==> !IsDigit(pre[k])
  {
  }

  /**
   * The `frame` column turned into integers; None when a name has no digits
   * (astype(int) fails on the missing value).
   */
  function ParseAll(names: seq<string>): (r: Option<seq<nat>>)
    ensures r.Some? <==> forall k :: 0 <= k < |names| ==> ParseIndex(names[k]).Some?
    ensures r.Some? ==> |r.value| == |names| && forall k :: 0 <= k < |names| ==> ParseIndex(names[k]) == Some(r.value[k])
  {
    if names == [] then Some([])
    else
      match ParseIndex(names[0])
      case None => None
      case Some(v) =>
        match ParseAll(names[1..])
        case None =>
          assert forall k :: 1 <= k < |names| ==> names[k] == names[1..][k - 1];
          None
        case Some(vs) =>
          assert forall k :: 1 <= k < |names| ==> names[k] == names[1..][k - 1];
          Some([v] + vs)
  }

  predicate Increasing(s: seq<int>)
  {
    forall a, b :: 0 <= a < b < |s| ==> s[a] < s[b]
  }

  /** x lies within `margin` of some detected index. */
  predicate Near(x: int, indices: seq<int>, margin: int)
  {
    exists k :: 0 <= k < |indices| && indices[k] - margin <= x <= indices[k] + margin
  }

  function Shift(idx: int, offset: int): int
  {
    idx + offset
  }

  /** The set of all idx + offset, idx detected and -margin <= offset <= margin. */
  ghost function ExpandedSet(indices: seq<int>, margin: nat): set<int>
  {
    set k, offset | 0 <= k < |indices| && -(margin as int) <= offset <= margin :: Shift(indices[k], offset)
  }

  lemma ExpandedSetNear(indices: seq<int>, margin: nat)
    ensures forall x :: x in ExpandedSet(indices, margin) <==> Near(x, indices, margin)
  {
    forall x | Near(x, indices, margin)
      ensures x in ExpandedSet(indices, margin)
    {
      var k :| 0 <= k < |indices| && indices[k] - margin <= x <= indices[k] + margin;
      var offset := x - indices[k];
      assert -(margin as int) <= offset <= margin && x == Shift(indices[k], offset);
    }
  }

  function Least(s: set<int>): (m: int)
    requires s != {}
    ensures m in s && forall x :: x in s ==> m <= x
  {
    LeastExists(s);
    var m :| m in s && forall x :: x in s ==> m <= x;
    m
  }

  lemma HasMember(s: set<int>)
    requires s != {}
    ensures exists y :: y in s
  {
    if forall y :: y !in s {
      assert false;
    }
  }

  lemma LeastExists(s: set<int>)
    requires s != {}
    ensures exists m :: m in s && forall x :: x in s ==> m <= x
  {
    var m := LeastOf(s);
  }

  lemma {:induction false} LeastOf(s: set<int>) returns (m: int)
    requires s != {}
    ensures m in s && forall x :: x in s ==> m <= x
    decreases |s|
  {
    HasMember(s);
    var y :| y in s;
    var t := s - {y};
    if t == {} {
      m := y;
      forall x | x in s
        ensures m <= x
      {
        assert x !in t;
      }
    } else {
      var least := LeastOf(t);
      m := if y < least then y else least;
      forall x | x in s
        ensures m <= x
      {
        if x != y {
          assert x in t;
        }
      }
    }
  }

  /** Python's sorted() of a set of integers: its elements in increasing order. */
  function SortedElements(s: set<int>): (r: seq<int>)
    ensures Increasing(r)
    ensures forall x :: x in r <==> x in s
    decreases |s|
  {
    if s == {} then []
    else
      var m := Least(s);
      var rest := SortedElements(s - {m});
      assert forall k :: 0 <= k < |rest| ==> rest[k] in s - {m};
      [m] + rest
  }

  /** An increasing list is determined by its elements. */
  lemma {:induction false} IncreasingUnique(a: seq<int>, b: seq<int>)
    requires Increasing(a) && Increasing(b)
    requires forall x :: x in a <==> x in b
    ensures a == b
  {
    if a == [] || b == [] {
      HeadMember(a);
      HeadMember(b);
    } else {
      HeadIsLeast(a);
      HeadIsLeast(b);
      assert a[0] in a && b[0] in b;
      forall x
        ensures x in a[1..] <==> x in b[1..]
      {
        if x in a[1..] {
          TailMember(a, b, x);
        }
        if x in b[1..] {
          TailMember(b, a, x);
        }
      }
      IncreasingUnique(a[1..], b[1..]);
      assert a == [a[0]] + a[1..] && b == [b[0]] + b[1..];
    }
  }

  /** With the same elements and the same least element, what follows the head of a follows the head of b. */
  lemma TailMember(a: seq<int>, b: seq<int>, x: int)
    requires Increasing(a) && Increasing(b) && a != [] && b != []
    requires forall y :: y in a <==> y in b
    requires a[0] == b[0]
    requires x in a[1..]
    ensures x in b[1..]
  {
    var k :| 1 <= k < |a| && a[k] == x;
    assert a[0] < x && x in b;
    var j :| 0 <= j < |b| && b[j] == x;
    assert b[1..][j - 1] == x;
  }

  lemma HeadMember(s: seq<int>)
    ensures s != [] ==> s[0] in s
  {
  }

  lemma HeadIsLeast(s: seq<int>)
    requires Increasing(s) && s != []
    ensures forall x :: x in s ==> s[0] <= x
  {
    forall x | x in s
      ensures s[0] <= x
    {
      var k :| 0 <= k < |s| && s[k] == x;
      assert k == 0 || s[0] < s[k];
    }
  }

  /** The expanded frame list: every detected index widened by `margin`, sorted, without repeats. */
  ghost function SortedUnion(indices: seq<int>, margin: nat): (r: seq<int>)
    ensures Increasing(r)
    ensures forall x :: x in r <==> Near(x, indices, margin)
  {
    ExpandedSetNear(indices, margin);
    SortedElements(ExpandedSet(indices, margin))
  }

  /**
   * Lines 16-20: the nested loops add idx + offset to the set for every
   * detected idx and every offset in range(-margin, margin + 1); the set
   * is then sorted.
   */
  method ExpandIndices(indices: seq<int>, margin: nat) returns (expanded: seq<int>)
    ensures Increasing(expanded)
    ensures forall x :: x in expanded <==> Near(x, indices, margin)
    ensures expanded == SortedUnion(indices, margin)
  {
    var found: set<int> := {};
    for j := 0 to |indices|
      invariant forall x :: x in found <==> Near(x, indices[..j], margin)
    {
      var idx := indices[j];
      for offset := -(margin as int) to margin + 1
        invariant forall x :: x in found <==>
          Near(x, indices[..j], margin) || (idx - margin <= x < idx + offset)
      {
        found := found + {idx + offset};
      }
      forall x
        ensures x in found <==> Near(x, indices[..j + 1], margin)
      {
        if Near(x, indices[..j], margin) {
          var k :| 0 <= k < j && indices[..j][k] - margin <= x <= indices[..j][k] + margin;
          assert indices[..j + 1][k] == indices[..j][k];
        }
        if Near(x, indices[..j + 1], margin) {
          var k :| 0 <= k < j + 1 && indices[..j + 1][k] - margin <= x <= indices[..j + 1][k] + margin;
          if k < j {
            assert indices[..j][k] == indices[..j + 1][k];
          }
        }
        assert indices[..j + 1][j] == idx;
      }
    }
    assert indices[..|indices|] == indices;
    expanded := SortedElements(found);
    ExpandedSetNear(indices, margin);
    IncreasingUnique(expanded, SortedUnion(indices, margin));
  }

  /** Every detected index is in the expanded list, and every listed frame lies within `margin` of a detection. */
  lemma SortedUnionBounds(indices: seq<int>, margin: nat)
    ensures forall k :: 0 <= k < |indices| ==> indices[k] in SortedUnion(indices, margin)
    ensures forall x :: x in SortedUnion(indices, margin) ==> Near(x, indices, margin)
  {
    forall k | 0 <= k < |indices|
      ensures Near(indices[k], indices, margin)
    {
    }
  }

  /**
   * With margin 0 the expansion only sorts and removes repeats; so
   * expanding an expanded list again with margin 0 changes nothing.
   */
  lemma ExpandIdempotent(indices: seq<int>, margin: nat)
    ensures forall x :: x in SortedUnion(indices, 0) <==> x in indices
    ensures SortedUnion(SortedUnion(indices, margin), 0) == SortedUnion(indices, margin)
  {
    var once := SortedUnion(indices, margin);
    var twice := SortedUnion(once, 0);
    forall x
      ensures x in twice <==> x in once
    {
      if x in once {
        var k :| 0 <= k < |once| && once[k] == x;
        assert Near(x, once, 0);
      }
    }
    IncreasingUnique(twice, once);
    forall x
      ensures x in SortedUnion(indices, 0) <==> x in indices
    {
      if x in indices {
        var k :| 0 <= k < |indices| && indices[k] == x;
        assert Near(x, indices, 0);
      }
    }
  }

  /** `exists(name)`: the frame file of that name is present in the frames directory. */
  type FileExists = string -> bool

  /** The frames of `expanded` whose files exist, in the same order. */
  ghost function Existing(expanded: seq<int>, exists_: FileExists): seq<int>
  {
    if expanded == [] then []
    else
      var idx := expanded[|expanded| - 1];
      Existing(expanded[..|expanded| - 1], exists_) + if exists_(FrameName(idx)) then [idx] else []
  }

  /** Lines 23-29: the image of every listed frame whose file exists is collected, in list order. */
  method CollectImages(expanded: seq<int>, exists_: FileExists) returns (images: seq<int>)
    ensures images == Existing(expanded, exists_)
  {
    images := [];
    for j := 0 to |expanded|
      invariant images == Existing(expanded[..j], exists_)
    {
      assert expanded[..j + 1][..j] == expanded[..j];
      var idx := expanded[j];
      var name := FrameName(idx);
      if exists_(name) {
        images := images + [idx];
      }
    }
    assert expanded[..|expanded|] == expanded;
  }

  /**
   * The collected frames are exactly the listed frames whose file exists:
   * never more than were listed.
   */
  lemma {:induction false} ExistingMembers(expanded: seq<int>, exists_: FileExists)
    ensures |Existing(expanded, exists_)| <= |expanded|
    ensures forall x :: x in Existing(expanded, exists_) <==> x in expanded && exists_(FrameName(x))
  {
    if expanded != [] {
      var front, last := expanded[..|expanded| - 1], expanded[|expanded| - 1];
      ExistingMembers(front, exists_);
      ExistingStep(expanded, exists_);
      forall x
        ensures x in Existing(expanded, exists_) <==> x in expanded && exists_(FrameName(x))
      {
        assert x in expanded <==> x in front || x == last;
      }
    }
  }

  /** Collecting one more listed frame adds it exactly when its file exists. */
  lemma ExistingStep(expanded: seq<int>, exists_: FileExists)
    requires expanded != []
    ensures var last := expanded[|expanded| - 1];
      Existing(expanded, exists_) ==
        Existing(expanded[..|expanded| - 1], exists_) + if exists_(FrameName(last)) then [last] else []
  {
  }

  /** Collecting keeps list order, so an increasing list stays increasing. */
  lemma {:induction false} ExistingIncreasing(expanded: seq<int>, exists_: FileExists)
    requires Increasing(expanded)
    ensures Increasing(Existing(expanded, exists_))
  {
    if expanded != [] {
      var front := expanded[..|expanded| - 1];
      var last := expanded[|expanded| - 1];
      assert Increasing(front);
      ExistingIncreasing(front, exists_);
      ExistingMembers(front, exists_);
      var images := Existing(expanded, exists_);
      var before := Existing(front, exists_);
      if exists_(FrameName(last)) {
        assert images == before + [last];
        forall a, b | 0 <= a < b < |images|
          ensures images[a] < images[b]
        {
          if b == |before| {
            assert images[a] == before[a] && before[a] in before;
            var k :| 0 <= k < |front| && front[k] == before[a];
            assert expanded[k] == front[k];
          } else {
            assert images[a] == before[a] && images[b] == before[b];
          }
        }
      } else {
        assert images == before;
      }
    }
  }

  /** What the script produces: the frames put in the video, and whether a video was written. */
  datatype ScoreVideo = ScoreVideo(frames: seq<int>, written: bool)

  /** The whole script, from the `frame` column to the video. */
  method Run(names: seq<string>, exists_: FileExists) returns (r: Option<ScoreVideo>)
    ensures r.None? <==> exists k :: 0 <= k < |names| && ParseIndex(names[k]).None?
    ensures r.Some? ==>
      var indices := ParseAll(names).value;
      && r.value.frames == Existing(SortedUnion(indices, MARGIN), exists_)
      && (r.value.written <==> r.value.frames != [])
  {
    var parsed := ParseAll(names);
    if parsed.None? {
      return None;
    }
    var expanded := ExpandIndices(parsed.value, MARGIN);
    var images := CollectImages(expanded, exists_);
    var written := false;
    if images != [] {
      written := true;
    }
    r := Some(ScoreVideo(images, written));
  }
}
