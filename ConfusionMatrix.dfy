/**
 * confusion_matrix.py: build the training set of one "action vs all
 * others" model. Each clip folder becomes a sequence of exactly
 * MAX_FRAMES frames (truncated, or padded with a blank frame), and is
 * labelled 1 when it sits in the target class's folder, 0 otherwise.
 *
 * An image is represented by the path it was loaded from; the blank frame
 * (np.zeros_like of the first frame) by Blank.
 */
module ConfusionMatrix {
  import opened Results
  import opened Frames

  const MAX_FRAMES: nat := 20

  datatype Frame = Image(path: string) | Blank

  /**
   * One entry of a class folder: its name and its *.jpg files in sorted
   * order (none when the entry is a plain file or holds no images).
   */
  datatype ClipEntry = ClipEntry(name: string, jpgs: seq<string>)

  /** One entry of the dataset folder: a class folder, or anything else. */
  datatype DatasetEntry =
    | ClassDir(name: string, clips: seq<ClipEntry>)
    | OtherEntry(name: string)

  /** One training example: the frames, the 0/1 label, and the class folder it came from. */
  datatype Sample = Sample(frames: seq<Frame>, labelVal: nat, dir: string)

  /** The clip as load_clip stacks it: the first MAX_FRAMES images, then blanks. */
  function Normalized(paths: seq<string>): (frames: seq<Frame>)
    requires paths != []
    ensures |frames| == MAX_FRAMES
    ensures forall j :: 0 <= j < Min(|paths|, MAX_FRAMES) ==> frames[j] == Image(paths[j])
    ensures forall j :: |paths| <= j < MAX_FRAMES ==> frames[j] == Blank
  {
    seq(MAX_FRAMES, j requires 0 <= j < MAX_FRAMES => if j < |paths| then Image(paths[j]) else Blank)
  }

  /**
   * Lines 50-62: load at most MAX_FRAMES images in path order; None when
   * there is none; otherwise pad with the blank frame up to MAX_FRAMES.
   */
  method LoadClip(paths: seq<string>) returns (r: Option<seq<Frame>>)
    ensures r == if paths == [] then None else Some(Normalized(paths))
  {
    var frames: seq<Frame> := [];
    var take := Min(|paths|, MAX_FRAMES);
    for j := 0 to take
      invariant frames == seq(j, i requires 0 <= i < j => Image(paths[i]))
    {
      frames := frames + [Image(paths[j])];
    }
    if frames == [] {
      return None;
    }
    while |frames| < MAX_FRAMES
      invariant take <= |frames| <= MAX_FRAMES
      invariant forall i :: 0 <= i < take ==> frames[i] == Image(paths[i])
      invariant forall i :: take <= i < |frames| ==> frames[i] == Blank
      decreases MAX_FRAMES - |frames|
    {
      frames := frames + [Blank];
    }
    assert frames == Normalized(paths);
    r := Some(frames);
  }

  /** The sample of one clip folder of class folder `dir`: none when it holds no image. */
  ghost function ClipSample(target: string, dir: string, clip: ClipEntry): seq<Sample>
  {
    if clip.jpgs == [] then [] else [Sample(Normalized(clip.jpgs), if dir == target then 1 else 0, dir)]
  }

  /** The samples of one class folder's clips, in listing order. */
  ghost function ClassSamples(target: string, dir: string, clips: seq<ClipEntry>): seq<Sample>
  {
    if clips == [] then []
    else ClassSamples(target, dir, clips[..|clips| - 1]) + ClipSample(target, dir, clips[|clips| - 1])
  }

  /** The samples of the whole dataset folder, in listing order; entries that are not folders add none. */
  ghost function Samples(target: string, entries: seq<DatasetEntry>): seq<Sample>
  {
    if entries == [] then []
    else
      var last := entries[|entries| - 1];
      Samples(target, entries[..|entries| - 1])
        + match last
          case ClassDir(name, clips) => ClassSamples(target, name, clips)
          case OtherEntry(_) => []
  }

  /** to_categorical(v, 2): the one-hot row of a 0/1 label. */
  function OneHot(v: nat): (row: seq<int>)
    requires v < 2
    ensures |row| == 2 && row[v] == 1 && row[1 - v] == 0
  {
    if v == 0 then [1, 0] else [0, 1]
  }

  /** The clips of a list of samples, as the `clips` list holds them. */
  ghost function FramesOf(samples: seq<Sample>): seq<seq<Frame>>
  {
    if samples == [] then [] else FramesOf(samples[..|samples| - 1]) + [samples[|samples| - 1].frames]
  }

  /** The labels of a list of samples, as the `labels` list holds them. */
  ghost function LabelsOf(samples: seq<Sample>): seq<nat>
  {
    if samples == [] then [] else LabelsOf(samples[..|samples| - 1]) + [samples[|samples| - 1].labelVal]
  }

  lemma {:induction false} OfAppend(s: seq<Sample>, t: seq<Sample>)
    ensures FramesOf(s + t) == FramesOf(s) + FramesOf(t)
    ensures LabelsOf(s + t) == LabelsOf(s) + LabelsOf(t)
    decreases |t|
  {
    if t != [] {
      assert (s + t)[..|s + t| - 1] == s + t[..|t| - 1];
      OfAppend(s, t[..|t| - 1]);
    } else {
      assert s + t == s;
    }
  }

  /** `clips` and `labels` stay aligned: same length, entry k of each from sample k. */
  lemma {:induction false} OfAligned(samples: seq<Sample>)
    ensures |FramesOf(samples)| == |LabelsOf(samples)| == |samples|
    ensures forall k :: 0 <= k < |samples| ==>
      FramesOf(samples)[k] == samples[k].frames && LabelsOf(samples)[k] == samples[k].labelVal
  {
    if samples != [] {
      OfAligned(samples[..|samples| - 1]);
    }
  }

  /** What one more clip folder, loaded as `clip`, adds to the `clips` and `labels` lists. */
  lemma ClassSamplesNext(target: string, dir: string, entries: seq<ClipEntry>, j: nat, clip: Option<seq<Frame>>)
    requires j < |entries|
    requires clip == if entries[j].jpgs == [] then None else Some(Normalized(entries[j].jpgs))
    ensures FramesOf(ClassSamples(target, dir, entries[..j + 1])) ==
      FramesOf(ClassSamples(target, dir, entries[..j])) + if clip.Some? then [clip.value] else []
    ensures LabelsOf(ClassSamples(target, dir, entries[..j + 1])) ==
      LabelsOf(ClassSamples(target, dir, entries[..j])) + if clip.Some? then [if dir == target then 1 else 0] else []
  {
    assert entries[..j + 1][..j] == entries[..j];
    var step := ClipSample(target, dir, entries[j]);
    OfAppend(ClassSamples(target, dir, entries[..j]), step);
    if step != [] {
      assert step[..0] == [];
    }
  }

  /** Appending to the whole list is appending to its added part. */
  lemma AppendBoth<T>(front: seq<T>, added: seq<T>, x: T)
    ensures front + added + [x] == front + (added + [x])
  {
  }

  /** The inner loop of lines 73-79 over the clip folders of one class folder. */
  method LoadClass(target: string, dir: string, entries: seq<ClipEntry>,
                   clips: seq<seq<Frame>>, labels: seq<nat>)
    returns (clips': seq<seq<Frame>>, labels': seq<nat>)
    ensures clips' == clips + FramesOf(ClassSamples(target, dir, entries))
    ensures labels' == labels + LabelsOf(ClassSamples(target, dir, entries))
  {
    clips', labels' := clips, labels;
    ghost var added: seq<seq<Frame>> := [];
    ghost var addedLabels: seq<nat> := [];
    for j := 0 to |entries|
      invariant added == FramesOf(ClassSamples(target, dir, entries[..j]))
      invariant addedLabels == LabelsOf(ClassSamples(target, dir, entries[..j]))
      invariant clips' == clips + added && labels' == labels + addedLabels
    {
      var clip := LoadClip(entries[j].jpgs);
      ClassSamplesNext(target, dir, entries, j, clip);
      if clip.Some? {
        var labelVal := if dir == target then 1 else 0;
        AppendBoth(clips, added, clip.value);
        AppendBoth(labels, addedLabels, labelVal);
        clips' := clips' + [clip.value];
        labels' := labels' + [labelVal];
        added, addedLabels := added + [clip.value], addedLabels + [labelVal];
      }
    }
    assert entries[..|entries|] == entries;
  }

  /**
   * Lines 65-80: walk the dataset folder, skip what is not a folder, load
   * every clip folder of every class folder, and one-hot encode the labels.
   */
  method LoadDataset(target: string, entries: seq<DatasetEntry>) returns (x: seq<seq<Frame>>, y: seq<seq<int>>)
    ensures x == FramesOf(Samples(target, entries))
    ensures |x| == |y| == |Samples(target, entries)|
    ensures forall k :: 0 <= k < |y| ==>
      (Samples(target, entries)[k].labelVal < 2 && y[k] == OneHot(Samples(target, entries)[k].labelVal))
  {
    var clips: seq<seq<Frame>> := [];
    var labels: seq<nat> := [];
    for j := 0 to |entries|
      invariant clips == FramesOf(Samples(target, entries[..j]))
      invariant labels == LabelsOf(Samples(target, entries[..j]))
    {
      assert entries[..j + 1][..j] == entries[..j];
      match entries[j]
      case ClassDir(name, clipEntries) =>
        assert Samples(target, entries[..j + 1]) ==
          Samples(target, entries[..j]) + ClassSamples(target, name, clipEntries);
        OfAppend(Samples(target, entries[..j]), ClassSamples(target, name, clipEntries));
        clips, labels := LoadClass(target, name, clipEntries, clips, labels);
      case OtherEntry(_) =>
        assert Samples(target, entries[..j + 1]) == Samples(target, entries[..j]);
    }
    assert entries[..|entries|] == entries;
    var samples := Samples(target, entries);
    OfAligned(samples);
    SamplesLabels(target, entries);
    y := [];
    for k := 0 to |labels|
      invariant |y| == k
      invariant forall i :: 0 <= i < k ==> y[i] == OneHot(labels[i])
    {
      y := y + [OneHot(labels[k])];
    }
    x := clips;
  }

  /** Every label is 1 exactly when the sample's class folder is the target class, 0 otherwise. */
  lemma {:induction false} ClassSamplesLabels(target: string, dir: string, clips: seq<ClipEntry>)
    ensures forall k :: 0 <= k < |ClassSamples(target, dir, clips)| ==>
      && ClassSamples(target, dir, clips)[k].dir == dir
      && ClassSamples(target, dir, clips)[k].labelVal == (if dir == target then 1 else 0)
  {
    if clips != [] {
      ClassSamplesLabels(target, dir, clips[..|clips| - 1]);
    }
  }

  /** Labels are 1 exactly for the samples of the target class's folder, 0 for all others. */
  lemma {:induction false} SamplesLabels(target: string, entries: seq<DatasetEntry>)
    ensures forall k :: 0 <= k < |Samples(target, entries)| ==>
      Samples(target, entries)[k].labelVal == (if Samples(target, entries)[k].dir == target then 1 else 0)
  {
    if entries != [] {
      SamplesLabels(target, entries[..|entries| - 1]);
      match entries[|entries| - 1]
      case ClassDir(name, clips) => ClassSamplesLabels(target, name, clips);
      case OtherEntry(_) =>
    }
  }

  /** A clip entry of a class folder that has images. */
  ghost predicate LoadedFrom(entries: seq<DatasetEntry>, s: Sample)
  {
    exists i, j :: 0 <= i < |entries| && entries[i].ClassDir? && entries[i].name == s.dir &&
      0 <= j < |entries[i].clips| && entries[i].clips[j].jpgs != [] &&
      s.frames == Normalized(entries[i].clips[j].jpgs)
  }

  lemma {:induction false} ClassSamplesFrom(target: string, dir: string, clips: seq<ClipEntry>)
    ensures forall s :: s in ClassSamples(target, dir, clips) ==>
      s.dir == dir && exists j :: 0 <= j < |clips| && clips[j].jpgs != [] && s.frames == Normalized(clips[j].jpgs)
  {
    if clips != [] {
      ClassSamplesFrom(target, dir, clips[..|clips| - 1]);
    }
  }

  /** Every clip of the folder that has images yields its sample. */
  lemma {:induction false} ClassSamplesCover(target: string, dir: string, clips: seq<ClipEntry>, j: nat)
    requires j < |clips| && clips[j].jpgs != []
    ensures Sample(Normalized(clips[j].jpgs), if dir == target then 1 else 0, dir) in ClassSamples(target, dir, clips)
  {
    var front := clips[..|clips| - 1];
    if j < |front| {
      ClassSamplesCover(target, dir, front, j);
      assert front[j] == clips[j];
    }
  }

  /**
   * Every clip folder with images inside a class folder yields a sample,
   * labelled 1 exactly when that folder is the target class.
   */
  lemma {:induction false} SamplesCover(target: string, entries: seq<DatasetEntry>, i: nat, j: nat)
    requires i < |entries| && entries[i].ClassDir?
    requires j < |entries[i].clips| && entries[i].clips[j].jpgs != []
    ensures Sample(Normalized(entries[i].clips[j].jpgs), if entries[i].name == target then 1 else 0, entries[i].name)
      in Samples(target, entries)
  {
    var front := entries[..|entries| - 1];
    if i < |front| {
      SamplesCover(target, front, i, j);
      assert front[i] == entries[i];
    } else {
      ClassSamplesCover(target, entries[i].name, entries[i].clips, j);
    }
  }

  /**
   * Every sample is the normalised clip of a clip folder with images inside
   * a class folder: other entries and clips without images contribute nothing.
   */
  lemma {:induction false} SamplesFrom(target: string, entries: seq<DatasetEntry>)
    ensures forall s :: s in Samples(target, entries) ==> LoadedFrom(entries, s) && |s.frames| == MAX_FRAMES
  {
    if entries != [] {
      var front := entries[..|entries| - 1];
      SamplesFrom(target, front);
      forall s | s in Samples(target, entries)
        ensures LoadedFrom(entries, s) && |s.frames| == MAX_FRAMES
      {
        if s in Samples(target, front) {
          var i, j :| 0 <= i < |front| && front[i].ClassDir? && front[i].name == s.dir &&
            0 <= j < |front[i].clips| && front[i].clips[j].jpgs != [] &&
            s.frames == Normalized(front[i].clips[j].jpgs);
          assert entries[i] == front[i];
        } else {
          var i := |entries| - 1;
          match entries[i]
          case ClassDir(name, clips) =>
            ClassSamplesFrom(target, name, clips);
            var j :| 0 <= j < |clips| && clips[j].jpgs != [] && s.frames == Normalized(clips[j].jpgs);
            assert entries[i].clips[j] == clips[j];
          case OtherEntry(_) =>
            assert false;
        }
      }
    }
  }
}
