# ai-valley frame bookkeeping, modelled in Dafny

This project models the integer and sequence bookkeeping in the scripts of
the volleyball-video pipeline ai-valley. It covers six scripts:

- **extract_frames.py** samples every `int(fps)`-th frame of a video into
  `frame_0000.jpg`, `frame_0001.jpg`, and so on.
- **predict_frames.py** and **predict_frames_slim.py** slide a window of
  `MAX_FRAMES` frames over those files. Four action models (spike, block,
  receive, serve) score each window, and the cursor skips ahead after a hit.
  Each script then cuts clips around the detected centres, with a different
  policy:
  - predict_frames.py clamps each clip window to the video and drops any
    window that overlaps a clip already cut for the same class;
  - predict_frames_slim.py uses fixed-size windows and drops any window that
    does not fit in the video.
- **make_score_video.py** reads frame numbers out of detection names, widens
  each one by `margin` frames, merges them into one sorted list, and gathers
  the frame files that exist.
- **auto_select_person_by_ball.py** picks the most confident ball and the
  person nearest to it.
- **confusion_matrix.py** normalises clip folders to `MAX_FRAMES` frames and
  labels them one-vs-rest for training.

The code has one module per script. Some shared parts have their own modules:

| module | contents |
|---|---|
| `ActionScan` | the scan loop, which is the same in both predict scripts |
| `Frames` | half-open frame windows |
| `FrameNames` | the `frame_{idx:04d}.jpg` names and their digits |
| `Results` | the `Option` and `Result` types |

How the outside world is represented:

- **Models.** Inference is an oracle:
  - `conf(i, c)` is the confidence that class model `c` gives the window at cursor `i`;
  - a `Box` list stands for the YOLO detections.
- **Files and video.**
  - The video is the sequence of `read()` outcomes.
  - Directory listings are sequences, in the order the scripts see them.
  - `exists(name)` and `readable(f)` are predicates.
  - A written clip is the list of the frame numbers copied into it.

Three details of the code that the model keeps as written:

- **Scan loop bound.** The loop condition is `i < len(frame_files) - MAX_FRAMES`.
  So the last full window `[n - MAX_FRAMES, n)` is never examined, even
  though it fits (`ActionScan.LastWindowNeverScanned`).
- **Fixed-size window.** predict_frames_slim.py starts each window at
  `center - MAX_FRAMES // 2` and ends it `MAX_FRAMES` frames later
  (predict_frames_slim.py:65-66).
- **Unreadable frames.** predict_frames.py copies every frame of a clip
  without checking the read. Only predict_frames_slim.py skips frames that
  cannot be read.

## Model

| member | source | states |
|---|---|---|
| ActionScan.ExamineWindow | predict_frames.py:52-59 | `hit` is true iff some class's confidence is at least the threshold (equality hits). The list of each class that hit gains the centre `i + MAX_FRAMES // 2`. Every other list is unchanged, and the keys stay the four classes. |
| ActionScan.Scan | predict_frames.py:36-61 | `detected_frames` has exactly the four classes as keys. Each class's list is the centres of the windows it hit, in the order the cursor visits them. |
| ActionScan.HitIsAnyHit | predict_frames.py:56-61 | A hit by any class moves the cursor by `SKIP_AFTER_DETECTION`. Several classes hitting the same window still give a single skip. |
| ActionScan.CursorsShape | predict_frames.py:37-61 | The cursors start at 0 and stay in `[0, n - MAX_FRAMES)`. Each cursor is the previous one plus the skip after a hit, or plus 1 otherwise, so they strictly increase. The scan ends only once the next step reaches `n - MAX_FRAMES`. |
| ActionScan.CentersMembers | predict_frames.py:55-57 | A centre is in a class's list iff some visited cursor `i` hit for that class and the centre equals `i + MAX_FRAMES // 2`. |
| ActionScan.CentersSpaced | predict_frames.py:56-61 | Along debounced cursors, consecutive centres of one class are at least `SKIP_AFTER_DETECTION` apart. |
| ActionScan.ScanCentersSound | predict_frames.py:36-61 | Every recorded centre belongs to a visited cursor in `[0, n - MAX_FRAMES)` at which the class hit. Every hit at a visited cursor is recorded. Centres are at least the skip apart. |
| ActionScan.ShortInputScansNothing | predict_frames.py:38 | With `n <= MAX_FRAMES`, no window is examined and every list stays empty. |
| ActionScan.LastWindowNeverScanned | predict_frames.py:38 | The window starting at `n - MAX_FRAMES` is never examined, so its centre is in no list. |
| ActionScan.ScanScenario | predict_frames.py:36-61 | 100 frames, window 10, threshold 0.5, skip 30, and one class always at 0.9: the cursors are 0, 30, 60 and that class's centres are 5, 35, 65. |
| ActionScan.ScanScenarioOthers | predict_frames.py:52-57 | In that scenario, every class other than the confident one records no centre. |
| PredictFrames.Overlaps | predict_frames.py:71 | `any(f in used for f in range(start, end))` is true iff the window shares a frame with `used`. |
| PredictFrames.Claim | predict_frames.py:74-75 | `used` becomes `used` plus every frame of the window. |
| PredictFrames.CopyFrames | predict_frames.py:79-83 | The frames `start, ..., end-1` are copied, in order. |
| PredictFrames.AllocateClass | predict_frames.py:65-84 | For one class, the clips and the final `used` set equal the reference allocation: candidates are taken in order, and a clamped window is accepted iff it is disjoint from the windows accepted before it. |
| PredictFrames.SaveClips | predict_frames.py:64-84 | Every class is allocated on its own list, with its own `used` set and its own numbering. |
| PredictFrames.Run | predict_frames.py:36-84 | The whole script: each class's clips are the allocation of its scan centres. They are numbered 0, 1, 2, and so on. Each is non-empty, lies inside `[0, n)`, is copied whole, and no two share a frame. |
| PredictFrames.ClipsOfShape | predict_frames.py:77-84 | Clip `k` is named by ordinal `k` and holds exactly the frames of the k-th accepted window. |
| PredictFrames.CoveredIsUnion | predict_frames.py:66-75 | `used` is exactly the union of the accepted windows. |
| PredictFrames.AllocatedDisjoint | predict_frames.py:71-75 | The accepted windows of a class are pairwise disjoint. |
| PredictFrames.AllocatedInside | predict_frames.py:68-69 | For centres in `[0, n)`, every accepted window is non-empty and inside `[0, n)`. |
| PredictFrames.AllocatedPrefix | predict_frames.py:67-84 | Later candidates never remove an earlier acceptance, so earlier centres win conflicts. |
| PredictFrames.AllocatedFromCandidates | predict_frames.py:67-69 | Every accepted window is the clamped window of some candidate. |
| PredictFrames.AllocatedMaximal | predict_frames.py:71-72 | Every candidate's window is either accepted or overlaps an accepted window: nothing is dropped without reason. |
| PredictFramesSlim.CopyReadable | predict_frames_slim.py:72-78 | The frames of the window are copied in order, and frames that cannot be read are skipped. |
| PredictFramesSlim.ReadableInMembers | predict_frames_slim.py:72-78 | A frame is in a clip iff it lies in the window and can be read. The clip's frames strictly increase, so none is copied twice. |
| PredictFramesSlim.SaveClass | predict_frames_slim.py:63-79 | For one class, the clips are the fitting windows in candidate order. `clip_index` counts only kept windows, and each clip holds the readable frames of its window. |
| PredictFramesSlim.SaveClips | predict_frames_slim.py:62-79 | Every class is saved on its own list with its own numbering. |
| PredictFramesSlim.Run | predict_frames_slim.py:34-79 | The whole script: one clip per detected centre. Clip `k` has ordinal `k`. Its window is `[c - 5, c + 5)`, inside `[0, n)`, and disjoint from the other windows of its class. It holds the readable frames of that window. |
| PredictFramesSlim.ScanClipsValid | predict_frames_slim.py:36-79 | The scan's detections and the fixed-size allocator together give valid clips, as `Run` states. |
| PredictFramesSlim.ScanWindowsFit | predict_frames_slim.py:36-67 | The window of a detected centre is exactly the scanned window, so it always fits and the reject branch never fires. Detected centres are at least `MAX_FRAMES` apart. |
| PredictFramesSlim.ClipsOfShape | predict_frames_slim.py:70-79 | Clip `k` has ordinal `k`, window `ws[k]`, and that window's readable frames. |
| PredictFramesSlim.KeptExactly | predict_frames_slim.py:65-68 | A candidate's window is kept iff `start >= 0` and `end <= n`. Every kept window is exactly `MAX_FRAMES` long. |
| PredictFramesSlim.KeptAll | predict_frames_slim.py:65-68 | When every window fits, no candidate is dropped. |
| PredictFramesSlim.KeptDisjoint | predict_frames_slim.py:59-66 | Centres at least `MAX_FRAMES` apart give pairwise disjoint windows, each drawn from a candidate. |
| FrameNames.DecimalValue | make_score_video.py:14 | Reading back the decimal digits of `v` gives `v`. |
| FrameNames.LeadingZerosValue | make_score_video.py:14 | Leading zeros do not change the value of a digit string. |
| FrameNames.ZeroPadValue | make_score_video.py:14-25 | Reading back the `{:04d}` digits of `v` gives `v`. |
| FrameNames.Format04RoundTrip | make_score_video.py:25 | `f"{idx:04d}"` read back as a signed decimal gives `idx`. It is at least 4 characters long, and exactly 4 for `0 <= idx < 10000`. |
| FrameNames.FrameNameInjective | extract_frames.py:73 | Distinct indices give distinct `frame_{idx:04d}.jpg` names, so no saved file overwrites another. |
| MakeScoreVideo.LeadingDigits | make_score_video.py:14 | The result is the longest all-digit prefix: a prefix made of digits, followed by a non-digit or by the end. |
| MakeScoreVideo.FirstDigitRun | make_score_video.py:14 | `re.search(r'(\d+)')` finds nothing iff the name has no digit. Otherwise it finds a maximal digit run with no digit before it. |
| MakeScoreVideo.FirstRunUnique | make_score_video.py:14 | A name has only one first maximal digit run, so the match is determined. |
| MakeScoreVideo.ParseIndex | make_score_video.py:14 | The index is missing (NaN) iff the name contains no digit. Otherwise it is the value of the first maximal digit run. |
| MakeScoreVideo.ParseIndexFirstRun | make_score_video.py:14 | For a digit-free prefix, then digits, then a non-digit, the index is the value of those digits. |
| MakeScoreVideo.FrameNameRoundTrip | make_score_video.py:14-25 | Parsing `frame_{idx:04d}.jpg` gives back `idx`, or `-idx` for a negative `idx`. |
| MakeScoreVideo.ParseAll | make_score_video.py:14 | The column converts iff every name has an index. The k-th integer is then the index of the k-th name. |
| MakeScoreVideo.ExpandedSetNear | make_score_video.py:16-19 | The set `{idx + o : idx listed, -margin <= o <= margin}` holds exactly the integers within `margin` of a listed index. No clamping is applied, so negative frames can occur. |
| MakeScoreVideo.SortedElements | make_score_video.py:20 | `sorted(set)` is strictly increasing and has the same elements as the set. |
| MakeScoreVideo.IncreasingUnique | make_score_video.py:20 | Two strictly increasing lists with the same elements are equal. |
| MakeScoreVideo.SortedUnion | make_score_video.py:16-20 | The expanded list is strictly increasing and holds exactly the integers within `margin` of an index. |
| MakeScoreVideo.ExpandIndices | make_score_video.py:16-20 | The nested loops followed by `sorted` produce exactly that list. |
| MakeScoreVideo.SortedUnionBounds | make_score_video.py:16-20 | Every input index is in the expanded list. Every listed frame is within `margin` of an input index. |
| MakeScoreVideo.ExpandIdempotent | make_score_video.py:16-20 | With margin 0, the result is the input sorted without repeats. Re-expanding an expanded list with margin 0 returns it unchanged. |
| MakeScoreVideo.CollectImages | make_score_video.py:23-29 | The collected frames are the listed frames whose file exists, in list order. |
| MakeScoreVideo.ExistingMembers | make_score_video.py:24-29 | A frame is collected iff it is listed and its file exists. At most as many frames are collected as are listed. |
| MakeScoreVideo.ExistingIncreasing | make_score_video.py:24-29 | Collecting keeps the order, so the collected frames stay strictly increasing. |
| MakeScoreVideo.Run | make_score_video.py:13-39 | None iff some name has no index. Otherwise the video's frames are the existing files of the expanded list, and a video is written iff at least one image was collected. |
| ExtractFrames.Trunc | extract_frames.py:28 | `int(frame_rate)` truncates toward zero. |
| ExtractFrames.ReadCount | extract_frames.py:31-34 | The loop processes exactly the reads before the first failed one. |
| ExtractFrames.Extract | extract_frames.py:21-77 | If the capture did not open, the script exits. With interval 0, the first frame read raises ZeroDivisionError. Otherwise the saved files are the reference sampling of the frames read. |
| ExtractFrames.SampledExactly | extract_frames.py:36-77 | Frame `f` is saved iff it was read and `f % interval == 0`. |
| ExtractFrames.SampledCount | extract_frames.py:36-77 | `saved_count` `s` is the least `s` with `frame_count <= s * abs(interval)`. |
| ExtractFrames.SampledSources | extract_frames.py:73-75 | The k-th saved file is `frame_{k:04d}.jpg` and holds frame `k * abs(interval)`. |
| ExtractFrames.SampledShape | extract_frames.py:31-77 | After `n` frames, `saved_count` is `(n + I - 1) / I` with `I = abs(interval)`. The names are dense from `frame_0000.jpg`, and file `k` holds frame `k * I`. |
| ExtractFrames.EveryFrameAtRateOne | extract_frames.py:28-36 | A frame rate in `[1, 2)` gives interval 1. Then every frame read is saved, and the saved count equals the number of frames read. |
| AutoSelectPerson.Contains | auto_select_person_by_ball.py:36 | `"ball" in label` holds iff the pattern occurs as a contiguous substring. |
| AutoSelectPerson.Partition | auto_select_person_by_ball.py:25-37 | `people` and `balls` are the person boxes and the ball boxes, each in detection order. |
| AutoSelectPerson.PartitionMembers | auto_select_person_by_ball.py:34-37 | A box is a person iff its label is "person". It is a ball iff it is not a person and its label contains "ball". No box is both, and other boxes are dropped. |
| AutoSelectPerson.BestBall | auto_select_person_by_ball.py:45 | `max` by confidence returns a ball of highest confidence, and on ties the earliest one. |
| AutoSelectPerson.Center | auto_select_person_by_ball.py:46-55 | The centre is `(x1 + x2) // 2`, `(y1 + y2) // 2`, with floor division. |
| AutoSelectPerson.SqDist | auto_select_person_by_ball.py:57 | The squared distance is zero iff the points coincide. |
| AutoSelectPerson.Closest | auto_select_person_by_ball.py:51-61 | A person is chosen iff the list is non-empty. The chosen person is at minimal distance, and the strict `<` makes it the earliest among equally near ones. |
| AutoSelectPerson.ClosestUnique | auto_select_person_by_ball.py:59-61 | That contract determines the chosen person uniquely. |
| AutoSelectPerson.Select | auto_select_person_by_ball.py:25-61 | None iff there is no person or no ball (the script exits). Otherwise the most confident ball is selected, with the person nearest to its centre; among equally near people, the earliest one is chosen. |
| ConfusionMatrix.Normalized | confusion_matrix.py:51-61 | The clip has exactly `MAX_FRAMES` frames. The first `min(n, MAX_FRAMES)` are the images in path order, and the rest are the blank frame. |
| ConfusionMatrix.LoadClip | confusion_matrix.py:50-62 | None iff the folder has no image. Otherwise the truncated and padded clip. |
| ConfusionMatrix.OneHot | confusion_matrix.py:80 | `to_categorical(v, 2)` is a row of length 2 with a 1 at position `v` and a 0 elsewhere. |
| ConfusionMatrix.OfAligned | confusion_matrix.py:78-79 | `clips` and `labels` have equal length. Their k-th entries come from the same sample. |
| ConfusionMatrix.LoadClass | confusion_matrix.py:73-79 | One class folder appends the clips and labels of its clip folders that have images, in listing order. |
| ConfusionMatrix.LoadDataset | confusion_matrix.py:65-80 | The clips are the reference samples in order, and `y` holds their one-hot labels, aligned. |
| ConfusionMatrix.ClassSamplesLabels | confusion_matrix.py:77 | Every sample of a class folder carries label 1 iff that folder is the target class. |
| ConfusionMatrix.SamplesLabels | confusion_matrix.py:69-79 | Across the dataset, a sample's label is 1 iff its class folder's name equals the target, and 0 otherwise. |
| ConfusionMatrix.ClassSamplesFrom | confusion_matrix.py:73-79 | Every sample of a class folder is the normalised clip of one of its clip folders that has images. |
| ConfusionMatrix.SamplesFrom | confusion_matrix.py:69-79 | Every sample comes from a clip folder with images inside a class folder, and has `MAX_FRAMES` frames. Other entries and empty clips contribute nothing. |
| ConfusionMatrix.ClassSamplesCover | confusion_matrix.py:73-79 | Every clip folder of a class folder that has images yields its normalised sample. |
| ConfusionMatrix.SamplesCover | confusion_matrix.py:69-79 | Every clip folder with images inside any class folder yields a sample, labelled 1 iff that folder is the target class. |

## Left out

- **Model inference.** Loading, training and inference (`load_model`, `predict`, the YOLO detections drawn by extract_frames.py:52-70, `create_model`, `fit`, `save`, confusion_matrix.py:37-47 and 83-97) are not modelled. Confidences and detections are inputs.
- **Image and video I/O.** `load_img`, `imread`, `imwrite`, `VideoCapture`, `VideoWriter` and `makedirs` are not modelled. A video is its sequence of read outcomes, and a written file is a record of which frame it holds.
- **Directory listings.** `os.listdir`, the `.jpg` filter and the `sorted`/`glob` calls that produce the frame list (predict_frames.py:33, confusion_matrix.py:51) are not modelled. The model takes the resulting lists, already in the scripts' order.
- **Unreadable frames in predict_frames.py.** `cv2.imwrite(dst, cv2.imread(src))` at predict_frames.py:83 raises when a frame cannot be read. The model treats every frame there as readable.
- **Floating-point numerics.** Pixel normalisation (`/ 255.0`), the timestamp and `timedelta` text (extract_frames.py:38-50) and the drawing calls are not modelled.
- **Distances.** The float `np.linalg.norm` is replaced by the exact squared integer distance, which orders integer centres the same way. Float rounding on near-ties is not modelled.
- **Digits in names.** The regular expression `\d` also matches non-ASCII digits. The model only reads ASCII `0`-`9`.
- **CSV input.** The CSV read and pandas' NaN handling are not modelled. A name without digits makes `ParseAll` return None, which stands for the failing `astype(int)`.
- **Capture state.** extract_frames.py's `while cap.isOpened()` is taken to stay true once the capture is open. The loop ends only at a failed read.
- **Image load failure.** The `FileNotFoundError` in auto_select_person_by_ball.py:16-18 is not modelled.
- **Other scripts.** person_selector.py (an interactive GUI loop) and run_deep_sort.py (tracker plumbing) are not part of this model.
- **Trajectory scoring.** The scoring that produces the detections CSV read by make_score_video.py is not part of this model.
- **Printing and progress messages** are not modelled.
