/**
 * The sliding-window action detector shared by predict_frames.py and
 * predict_frames_slim.py: a cursor i scans the windows [i, i + window),
 * every class model is asked about the window independently, and the
 * cursor jumps ahead by `skip` when any class hit and by one otherwise.
 *
 * The classifiers are an oracle `conf(i, c)`: the confidence that class
 * model c gives the window starting at frame i. It is only ever compared
 * with the threshold.
 */
module ActionScan {

  /** The four class models, in the order the scripts' model dictionary lists them. */
  datatype ActionClass = Spike | Block | Receive | Serve

  const Classes: seq<ActionClass> := [Spike, Block, Receive, Serve]

  /** window = MAX_FRAMES, threshold = THRESHOLD, skip = SKIP_AFTER_DETECTION. */
  datatype ScanConfig = ScanConfig(window: nat, threshold: real, skip: nat)

  type Confidence = (int, ActionClass) -> real

  /** Class c hits the window starting at i; a confidence equal to the threshold hits. */
  predicate Hit(cfg: ScanConfig, conf: Confidence, i: int, c: ActionClass)
  {
    conf(i, c) >= cfg.threshold
  }

  predicate AnyHit(cfg: ScanConfig, conf: Confidence, i: int)
  {
    exists c :: c in Classes && Hit(cfg, conf, i, c)
  }

  /** How far the cursor moves after examining the window at i. */
  function Step(cfg: ScanConfig, conf: Confidence, i: int): int
  {
    if AnyHit(cfg, conf, i) then cfg.skip else 1
  }

  /** The centre frame recorded for a hit on the window starting at i. */
  function Center(cfg: ScanConfig, i: int): int
  {
    i + cfg.window / 2
  }

  /** The cursors the scan examines when it stands at i, in order. */
  ghost function Cursors(n: int, cfg: ScanConfig, conf: Confidence, i: int): seq<int>
    requires cfg.skip >= 1
    decreases n - cfg.window - i
  {
    if i < n - cfg.window then [i] + Cursors(n, cfg, conf, i + Step(cfg, conf, i)) else []
  }

  /** The centres recorded for class c while the cursor visits vs. */
  ghost function Centers(cfg: ScanConfig, conf: Confidence, c: ActionClass, vs: seq<int>): seq<int>
  {
    if vs == [] then []
    else
      var v := vs[|vs| - 1];
      Centers(cfg, conf, c, vs[..|vs| - 1]) + if Hit(cfg, conf, v, c) then [Center(cfg, v)] else []
  }

  /** The centre list of class c after one whole scan of n frames. */
  ghost function ClassCenters(n: int, cfg: ScanConfig, conf: Confidence, c: ActionClass): seq<int>
    requires cfg.skip >= 1
  {
    Centers(cfg, conf, c, Cursors(n, cfg, conf, 0))
  }

  /** The position of each class in Classes. */
  function IndexOf(c: ActionClass): (j: nat)
    ensures j < |Classes| && Classes[j] == c
  {
    match c
    case Spike => 0
    case Block => 1
    case Receive => 2
    case Serve => 3
  }

  /**
   * One step of the scan loop: ask every class model about the window at i
   * and append the window's centre to the list of each class that hit.
   */
  method ExamineWindow(cfg: ScanConfig, conf: Confidence, i: int, detected: map<ActionClass, seq<int>>)
      returns (hit: bool, detected': map<ActionClass, seq<int>>)
    requires forall c :: c in detected <==> c in Classes
    ensures hit <==> AnyHit(cfg, conf, i)
    ensures forall c :: c in detected' <==> c in Classes
    ensures forall c :: c in detected' ==>
      detected'[c] == detected[c] + if Hit(cfg, conf, i, c) then [Center(cfg, i)] else []
  {
    hit, detected' := false, detected;
    var k := 0;
    while k < |Classes|
      invariant 0 <= k <= |Classes|
      invariant hit <==> exists j :: 0 <= j < k && Hit(cfg, conf, i, Classes[j])
      invariant detected'.Keys == detected.Keys
      invariant forall j :: 0 <= j < |Classes| ==>
        detected'[Classes[j]] == detected[Classes[j]]
                                 + if j < k && Hit(cfg, conf, i, Classes[j]) then [Center(cfg, i)] else []
    {
      var cls := Classes[k];
      if conf(i, cls) >= cfg.threshold {
        detected' := detected'[cls := detected'[cls] + [i + cfg.window / 2]];
        hit := true;
      }
      k := k + 1;
    }
    forall c | c in detected'
      ensures detected'[c] == detected[c] + if Hit(cfg, conf, i, c) then [Center(cfg, i)] else []
    {
      assert Classes[IndexOf(c)] == c;
    }
    if AnyHit(cfg, conf, i) {
      var c :| c in Classes && Hit(cfg, conf, i, c);
      assert Classes[IndexOf(c)] == c;
    }
  }

  /**
   * The scan loop: `detected` (the scripts' `detected_frames`) maps every
   * class to its list of centres.
   */
  method Scan(n: nat, cfg: ScanConfig, conf: Confidence) returns (detected: map<ActionClass, seq<int>>)
    requires cfg.skip >= 1
    ensures forall c :: c in detected <==> c in Classes
    ensures forall c :: c in detected ==> detected[c] == ClassCenters(n, cfg, conf, c)
  {
    detected := map[Spike := [], Block := [], Receive := [], Serve := []];
    var i := 0;
    ghost var visited: seq<int> := [];
    while i < n - cfg.window
      invariant 0 <= i
      invariant visited + Cursors(n, cfg, conf, i) == Cursors(n, cfg, conf, 0)
      invariant forall c :: c in detected <==> c in Classes
      invariant forall c :: c in detected ==> detected[c] == Centers(cfg, conf, c, visited)
      decreases n - cfg.window - i
    {
      var hit;
      hit, detected := ExamineWindow(cfg, conf, i, detected);
      assert (visited + [i])[..|visited|] == visited;
      visited := visited + [i];
      i := i + if hit then cfg.skip else 1;
    }
    assert visited == Cursors(n, cfg, conf, 0);
  }

  lemma HitIsAnyHit(cfg: ScanConfig, conf: Confidence, i: int, c: ActionClass)
    requires Hit(cfg, conf, i, c)
    ensures AnyHit(cfg, conf, i) && Step(cfg, conf, i) == cfg.skip
  {
    assert Classes[IndexOf(c)] == c;
  }

  /** Any two entries of s, in order, are at least d apart. */
  ghost predicate Spaced(s: seq<int>, d: int)
  {
    forall a, b :: 0 <= a < b < |s| ==> s[a] + d <= s[b]
  }

  /** Any two visited cursors are at least one full step apart. */
  ghost predicate Debounced(cfg: ScanConfig, conf: Confidence, vs: seq<int>)
  {
    forall a, b :: 0 <= a < b < |vs| ==> vs[a] + Step(cfg, conf, vs[a]) <= vs[b]
  }

  /**
   * The cursors of a scan from i: they start at i, stay below n - window,
   * each is the previous one plus its step (skip after a hit, one otherwise),
   * and the scan stops only once the next step reaches n - window.
   */
  lemma {:induction false} CursorsShape(n: int, cfg: ScanConfig, conf: Confidence, i: int)
    requires cfg.skip >= 1
    ensures var r := Cursors(n, cfg, conf, i);
      && (r == [] <==> n - cfg.window <= i)
      && (r != [] ==> r[0] == i && n - cfg.window <= r[|r| - 1] + Step(cfg, conf, r[|r| - 1]))
      && (forall k :: 0 <= k < |r| ==> i <= r[k] < n - cfg.window)
      && (forall k :: 0 <= k < |r| - 1 ==> r[k + 1] == r[k] + Step(cfg, conf, r[k]))
      && Debounced(cfg, conf, r)
    decreases n - cfg.window - i
  {
    if i < n - cfg.window {
      var j := i + Step(cfg, conf, i);
      CursorsShape(n, cfg, conf, j);
      var r, rest := Cursors(n, cfg, conf, i), Cursors(n, cfg, conf, j);
      assert r == [i] + rest;
      forall a, b | 0 <= a < b < |r|
        ensures r[a] + Step(cfg, conf, r[a]) <= r[b]
      {
        if a > 0 {
          assert r[a] == rest[a - 1] && r[b] == rest[b - 1];
        } else {
          assert r[b] == rest[b - 1];
        }
      }
    }
  }

  /** A centre is recorded for class c exactly for the visited cursors where c hit. */
  lemma {:induction false} CentersMembers(cfg: ScanConfig, conf: Confidence, c: ActionClass, vs: seq<int>)
    ensures forall x :: x in Centers(cfg, conf, c, vs) <==>
      exists k :: 0 <= k < |vs| && Hit(cfg, conf, vs[k], c) && x == Center(cfg, vs[k])
  {
    if vs != [] {
      var front := vs[..|vs| - 1];
      CentersMembers(cfg, conf, c, front);
      forall x | x in Centers(cfg, conf, c, vs)
        ensures exists k :: 0 <= k < |vs| && Hit(cfg, conf, vs[k], c) && x == Center(cfg, vs[k])
      {
        if x in Centers(cfg, conf, c, front) {
          var k :| 0 <= k < |front| && Hit(cfg, conf, front[k], c) && x == Center(cfg, front[k]);
          assert vs[k] == front[k];
        } else {
          assert Hit(cfg, conf, vs[|vs| - 1], c) && x == Center(cfg, vs[|vs| - 1]);
        }
      }
      forall k | 0 <= k < |vs| && Hit(cfg, conf, vs[k], c)
        ensures Center(cfg, vs[k]) in Centers(cfg, conf, c, vs)
      {
        if k < |front| {
          assert vs[k] == front[k];
        }
      }
    }
  }

  /** Over debounced cursors, the centres of one class are at least `skip` apart. */
  lemma {:induction false} CentersSpaced(cfg: ScanConfig, conf: Confidence, c: ActionClass, vs: seq<int>)
    requires Debounced(cfg, conf, vs)
    ensures Spaced(Centers(cfg, conf, c, vs), cfg.skip)
  {
    if vs != [] {
      var front, v := vs[..|vs| - 1], vs[|vs| - 1];
      assert Debounced(cfg, conf, front) by {
        forall a, b | 0 <= a < b < |front|
          ensures front[a] + Step(cfg, conf, front[a]) <= front[b]
        {
          assert front[a] == vs[a] && front[b] == vs[b];
        }
      }
      CentersSpaced(cfg, conf, c, front);
      CentersMembers(cfg, conf, c, front);
      var s, s' := Centers(cfg, conf, c, vs), Centers(cfg, conf, c, front);
      if Hit(cfg, conf, v, c) {
        assert s == s' + [Center(cfg, v)];
        forall a, b | 0 <= a < b < |s|
          ensures s[a] + cfg.skip <= s[b]
        {
          if b == |s| - 1 {
            assert s[a] == s'[a] && s[a] in s';
            var k :| 0 <= k < |front| && Hit(cfg, conf, front[k], c) && s[a] == Center(cfg, front[k]);
            HitIsAnyHit(cfg, conf, front[k], c);
            assert vs[k] == front[k] && k < |vs| - 1;
            assert vs[k] + Step(cfg, conf, vs[k]) <= v;
          } else {
            assert s[a] == s'[a] && s[b] == s'[b];
          }
        }
      } else {
        assert s == s' + [];
        assert s == s';
      }
    }
  }

  /**
   * Every centre the scan records for class c is the centre of a scanned window
   * [i, i + window) with 0 <= i < n - window on which c hit; every scanned window
   * on which c hit is recorded; and the centres are at least `skip` apart.
   */
  lemma ScanCentersSound(n: int, cfg: ScanConfig, conf: Confidence, c: ActionClass)
    requires cfg.skip >= 1
    ensures var s := ClassCenters(n, cfg, conf, c);
      && (forall k :: 0 <= k < |s| ==>
            var i := s[k] - cfg.window / 2;
            0 <= i < n - cfg.window && i in Cursors(n, cfg, conf, 0) && Hit(cfg, conf, i, c))
      && (forall i :: i in Cursors(n, cfg, conf, 0) && Hit(cfg, conf, i, c) ==> Center(cfg, i) in s)
      && Spaced(s, cfg.skip)
  {
    ScanCentersRecorded(n, cfg, conf, c);
    CursorsShape(n, cfg, conf, 0);
    CentersMembers(cfg, conf, c, Cursors(n, cfg, conf, 0));
    CentersSpaced(cfg, conf, c, Cursors(n, cfg, conf, 0));
  }

  /** The first part of ScanCentersSound: each recorded centre comes from a scanned hit. */
  lemma ScanCentersRecorded(n: int, cfg: ScanConfig, conf: Confidence, c: ActionClass)
    requires cfg.skip >= 1
    ensures var s := ClassCenters(n, cfg, conf, c);
      forall k :: 0 <= k < |s| ==>
        var i := s[k] - cfg.window / 2;
        0 <= i < n - cfg.window && i in Cursors(n, cfg, conf, 0) && Hit(cfg, conf, i, c)
  {
    var vs := Cursors(n, cfg, conf, 0);
    CursorsShape(n, cfg, conf, 0);
    var s := ClassCenters(n, cfg, conf, c);
    assert s == Centers(cfg, conf, c, vs);
    forall k | 0 <= k < |s|
      ensures var i := s[k] - cfg.window / 2;
              0 <= i < n - cfg.window && i in vs && Hit(cfg, conf, i, c)
    {
      var j := CenterSource(cfg, conf, c, vs, s[k]);
      assert vs[j] in vs;
    }
  }

  /** The index of the cursor that recorded centre x. */
  lemma {:induction false} CenterSource(cfg: ScanConfig, conf: Confidence, c: ActionClass, vs: seq<int>, x: int)
    returns (j: nat)
    requires x in Centers(cfg, conf, c, vs)
    ensures j < |vs| && Hit(cfg, conf, vs[j], c) && x == Center(cfg, vs[j])
  {
    var front := vs[..|vs| - 1];
    if x in Centers(cfg, conf, c, front) {
      j := CenterSource(cfg, conf, c, front, x);
      assert vs[j] == front[j];
    } else {
      j := |vs| - 1;
    }
  }

  /** With no more frames than one window, nothing is scanned and every list stays empty. */
  lemma ShortInputScansNothing(n: int, cfg: ScanConfig, conf: Confidence, c: ActionClass)
    requires cfg.skip >= 1 && n <= cfg.window
    ensures Cursors(n, cfg, conf, 0) == [] && ClassCenters(n, cfg, conf, c) == []
  {
  }

  /**
   * The loop bound is strict, so the last full window [n - window, n) is never
   * examined: no cursor reaches n - window.
   */
  lemma LastWindowNeverScanned(n: int, cfg: ScanConfig, conf: Confidence)
    requires cfg.skip >= 1
    ensures n - cfg.window !in Cursors(n, cfg, conf, 0)
    ensures forall c :: Center(cfg, n - cfg.window) !in ClassCenters(n, cfg, conf, c)
  {
    CursorsShape(n, cfg, conf, 0);
    forall c
      ensures Center(cfg, n - cfg.window) !in ClassCenters(n, cfg, conf, c)
    {
      ScanCentersSound(n, cfg, conf, c);
    }
  }

  /**
   * 100 frames, windows of 10, threshold 0.5, skip 30, and a class that is
   * confident (0.9) on every window: hits at cursors 0, 30 and 60, that is
   * centres 5, 35 and 65, and the scan stops at cursor 90.
   */
  lemma ScanScenario()
    ensures var cfg := ScanConfig(10, 0.5, 30);
            var conf: Confidence := (i, c) => if c == Spike then 0.9 else 0.1;
            Cursors(100, cfg, conf, 0) == [0, 30, 60]
            && ClassCenters(100, cfg, conf, Spike) == [5, 35, 65]
            && ClassCenters(100, cfg, conf, Block) == []
  {
    var cfg := ScanConfig(10, 0.5, 30);
    var conf: Confidence := (i, c) => if c == Spike then 0.9 else 0.1;
    forall i | true
      ensures Step(cfg, conf, i) == 30
    {
      HitIsAnyHit(cfg, conf, i, Spike);
    }
    assert Cursors(100, cfg, conf, 90) == [];
    assert Cursors(100, cfg, conf, 60) == [60];
    assert Cursors(100, cfg, conf, 30) == [30, 60];
    assert Cursors(100, cfg, conf, 0) == [0, 30, 60];
    var vs := [0, 30, 60];
    assert vs[..2] == [0, 30] && [0, 30][..1] == [0] && [0][..0] == [];
  }

  /** In the same scenario, every class other than the confident one records no centre. */
  lemma ScanScenarioOthers()
    ensures var cfg := ScanConfig(10, 0.5, 30);
            var conf: Confidence := (i, c) => if c == Spike then 0.9 else 0.1;
            forall c :: c != Spike ==> ClassCenters(100, cfg, conf, c) == []
  {
    ScanScenario();
    var vs := [0, 30, 60];
    assert vs[..2] == [0, 30] && [0, 30][..1] == [0] && [0][..0] == [];
  }
}
