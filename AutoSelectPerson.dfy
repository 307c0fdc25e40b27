/**
 * auto_select_person_by_ball.py: among the boxes found in one frame, take
 * the most confident ball and select the person whose box centre is
 * closest to the centre of that ball.
 *
 * Distances are compared squared, on integers: the centres are integers,
 * so the order of the squared distances is the order of the distances.
 */
module AutoSelectPerson {
  import opened Results

  /** One detection: integer corners (x1, y1)-(x2, y2), class label and confidence. */
  datatype Box = Box(x1: int, y1: int, x2: int, y2: int, className: string, conf: real)

  datatype Point = Point(x: int, y: int)

  /** The person and the ball the script marks. */
  datatype Selection = Selection(person: Box, ball: Box)

  /** pat occurs in s at position i. */
  predicate OccursAt(pat: string, s: string, i: int)
  {
    0 <= i <= |s| - |pat| && s[i..i + |pat|] == pat
  }

  /** `pat in s` on strings: pat occurs in s as a contiguous substring. */
  ghost predicate Occurs(pat: string, s: string)
  {
    exists i :: OccursAt(pat, s, i)
  }

  /** The substring test, searching from the left. */
  function Contains(s: string, pat: string): (r: bool)
    ensures r <==> Occurs(pat, s)
    decreases |s|
  {
    if pat <= s then
      assert OccursAt(pat, s, 0);
      true
    else if |s| <= |pat| then
      assert !Occurs(pat, s) by {
        forall i | 0 <= i <= |s| - |pat|
          ensures !OccursAt(pat, s, i)
        {
          assert s[0..|s|] == s;
        }
      }
      false
    else
      var r := Contains(s[1..], pat);
      assert Occurs(pat, s) ==> Occurs(pat, s[1..]) by {
        if Occurs(pat, s) {
          var i :| OccursAt(pat, s, i);
          assert s[0..|pat|] != pat;
          assert s[1..][i - 1..i - 1 + |pat|] == pat;
          assert OccursAt(pat, s[1..], i - 1);
        }
      }
      assert Occurs(pat, s[1..]) ==> Occurs(pat, s) by {
        if Occurs(pat, s[1..]) {
          var i :| OccursAt(pat, s[1..], i);
          assert s[1..][i..i + |pat|] == s[i + 1..i + 1 + |pat|];
          assert s[i + 1..i + 1 + |pat|] == pat;
          assert OccursAt(pat, s, i + 1);
        }
      }
      r
  }

  predicate IsPerson(b: Box)
  {
    b.className == "person"
  }

  /** The elif branch: not a person, and "ball" occurs in the label. */
  predicate IsBall(b: Box)
  {
    !IsPerson(b) && Contains(b.className, "ball")
  }

  /** The boxes of `boxes` that satisfy IsPerson, in detection order. */
  function People(boxes: seq<Box>): seq<Box>
  {
    if boxes == [] then []
    else People(boxes[..|boxes| - 1]) + if IsPerson(boxes[|boxes| - 1]) then [boxes[|boxes| - 1]] else []
  }

  /** The boxes of `boxes` that satisfy IsBall, in detection order. */
  function Balls(boxes: seq<Box>): seq<Box>
  {
    if boxes == [] then []
    else Balls(boxes[..|boxes| - 1]) + if IsBall(boxes[|boxes| - 1]) then [boxes[|boxes| - 1]] else []
  }

  /** Lines 25-37: sort each box into `people` or `balls` by its label; other boxes are dropped. */
  method Partition(boxes: seq<Box>) returns (people: seq<Box>, balls: seq<Box>)
    ensures people == People(boxes) && balls == Balls(boxes)
  {
    people, balls := [], [];
    for j := 0 to |boxes|
      invariant people == People(boxes[..j]) && balls == Balls(boxes[..j])
    {
      assert boxes[..j + 1][..j] == boxes[..j];
      var box := boxes[j];
      if box.className == "person" {
        people := people + [box];
      } else if Contains(box.className, "ball") {
        balls := balls + [box];
      }
    }
    assert boxes[..|boxes|] == boxes;
  }

  /**
   * Every person and every ball comes from the input, people are exactly
   * the "person" boxes and balls exactly the other boxes whose label
   * contains "ball"; no box is both.
   */
  lemma {:induction false} PartitionMembers(boxes: seq<Box>)
    ensures forall b :: b in People(boxes) <==> b in boxes && IsPerson(b)
    ensures forall b :: b in Balls(boxes) <==> b in boxes && IsBall(b)
    ensures forall b :: !(b in People(boxes) && b in Balls(boxes))
    ensures |People(boxes)| + |Balls(boxes)| <= |boxes|
  {
    if boxes != [] {
      var front := boxes[..|boxes| - 1];
      PartitionMembers(front);
      assert boxes == front + [boxes[|boxes| - 1]];
    }
  }

  /**
   * Python's max(balls, key=conf): the index of the most confident ball,
   * the earliest one when several share the highest confidence.
   */
  function BestBall(balls: seq<Box>): (j: nat)
    requires balls != []
    ensures j < |balls|
    ensures forall k :: 0 <= k < |balls| ==> balls[k].conf <= balls[j].conf
    ensures forall k :: 0 <= k < j ==> balls[k].conf < balls[j].conf
  {
    if |balls| == 1 then 0
    else
      var j := BestBall(balls[..|balls| - 1]);
      assert forall k :: 0 <= k < |balls| - 1 ==> balls[..|balls| - 1][k] == balls[k];
      if balls[|balls| - 1].conf > balls[j].conf then |balls| - 1 else j
  }

  /** The centre of a box, by floor division as `//` does. */
  function Center(b: Box): (c: Point)
    ensures 2 * c.x <= b.x1 + b.x2 < 2 * c.x + 2
    ensures 2 * c.y <= b.y1 + b.y2 < 2 * c.y + 2
  {
    Point((b.x1 + b.x2) / 2, (b.y1 + b.y2) / 2)
  }

  /** Squared Euclidean distance. */
  function SqDist(p: Point, q: Point): (d: nat)
    ensures d == 0 <==> p == q
  {
    var dx, dy := p.x - q.x, p.y - q.y;
    assert dx * dx >= 0 && dy * dy >= 0;
    assert dx * dx == 0 <==> dx == 0;
    assert dy * dy == 0 <==> dy == 0;
    dx * dx + dy * dy
  }

  /** Distance of people[k] from the ball centre. */
  function Dist(people: seq<Box>, k: nat, ball: Point): nat
    requires k < |people|
  {
    SqDist(Center(people[k]), ball)
  }

  /** people[c] is a nearest person to the ball, and the first of the nearest ones. */
  predicate FirstNearest(people: seq<Box>, c: nat, ball: Point)
  {
    && c < |people|
    && (forall k :: 0 <= k < |people| ==> Dist(people, c, ball) <= Dist(people, k, ball))
    && (forall k :: 0 <= k < c ==> Dist(people, c, ball) < Dist(people, k, ball))
  }

  /**
   * Lines 51-61: keep the person whose centre is strictly closer than every
   * earlier one. The result is the index of a nearest person, the first of
   * the nearest ones, and there is one whenever `people` is not empty.
   */
  method Closest(people: seq<Box>, ball: Point) returns (closest: Option<nat>)
    ensures closest.None? <==> people == []
    ensures closest.Some? ==> FirstNearest(people, closest.value, ball)
  {
    closest := None;
    var minDist: Option<nat> := None;  // None stands for float("inf")
    for j := 0 to |people|
      invariant closest.None? <==> j == 0
      invariant minDist.None? <==> j == 0
      invariant closest.Some? ==> closest.value < j && minDist == Some(Dist(people, closest.value, ball))
      invariant closest.Some? ==> forall k :: 0 <= k < j ==>
        Dist(people, closest.value, ball) <= Dist(people, k, ball)
      invariant closest.Some? ==> forall k :: 0 <= k < closest.value ==>
        Dist(people, closest.value, ball) < Dist(people, k, ball)
    {
      var dist := SqDist(Center(people[j]), ball);
      if minDist.None? || dist < minDist.value {
        minDist := Some(dist);
        closest := Some(j);
      }
    }
  }

  /**
   * The whole selection: None when there is no person or no ball (the
   * script exits), otherwise the most confident ball and the nearest
   * person to its centre.
   */
  method Select(boxes: seq<Box>) returns (r: Option<Selection>)
    ensures r.None? <==> People(boxes) == [] || Balls(boxes) == []
    ensures r.Some? ==>
      && r.value.ball == Balls(boxes)[BestBall(Balls(boxes))]
      && r.value.person in People(boxes)
      && (forall p :: p in People(boxes) ==>
           SqDist(Center(r.value.person), Center(r.value.ball)) <= SqDist(Center(p), Center(r.value.ball)))
      && exists k: nat :: FirstNearest(People(boxes), k, Center(r.value.ball)) && r.value.person == People(boxes)[k]
  {
    var people, balls := Partition(boxes);
    if people == [] || balls == [] {
      return None;
    }
    var ball := balls[BestBall(balls)];
    var closest := Closest(people, Center(ball));
    var k := closest.value;
    forall p | p in people
      ensures SqDist(Center(people[k]), Center(ball)) <= SqDist(Center(p), Center(ball))
    {
      var i :| 0 <= i < |people| && people[i] == p;
      assert Dist(people, k, Center(ball)) <= Dist(people, i, Center(ball));
    }
    assert FirstNearest(people, k, Center(ball));
    r := Some(Selection(people[k], ball));
  }

  /** The nearest person is unique up to ties: any two answers of the loop's contract coincide. */
  lemma ClosestUnique(people: seq<Box>, ball: Point, a: nat, b: nat)
    requires FirstNearest(people, a, ball) && FirstNearest(people, b, ball)
    ensures a == b
  {
    assert Dist(people, a, ball) <= Dist(people, b, ball);
    assert Dist(people, b, ball) <= Dist(people, a, ball);
  }
}
