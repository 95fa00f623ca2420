/**
 * The pointer trail of the custom cursor: the distance gate that decides
 * whether a frame records a new point, the age-and-cull pass every frame
 * runs over the trail, and the whole per-frame trail update, with the
 * invariant it keeps (ages in 1..39, strictly decreasing from the oldest
 * point at the front to the newest at the back, at most 39 points).
 */
module Trail {

  /** A trail point is dropped in the frame its age reaches this value. */
  const MaxAge: int := 40

  /** A frame records a point only when the pointer moved farther than this, in pixels. */
  const MinDistance: int := 2

  /** A sampled pointer position (client pixels). */
  datatype Point = Point(x: int, y: int)

  /** One recorded trail sample; `age` counts the frames it has lived through. */
  datatype TrailPoint = TrailPoint(x: int, y: int, age: int)

  // ---------------------------------------------------------------------------
  // Distance gate
  // ---------------------------------------------------------------------------

  /** Square of the Euclidean distance between two positions. */
  function SquaredDistance(a: Point, b: Point): (d: int)
    ensures d >= 0
    ensures d == 0 <==> a == b
  {
    var dx, dy := a.x - b.x, a.y - b.y;
    SquareNonNegative(dx);
    SquareNonNegative(dy);
    dx * dx + dy * dy
  }

  lemma SquareNonNegative(n: int)
    ensures n * n >= 0
    ensures n * n == 0 <==> n == 0
  {
  }

  /**
   * The gate of the frame step, on squared distances so that it stays in
   * integers: the pointer moved more than MinDistance since the last sample.
   */
  predicate Moved(cur: Point, prev: Point)
  {
    SquaredDistance(cur, prev) > MinDistance * MinDistance
  }

  /**
   * The squared test agrees with the source's `sqrt(dx*dx + dy*dy) > 2`:
   * for the non-negative square root `dist` of the squared distance,
   * Moved holds exactly when `dist` exceeds MinDistance.
   */
  lemma MovedIffFartherThanMinDistance(cur: Point, prev: Point, dist: real)
    requires dist >= 0.0 && dist * dist == SquaredDistance(cur, prev) as real
    ensures Moved(cur, prev) <==> dist > MinDistance as real
  {
    var m := MinDistance as real;
    if dist > m {
      assert dist * dist > m * dist by {
        assert dist * dist - m * dist == (dist - m) * dist;
      }
      assert m * dist > m * m;
    } else {
      assert dist * dist <= m * dist by {
        assert m * dist - dist * dist == (m - dist) * dist;
      }
      assert m * dist <= m * m;
    }
  }

  // ---------------------------------------------------------------------------
  // Age and cull
  // ---------------------------------------------------------------------------

  /** A point one frame older, at the same place. */
  function Older(p: TrailPoint): TrailPoint
  {
    p.(age := p.age + 1)
  }

  /** The `map` half of the pass: every point one frame older, in the same order. */
  function Aged(s: seq<TrailPoint>): (r: seq<TrailPoint>)
    ensures |r| == |s|
    ensures forall i :: 0 <= i < |s| ==> r[i].x == s[i].x && r[i].y == s[i].y && r[i].age == s[i].age + 1
  {
    seq(|s|, i requires 0 <= i < |s| => Older(s[i]))
  }

  /** The `filter` half of the pass: keep, in order, the points younger than MaxAge. */
  function Cull(s: seq<TrailPoint>): (r: seq<TrailPoint>)
    ensures |r| <= |s|
  {
    if s == [] then []
    else if s[0].age < MaxAge then [s[0]] + Cull(s[1..])
    else Cull(s[1..])
  }

  /** Culling keeps exactly the points younger than MaxAge. */
  lemma {:induction false} CullMembers(s: seq<TrailPoint>)
    ensures forall p :: p in Cull(s) <==> p in s && p.age < MaxAge
  {
    if s != [] {
      CullMembers(s[1..]);
      assert s == [s[0]] + s[1..];
    }
  }

  /** The pass every frame runs over the trail: age every point, then drop the expired ones. */
  function AgeAndCull(s: seq<TrailPoint>): (r: seq<TrailPoint>)
    ensures |r| <= |s|
  {
    Cull(Aged(s))
  }

  /**
   * What survives the pass is an aged copy of a point of the trail, with
   * the same coordinates, younger than MaxAge; and every point of the trail
   * whose aged copy is younger than MaxAge survives.
   */
  lemma AgeAndCullMembers(s: seq<TrailPoint>)
    ensures forall p :: p in AgeAndCull(s) ==> p.age < MaxAge && p.(age := p.age - 1) in s
    ensures forall q :: q in s && q.age + 1 < MaxAge ==> Older(q) in AgeAndCull(s)
  {
    CullMembers(Aged(s));
    forall p | p in Aged(s) ensures p.(age := p.age - 1) in s {
      var i :| 0 <= i < |s| && Aged(s)[i] == p;
      assert s[i] == p.(age := p.age - 1);
    }
    forall q | q in s ensures Older(q) in Aged(s) {
      var i :| 0 <= i < |s| && s[i] == q;
      assert Aged(s)[i] == Older(q);
    }
  }

  /** Aging distributes over concatenation. */
  lemma AgedAppend(a: seq<TrailPoint>, b: seq<TrailPoint>)
    ensures Aged(a + b) == Aged(a) + Aged(b)
  {
  }

  /** Culling distributes over concatenation: it keeps the relative order of what survives. */
  lemma {:induction false} CullAppend(a: seq<TrailPoint>, b: seq<TrailPoint>)
    ensures Cull(a + b) == Cull(a) + Cull(b)
  {
    if a == [] {
      assert a + b == b;
    } else {
      assert (a + b)[0] == a[0];
      assert (a + b)[1..] == a[1..] + b;
      CullAppend(a[1..], b);
    }
  }

  /** Culling a trail in which every point is younger than MaxAge leaves it as it is. */
  lemma {:induction false} CullKeepsYoung(s: seq<TrailPoint>)
    requires forall i :: 0 <= i < |s| ==> s[i].age < MaxAge
    ensures Cull(s) == s
  {
    if s != [] {
      CullKeepsYoung(s[1..]);
      assert s == [s[0]] + s[1..];
    }
  }

  // ---------------------------------------------------------------------------
  // The trail invariant
  // ---------------------------------------------------------------------------

  /** Older points come first: ages strictly decrease from front to back. */
  ghost predicate OldestFirst(s: seq<TrailPoint>)
  {
    forall i, j :: 0 <= i < j < |s| ==> s[i].age > s[j].age
  }

  /** The state of the trail between frames: ages in 1..MaxAge-1, oldest first. */
  ghost predicate WellFormed(s: seq<TrailPoint>)
  {
    OldestFirst(s) && forall i :: 0 <= i < |s| ==> 1 <= s[i].age < MaxAge
  }

  /** A trail whose ages strictly decrease within lo..hi holds at most hi - lo + 1 points. */
  lemma {:induction false} OldestFirstLength(s: seq<TrailPoint>, lo: int, hi: int)
    requires OldestFirst(s)
    requires forall i :: 0 <= i < |s| ==> lo <= s[i].age <= hi
    ensures |s| == 0 || |s| <= hi - lo + 1
  {
    if |s| > 1 {
      var t := s[1..];
      assert forall i :: 0 <= i < |t| ==> lo <= t[i].age <= s[0].age - 1 by {
        forall i | 0 <= i < |t| ensures lo <= t[i].age <= s[0].age - 1 {
          assert t[i] == s[i + 1];
        }
      }
      OldestFirstLength(t, lo, s[0].age - 1);
    }
  }

  /** Length bound of the trail: it never holds more than MaxAge - 1 points. */
  lemma WellFormedLength(s: seq<TrailPoint>)
    requires WellFormed(s)
    ensures |s| <= MaxAge - 1
  {
    OldestFirstLength(s, 1, MaxAge - 1);
  }

  /**
   * On a well-formed trail the age-and-cull pass drops at most the oldest
   * point (the only one that can reach MaxAge) and ages the rest in place:
   * coordinates and order of the survivors are untouched.
   */
  lemma {:induction false} AgeAndCullDropsOldest(s: seq<TrailPoint>)
    requires WellFormed(s)
    ensures AgeAndCull(s) == if |s| > 0 && s[0].age == MaxAge - 1 then Aged(s[1..]) else Aged(s)
  {
    if |s| > 0 && s[0].age == MaxAge - 1 {
      assert s == [s[0]] + s[1..];
      AgedAppend([s[0]], s[1..]);
      CullAppend(Aged([s[0]]), Aged(s[1..]));
      assert Cull(Aged([s[0]])) == [];
      forall i | 0 <= i < |s[1..]| ensures Aged(s[1..])[i].age < MaxAge {
        assert s[1..][i] == s[i + 1];
      }
      CullKeepsYoung(Aged(s[1..]));
    } else {
      forall i | 0 <= i < |s| ensures Aged(s)[i].age < MaxAge {
        if i > 0 {
          assert s[i].age < s[0].age;
        }
      }
      CullKeepsYoung(Aged(s));
    }
  }

  // ---------------------------------------------------------------------------
  // The per-frame trail update
  // ---------------------------------------------------------------------------

  /** What a frame pushes before the pass: one new point of age 0 when the pointer is visible and moved. */
  function Appended(cur: Point, prev: Point, visible: bool): seq<TrailPoint>
  {
    if visible && Moved(cur, prev) then [TrailPoint(cur.x, cur.y, 0)] else []
  }

  /** The trail after one completed frame sampling `cur` with previous sample `prev`. */
  function StepTrail(t: seq<TrailPoint>, cur: Point, prev: Point, visible: bool): seq<TrailPoint>
  {
    AgeAndCull(t + Appended(cur, prev, visible))
  }

  /**
   * A frame is the age-and-cull pass over the old trail, followed by exactly
   * one new point (at the sampled position, age 1 once the frame has aged it)
   * when the pointer is visible and moved, and by nothing otherwise; in
   * particular a hidden pointer or one that did not move appends nothing, and
   * a frame adds at most one point.
   */
  lemma StepTrailSplits(t: seq<TrailPoint>, cur: Point, prev: Point, visible: bool)
    ensures StepTrail(t, cur, prev, visible)
         == AgeAndCull(t) + (if visible && Moved(cur, prev) then [TrailPoint(cur.x, cur.y, 1)] else [])
    ensures |StepTrail(t, cur, prev, visible)| <= |t| + 1
  {
    var n := Appended(cur, prev, visible);
    AgedAppend(t, n);
    CullAppend(Aged(t), Aged(n));
  }

  /**
   * The points a frame keeps from a well-formed trail (all but an oldest
   * point of age MaxAge - 1) are still oldest first, with ages in 1..MaxAge-2.
   */
  lemma KeptAreYounger(t: seq<TrailPoint>)
    requires WellFormed(t)
    ensures var kept := if |t| > 0 && t[0].age == MaxAge - 1 then t[1..] else t;
      OldestFirst(kept) && forall i :: 0 <= i < |kept| ==> 1 <= kept[i].age < MaxAge - 1
  {
  }

  /**
   * Aging an oldest-first trail with ages in 1..MaxAge-2, then pushing at
   * most one point of age 1, gives a well-formed trail.
   */
  lemma AgedPushWellFormed(kept: seq<TrailPoint>, pushed: seq<TrailPoint>)
    requires OldestFirst(kept) && forall i :: 0 <= i < |kept| ==> 1 <= kept[i].age < MaxAge - 1
    requires |pushed| <= 1 && forall i :: 0 <= i < |pushed| ==> pushed[i].age == 1
    ensures WellFormed(Aged(kept) + pushed)
  {
  }

  /** Every completed frame preserves the trail invariant. */
  lemma StepPreservesWellFormed(t: seq<TrailPoint>, cur: Point, prev: Point, visible: bool)
    requires WellFormed(t)
    ensures WellFormed(StepTrail(t, cur, prev, visible))
  {
    StepTrailSplits(t, cur, prev, visible);
    AgeAndCullDropsOldest(t);
    KeptAreYounger(t);
    var kept := if |t| > 0 && t[0].age == MaxAge - 1 then t[1..] else t;
    AgedPushWellFormed(kept, if visible && Moved(cur, prev) then [TrailPoint(cur.x, cur.y, 1)] else []);
  }

  /**
   * On a well-formed trail, a frame leaves a point of age 1 exactly when the
   * pointer is visible and moved; that point is then the newest one and sits
   * at the sampled position. While hidden, no point is ever appended.
   */
  lemma StepAppendsIffVisibleAndMoved(t: seq<TrailPoint>, cur: Point, prev: Point, visible: bool)
    requires WellFormed(t)
    ensures var r := StepTrail(t, cur, prev, visible);
      (exists i :: 0 <= i < |r| && r[i].age == 1) <==> visible && Moved(cur, prev)
    ensures var r := StepTrail(t, cur, prev, visible);
      visible && Moved(cur, prev) ==> |r| > 0 && r[|r| - 1] == TrailPoint(cur.x, cur.y, 1)
  {
    StepTrailSplits(t, cur, prev, visible);
    var r := StepTrail(t, cur, prev, visible);
    var aged := AgeAndCull(t);
    AgeAndCullMembers(t);
    forall i | 0 <= i < |aged| ensures aged[i].age >= 2 {
      assert aged[i] in aged;
    }
    if !(visible && Moved(cur, prev)) {
      assert r == aged;
    } else {
      assert r[|r| - 1].age == 1;
    }
  }
}
