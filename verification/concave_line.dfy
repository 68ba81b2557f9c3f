/** Broken lines of decreasing slope, as the least concave functions above their corners. */
module ConcaveLine {

  datatype Segment = Segment(slope: real, width: real)

  ghost function Times(a: real, x: real): real {
    a * x
  }

  ghost function End(segments: seq<Segment>): real {
    if segments == [] then 0.0 else segments[0].width + End(segments[1..])
  }

  ghost function Rise(s: Segment): real {
    Times(s.slope, s.width)
  }

  /** The height of the broken line at `x`. */
  ghost function At(segments: seq<Segment>, x: real): real {
    if segments == [] then 0.0
    else if x <= segments[0].width then Times(segments[0].slope, x)
    else Rise(segments[0]) + At(segments[1..], x - segments[0].width)
  }

  ghost predicate Falling(segments: seq<Segment>) {
    && (forall k | 0 <= k < |segments| :: segments[k].width > 0.0)
    && (forall k | 0 < k < |segments| :: segments[k].slope < segments[k - 1].slope)
  }

  /** `f` at `y` is on or above the chord from `x` to `z`. */
  ghost predicate AboveChord(f: real -> real, x: real, y: real, z: real) {
    Times(f(x), z - y) + Times(f(z), y - x) <= Times(f(y), z - x)
  }

  ghost predicate Concave(f: real -> real, end: real) {
    forall x, y, z | 0.0 <= x <= y <= z <= end :: AboveChord(f, x, y, z)
  }

  /** `f` with the point at distance `g` and height `v` as its origin. */
  ghost function From(f: real -> real, g: real, v: real): real -> real {
    (x: real) => f(x + g) - v
  }

  /** `f` is on or above every corner of the line. */
  ghost predicate AboveCorners(f: real -> real, segments: seq<Segment>) {
    f(0.0) >= 0.0 && (segments != [] ==> AboveCorners(From(f, segments[0].width, Rise(segments[0])), segments[1..]))
  }

  ghost function Line(segments: seq<Segment>): real -> real {
    (x: real) => At(segments, x)
  }

  lemma AtPastFirst(segments: seq<Segment>, x: real)
    requires segments != [] && x > 0.0
    ensures At(segments, segments[0].width + x) == Rise(segments[0]) + At(segments[1..], x)
  {
    assert segments[0].width + x - segments[0].width == x;
  }

  lemma FallingTail(segments: seq<Segment>)
    requires Falling(segments) && segments != []
    ensures Falling(segments[1..])
    ensures |segments| > 1 ==> segments[1..][0].slope < segments[0].slope
  {
    assert forall k | 0 < k < |segments[1..]| :: segments[1..][k] == segments[k + 1] && segments[1..][k - 1] == segments[k];
  }

  lemma {:induction false} EndPositive(segments: seq<Segment>)
    requires Falling(segments)
    ensures End(segments) >= 0.0
  {
    if segments == [] {
    } else {
      FallingTail(segments);
      EndPositive(segments[1..]);
    }
  }

  // ---- arithmetic ----

  lemma Scale(a: real, b: real, x: real)
    requires a <= b
    ensures x >= 0.0 ==> Times(a, x) <= Times(b, x)
    ensures x <= 0.0 ==> Times(b, x) <= Times(a, x)
  {
    assert Times(b, x) - Times(a, x) == (b - a) * x;
  }

  lemma Parts(a: real, x: real, y: real)
    ensures Times(a, x + y) == Times(a, x) + Times(a, y)
  {
  }

  lemma Gather(a: real, b: real, x: real)
    ensures Times(a + b, x) == Times(a, x) + Times(b, x)
  {
  }

  lemma Turn(a: real, b: real, x: real)
    ensures Times(Times(a, b), x) == Times(Times(a, x), b)
  {
  }

  lemma Sign(a: real, x: real)
    requires x > 0.0
    ensures a < 0.0 ==> Times(a, x) < 0.0
    ensures a >= 0.0 ==> Times(a, x) >= 0.0
  {
  }

  // ---- concavity ----

  /** A straight line of height `b` at the origin, on or above the broken one at `x`. */
  ghost predicate Over(segments: seq<Segment>, s: real, b: real, x: real) {
    At(segments, x) <= Times(s, x) + b
  }

  /** A line over the later segments, moved back over the first. */
  lemma OverMoved(segments: seq<Segment>, s: real, b: real, d: real)
    requires segments != [] && s <= segments[0].slope && b >= 0.0
    requires d > 0.0 ==> Over(segments[1..], s, b, d)
    ensures Over(segments, s, b + Rise(segments[0]) - Times(s, segments[0].width), segments[0].width + d)
  {
    var p, g := segments[0].slope, segments[0].width;
    Parts(s, g, d);
    if d > 0.0 {
      AtPastFirst(segments, d);
    } else {
      Parts(p, g, d);
      Scale(s, p, d);
    }
  }

  lemma {:induction false} OverFirst(segments: seq<Segment>, x: real)
    requires Falling(segments) && segments != [] && 0.0 <= x <= End(segments)
    ensures Over(segments, segments[0].slope, 0.0, x)
  {
    var p, g := segments[0].slope, segments[0].width;
    if x <= g {
    } else {
      FallingTail(segments);
      var d := x - g;
      assert g + d == x;
      OverFirst(segments[1..], d);
      Scale(segments[1..][0].slope, p, d);
      AtPastFirst(segments, d);
      Parts(p, g, d);
    }
  }

  ghost predicate Tangent(segments: seq<Segment>, s: real, b: real, y: real) {
    && At(segments, y) == Times(s, y) + b
    && forall x | 0.0 <= x <= End(segments) :: Over(segments, s, b, x)
  }

  lemma {:induction false} HasTangent(segments: seq<Segment>, y: real) returns (s: real, b: real)
    requires Falling(segments) && segments != [] && 0.0 <= y <= End(segments)
    ensures Tangent(segments, s, b, y) && s <= segments[0].slope && b >= 0.0
  {
    var p, g := segments[0].slope, segments[0].width;
    if y <= g {
      s, b := p, 0.0;
      forall x | 0.0 <= x <= End(segments)
        ensures Over(segments, s, b, x)
      {
        OverFirst(segments, x);
      }
    } else {
      FallingTail(segments);
      assert g + (y - g) == y;
      var s', b' := HasTangent(segments[1..], y - g);
      s, b := TangentMoved(segments, s', b', y - g);
    }
  }

  lemma TangentMoved(segments: seq<Segment>, s: real, b: real, d: real) returns (t: real, c: real)
    requires Falling(segments) && segments != [] && d > 0.0
    requires Tangent(segments[1..], s, b, d) && s <= segments[0].slope && b >= 0.0
    ensures Tangent(segments, t, c, segments[0].width + d) && t <= segments[0].slope && c >= 0.0
  {
    var p, g := segments[0].slope, segments[0].width;
    t, c := s, b + Rise(segments[0]) - Times(s, g);
    Scale(s, p, g);
    Parts(s, g, d);
    AtPastFirst(segments, d);
    forall x | 0.0 <= x <= End(segments)
      ensures Over(segments, t, c, x)
    {
      assert g + (x - g) == x;
      OverMoved(segments, s, b, x - g);
    }
  }

  lemma OnTangent(s: real, b: real, x: real, y: real, z: real)
    ensures Times(Times(s, x) + b, z - y) + Times(Times(s, z) + b, y - x) == Times(Times(s, y) + b, z - x)
  {
  }

  /** A straight line that meets `f` at `y` and is nowhere below it. */
  ghost predicate Touches(f: real -> real, end: real, s: real, b: real, y: real) {
    f(y) == Times(s, y) + b && forall x | 0.0 <= x <= end :: f(x) <= Times(s, x) + b
  }

  lemma TouchedAboveChord(f: real -> real, end: real, s: real, b: real, x: real, y: real, z: real)
    requires 0.0 <= x <= y <= z <= end && Touches(f, end, s, b, y)
    ensures AboveChord(f, x, y, z)
  {
    Scale(f(x), Times(s, x) + b, z - y);
    Scale(f(z), Times(s, z) + b, y - x);
    OnTangent(s, b, x, y, z);
  }

  lemma LineTouched(segments: seq<Segment>, y: real) returns (s: real, b: real)
    requires Falling(segments) && 0.0 <= y <= End(segments)
    ensures Touches(Line(segments), End(segments), s, b, y)
  {
    s, b := 0.0, 0.0;
    if segments != [] {
      s, b := HasTangent(segments, y);
    }
    forall x | 0.0 <= x <= End(segments)
      ensures Line(segments)(x) <= Times(s, x) + b
    {
      assert segments != [] ==> Over(segments, s, b, x);
    }
  }

  lemma LineIsConcave(segments: seq<Segment>)
    requires Falling(segments)
    ensures Concave(Line(segments), End(segments))
  {
    forall x, y, z | 0.0 <= x <= y <= z <= End(segments)
      ensures AboveChord(Line(segments), x, y, z)
    {
      var s, b := LineTouched(segments, y);
      TouchedAboveChord(Line(segments), End(segments), s, b, x, y, z);
    }
  }

  // ---- the least ----

  lemma Lowered(a: real, b: real, c: real, u: real, w: real, v: real)
    requires Times(a, u) + Times(c, w) <= Times(b, u + w)
    ensures Times(a - v, u) + Times(c - v, w) <= Times(b - v, u + w)
  {
    Gather(a - v, v, u);
    Gather(c - v, v, w);
    Gather(b - v, v, u + w);
    Parts(v, u, w);
    assert a - v + v == a && b - v + v == b && c - v + v == c;
  }

  lemma FromConcave(f: real -> real, end: real, g: real, v: real)
    requires Concave(f, end) && 0.0 <= g
    ensures Concave(From(f, g, v), end - g)
  {
    forall x, y, z | 0.0 <= x <= y <= z <= end - g
      ensures AboveChord(From(f, g, v), x, y, z)
    {
      assert AboveChord(f, x + g, y + g, z + g);
      assert (z + g) - (y + g) == z - y && (y + g) - (x + g) == y - x && (z + g) - (x + g) == z - x;
      assert (z - y) + (y - x) == z - x;
      Lowered(f(x + g), f(y + g), f(z + g), z - y, y - x, v);
    }
  }

  /** Above the ends of a chord through the origin, hence above the chord. */
  lemma OverChord(f: real -> real, g: real, s: real, x: real)
    requires 0.0 < g && 0.0 <= x <= g && f(0.0) >= 0.0 && f(g) >= Times(s, g) && AboveChord(f, 0.0, x, g)
    ensures Times(s, x) <= f(x)
  {
    var d := f(x) - Times(s, x);
    Scale(0.0, f(0.0), g - x);
    Scale(Times(s, g), f(g), x);
    Turn(s, g, x);
    Gather(d, Times(s, x), g);
    assert x - 0.0 == x && g - 0.0 == g && d + Times(s, x) == f(x);
    Sign(d, g);
  }

  lemma OverFirstSegment(f: real -> real, segments: seq<Segment>, x: real)
    requires Falling(segments) && segments != [] && AboveCorners(f, segments)
    requires Concave(f, End(segments)) && 0.0 <= x <= segments[0].width <= End(segments)
    ensures Times(segments[0].slope, x) <= f(x)
  {
    var s, g := segments[0].slope, segments[0].width;
    assert From(f, g, Rise(segments[0]))(0.0) == f(0.0 + g) - Rise(segments[0]);
    assert AboveChord(f, 0.0, x, g);
    OverChord(f, g, s, x);
  }

  lemma {:induction false} LineIsLeast(segments: seq<Segment>, f: real -> real, x: real)
    requires Falling(segments) && Concave(f, End(segments)) && AboveCorners(f, segments) && 0.0 <= x <= End(segments)
    ensures At(segments, x) <= f(x)
    decreases |segments|
  {
    if segments == [] {
    } else {
      var g := segments[0].width;
      FallingTail(segments);
      EndPositive(segments[1..]);
      if x <= g {
        OverFirstSegment(f, segments, x);
      } else {
        var h := From(f, g, Rise(segments[0]));
        FromConcave(f, End(segments), g, Rise(segments[0]));
        LineIsLeast(segments[1..], h, x - g);
        assert h(x - g) == f(x - g + g) - Rise(segments[0]);
      }
    }
  }
}
