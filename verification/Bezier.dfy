// The SVG path of a polyline (crates/crypto-core/src/nft_image.rs): every third point
// is kept and the kept points are joined by cubic curves. The formatting of the
// coordinates is not part of this model.
module Bezier {
  import opened Contour
  import opened Chains

  const STEP: nat := 3

  const TENSION: real := 5.0

  datatype Curve = Curve(c1: Pt, c2: Pt, to: Pt)

  // NoPath is the empty string.
  datatype Path = NoPath | Path(start: Pt, curves: seq<Curve>)

  // How many points strictly inside the polyline are kept.
  function InnerCount(n: nat): nat
    requires n >= 1
  {
    if n == 1 then 0 else (n - 2) / STEP
  }

  // The first point, every third one before the last, and the last.
  function Downsample(pts: seq<Pt>): (ds: seq<Pt>)
    requires pts != []
    ensures |ds| == InnerCount(|pts|) + 2
  {
    [pts[0]] + seq(InnerCount(|pts|), k requires 0 <= k < InnerCount(|pts|) => pts[STEP * (k + 1)]) + [Tail(pts)]
  }

  // p shifted by a fifth of the way from a to b.
  function Towards(p: Pt, a: Pt, b: Pt): Pt
  {
    Pt(p.x + (b.x - a.x) / TENSION, p.y + (b.y - a.y) / TENSION)
  }

  function Away(p: Pt, a: Pt, b: Pt): Pt
  {
    Pt(p.x - (b.x - a.x) / TENSION, p.y - (b.y - a.y) / TENSION)
  }

  // Neighbours beyond either end are replaced by the end itself.
  function Clamped(ds: seq<Pt>, i: int): Pt
    requires ds != []
  {
    if i < 0 then ds[0] else if i >= |ds| then Tail(ds) else ds[i]
  }

  function CurveAt(ds: seq<Pt>, i: nat): Curve
    requires i + 1 < |ds|
  {
    Curve(
      Towards(ds[i], Clamped(ds, i - 1), ds[i + 1]),
      Away(ds[i + 1], ds[i], Clamped(ds, i + 2)),
      ds[i + 1])
  }

  function PathOf(pts: seq<Pt>): Path
    requires pts != []
  {
    var ds := Downsample(pts);
    if |ds| < 3 then NoPath else Path(ds[0], seq(|ds| - 1, i requires 0 <= i < |ds| - 1 => CurveAt(ds, i)))
  }

  method SamplePoints(pts: seq<Pt>) returns (ds: seq<Pt>)
    requires pts != []
    ensures ds == Downsample(pts)
  {
    ds := [pts[0]];
    var i := STEP;
    while i < |pts| - 1
      invariant i == STEP * |ds| && |ds| <= InnerCount(|pts|) + 1
      invariant ds == Downsample(pts)[..|ds|]
    {
      ds := ds + [pts[i]];
      i := i + STEP;
    }
    ds := ds + [Tail(pts)];
  }

  method ToBezierPath(pts: seq<Pt>) returns (path: Path)
    requires pts != []
    ensures path == PathOf(pts)
  {
    var ds := SamplePoints(pts);
    if |ds| < 3 {
      return NoPath;
    }
    var n := |ds|;
    var curves := [];
    for i := 0 to n - 1
      invariant |curves| == i && forall k | 0 <= k < i :: curves[k] == CurveAt(ds, k)
    {
      var p0 := ds[if i > 0 then i - 1 else 0];
      var p1 := ds[i];
      var p2 := ds[if i + 1 <= n - 1 then i + 1 else n - 1];
      var p3 := ds[if i + 2 <= n - 1 then i + 2 else n - 1];
      var curve := Curve(
        Pt(p1.x + (p2.x - p0.x) / TENSION, p1.y + (p2.y - p0.y) / TENSION),
        Pt(p2.x - (p3.x - p1.x) / TENSION, p2.y - (p3.y - p1.y) / TENSION),
        p2);
      curves := curves + [curve];
    }
    path := Path(ds[0], curves);
  }

  // A path is drawn exactly for polylines of more than four points: the length the
  // chain builder asks for is neither too small nor too large.
  lemma DrawnIffKept(ch: seq<Pt>)
    requires ch != []
    ensures PathOf(ch).Path? <==> |ch| > 4
    ensures |ch| > 4 <==> |ch| > MIN_KEPT
  {
    assert (|ch| - 2) / STEP >= 1 <==> |ch| - 2 >= STEP;
  }

  predicate AllDrawn(chains: seq<seq<Pt>>)
  {
    forall c | 0 <= c < |chains| :: chains[c] != [] && PathOf(chains[c]).Path?
  }

  // No kept chain gives an empty path, and every chain that would give a path is kept.
  lemma KeptChainsAreTheDrawnOnes(traced: seq<seq<Pt>>)
    requires forall c | 0 <= c < |traced| :: traced[c] != []
    ensures AllDrawn(Kept(traced))
    ensures forall c | 0 <= c < |traced| :: traced[c] in Kept(traced) <==> PathOf(traced[c]).Path?
  {
    hide PathOf, Kept;
    var kept := Kept(traced);
    forall c | 0 <= c < |kept| ensures kept[c] != [] && PathOf(kept[c]).Path? {
      KeptAreLong(traced, kept[c]);
      DrawnIffKept(kept[c]);
    }
    forall c | 0 <= c < |traced| ensures traced[c] in kept <==> PathOf(traced[c]).Path? {
      DrawnIffKept(traced[c]);
      KeptAreLong(traced, traced[c]);
      if |traced[c]| > MIN_KEPT {
        KeptContains(traced, c);
      }
    }
  }

  lemma {:induction false} KeptAreLong(traced: seq<seq<Pt>>, ch: seq<Pt>)
    ensures ch in Kept(traced) ==> |ch| > MIN_KEPT
  {
    if traced == [] {
    } else {
      KeptAreLong(traced[..|traced| - 1], ch);
    }
  }

  lemma {:induction false} KeptContains(traced: seq<seq<Pt>>, c: nat)
    requires c < |traced| && |traced[c]| > MIN_KEPT
    ensures traced[c] in Kept(traced)
  {
    if c < |traced| - 1 {
      KeptContains(traced[..|traced| - 1], c);
    }
  }

  // The path starts and ends where the polyline does, and every curve ends on a point
  // of the polyline, three points after the curve before it.
  lemma PathFollowsPolyline(pts: seq<Pt>)
    requires |pts| > 4
    ensures PathOf(pts).Path? && PathOf(pts).start == pts[0]
    ensures var curves := PathOf(pts).curves;
            && |curves| == (|pts| - 2) / 3 + 1
            && curves[|curves| - 1].to == pts[|pts| - 1]
            && forall i | 0 <= i < |curves| - 1 :: 3 * (i + 1) < |pts| - 1 && curves[i].to == pts[3 * (i + 1)]
  {
    DrawnIffKept(pts);
    var ds := Downsample(pts);
    forall m | 1 <= m <= InnerCount(|pts|) ensures STEP * m < |pts| - 1 && ds[m] == pts[STEP * m] {
    }
  }

  // p is halfway between a and b.
  predicate Midpoint(p: Pt, a: Pt, b: Pt)
  {
    a.x + b.x == 2.0 * p.x && a.y + b.y == 2.0 * p.y
  }

  // Where curve i starts.
  function StartOf(path: Path, i: nat): Pt
    requires path.Path? && i <= |path.curves|
  {
    if i == 0 then path.start else path.curves[i - 1].to
  }

  // Going from p to c is a fifth of the way from a to b.
  predicate IsFifth(p: Pt, c: Pt, a: Pt, b: Pt)
  {
    5.0 * (c.x - p.x) == b.x - a.x && 5.0 * (c.y - p.y) == b.y - a.y
  }

  // The path has no corners: where two curves meet, the control points before and
  // after the joint lie opposite each other at the same distance, and both tangents
  // are parallel to the line from the joint before to the joint after. At its two ends
  // the path points along the line to the neighbouring joint.
  lemma PathIsSmooth(pts: seq<Pt>, i: nat)
    requires |pts| > 4
    requires PathOf(pts).Path? && i < |PathOf(pts).curves|
    ensures var path := PathOf(pts);
            var c := path.curves;
            && (i + 1 < |c| ==> Midpoint(c[i].to, c[i].c2, c[i + 1].c1))
            && (i + 1 < |c| ==> IsFifth(c[i].to, c[i + 1].c1, StartOf(path, i), c[i + 1].to))
            && IsFifth(path.start, c[0].c1, path.start, c[0].to)
            && IsFifth(c[|c| - 1].c2, c[|c| - 1].to, StartOf(path, |c| - 1), c[|c| - 1].to)
  {
    var ds := Downsample(pts);
    assert forall k | 0 <= k < |ds| - 1 :: PathOf(pts).curves[k] == CurveAt(ds, k);
    assert forall k | 0 <= k < |ds| - 1 :: StartOf(PathOf(pts), k) == ds[k];
    FifthOfTheWay(ds[0], ds[0], ds[1]);
    FifthOfTheWay(ds[|ds| - 1], ds[|ds| - 2], ds[|ds| - 1]);
    if i + 2 < |ds| {
      FifthOfTheWay(ds[i + 1], ds[i], ds[i + 2]);
    }
  }

  lemma FifthOfTheWay(p: Pt, a: Pt, b: Pt)
    ensures IsFifth(p, Towards(p, a, b), a, b) && IsFifth(Away(p, a, b), p, a, b)
    ensures Midpoint(p, Away(p, a, b), Towards(p, a, b))
  {
  }
}
