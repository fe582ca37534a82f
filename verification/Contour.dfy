// Marching squares over a grid of samples (crates/crypto-core/src/nft_image.rs).
// f64 is modelled by real: rounding is not part of this model.
module Contour {

  datatype Pt = Pt(x: real, y: real)

  datatype Segment = Segment(from: Pt, to: Pt)

  // H(x, y) joins the corners (x, y) and (x + 1, y); V(x, y) joins (x, y) and
  // (x, y + 1).
  datatype Edge = H(x: int, y: int) | V(x: int, y: int)

  // A segment before its ends are turned into points.
  datatype Link = Link(from: Edge, to: Edge)

  // The arguments of march_squares. Samples are stored row by row.
  datatype Grid = Grid(field: seq<real>, cols: nat, rows: nat, thr: real)

  // What the indexing and the two subtractions of one demand.
  predicate Valid(g: Grid)
  {
    g.cols >= 1 && g.rows >= 1 && |g.field| == g.cols * g.rows
  }

  predicate HasCorner(g: Grid, x: int, y: int)
  {
    0 <= x < g.cols && 0 <= y < g.rows
  }

  lemma {:induction false} RowsBefore(y: nat, last: nat, cols: nat)
    requires y <= last
    ensures 0 <= y * cols <= last * cols
  {
    if y < last {
      RowsBefore(y, last - 1, cols);
      assert last * cols == (last - 1) * cols + cols;
    }
  }

  lemma CornerInField(g: Grid, x: int, y: int)
    requires Valid(g) && HasCorner(g, x, y)
    ensures 0 <= y * g.cols + x < |g.field|
  {
    RowsBefore(y, g.rows - 1, g.cols);
    assert g.cols * g.rows == (g.rows - 1) * g.cols + g.cols;
  }

  function At(g: Grid, x: int, y: int): real
    requires Valid(g) && HasCorner(g, x, y)
  {
    CornerInField(g, x, y);
    g.field[y * g.cols + x]
  }

  // The other end of an edge.
  function EndX(e: Edge): int
  {
    if e.H? then e.x + 1 else e.x
  }

  function EndY(e: Edge): int
  {
    if e.H? then e.y else e.y + 1
  }

  predicate InGrid(g: Grid, e: Edge)
  {
    HasCorner(g, e.x, e.y) && HasCorner(g, EndX(e), EndY(e))
  }

  // The threshold separates the two corners of the edge.
  predicate Straddles(g: Grid, e: Edge)
    requires Valid(g) && InGrid(g, e)
  {
    (At(g, e.x, e.y) > g.thr) != (At(g, EndX(e), EndY(e)) > g.thr)
  }

  predicate Crosses(g: Grid, e: Edge)
    requires Valid(g)
  {
    InGrid(g, e) && Straddles(g, e)
  }

  function Abs(r: real): real
  {
    if r < 0.0 then -r else r
  }

  function Lerp(thr: real, va: real, vb: real, pa: Pt, pb: Pt): Pt
  {
    if Abs(va - vb) < 0.000001 then
      Pt((pa.x + pb.x) / 2.0, (pa.y + pb.y) / 2.0)
    else
      assert vb - va != 0.0;
      var t := (thr - va) / (vb - va);
      Pt(pa.x + (pb.x - pa.x) * t, pa.y + (pb.y - pa.y) * t)
  }

  function Corner(x: int, y: int): Pt
  {
    Pt(x as real, y as real)
  }

  // The point where the contour crosses an edge. It depends on the edge alone, not on
  // the cell that asks for it.
  function EdgePoint(g: Grid, e: Edge): Pt
    requires Valid(g) && InGrid(g, e)
  {
    Lerp(g.thr, At(g, e.x, e.y), At(g, EndX(e), EndY(e)), Corner(e.x, e.y), Corner(EndX(e), EndY(e)))
  }

  predicate HasCell(g: Grid, ix: int, iy: int)
  {
    0 <= ix < g.cols - 1 && 0 <= iy < g.rows - 1
  }

  function Bit(b: bool, weight: nat): nat
  {
    if b then weight else 0
  }

  function Config(g: Grid, ix: int, iy: int): (cfg: nat)
    requires Valid(g) && HasCell(g, ix, iy)
    ensures cfg <= 15
  {
    Bit(At(g, ix, iy) > g.thr, 1) + Bit(At(g, ix + 1, iy) > g.thr, 2)
    + Bit(At(g, ix + 1, iy + 1) > g.thr, 4) + Bit(At(g, ix, iy + 1) > g.thr, 8)
  }

  // The links a cell of the given configuration contributes, by its top, right,
  // bottom and left sides.
  function LinksOf(cfg: nat, a: Edge, b: Edge, c: Edge, d: Edge): seq<Link>
  {
    if cfg == 1 || cfg == 14 then [Link(d, a)]
    else if cfg == 2 || cfg == 13 then [Link(a, b)]
    else if cfg == 3 || cfg == 12 then [Link(d, b)]
    else if cfg == 4 || cfg == 11 then [Link(b, c)]
    else if cfg == 5 then [Link(d, a), Link(b, c)]
    else if cfg == 6 || cfg == 9 then [Link(a, c)]
    else if cfg == 7 || cfg == 8 then [Link(d, c)]
    else if cfg == 10 then [Link(d, c), Link(a, b)]
    else []
  }

  function CellLinks(g: Grid, ix: int, iy: int): seq<Link>
    requires Valid(g) && HasCell(g, ix, iy)
  {
    LinksOf(Config(g, ix, iy), H(ix, iy), V(ix + 1, iy), H(ix, iy + 1), V(ix, iy))
  }

  // The links of the first n cells of a row.
  function RowLinks(g: Grid, iy: int, n: nat): seq<Link>
    requires Valid(g) && 0 <= iy < g.rows - 1 && n <= g.cols - 1
  {
    if n == 0 then [] else RowLinks(g, iy, n - 1) + CellLinks(g, n - 1, iy)
  }

  // The links of the first m rows of cells.
  function Links(g: Grid, m: nat): seq<Link>
    requires Valid(g) && m <= g.rows - 1
  {
    if m == 0 then [] else Links(g, m - 1) + RowLinks(g, m - 1, g.cols - 1)
  }

  // The multiset of edges that are ends of links: each link counts its two ends.
  function Ends(links: seq<Link>): multiset<Edge>
  {
    if links == [] then multiset{} else
      var last := links[|links| - 1];
      Ends(links[..|links| - 1]) + multiset{last.from} + multiset{last.to}
  }

  lemma {:induction false} EndsOfConcatenation(s: seq<Link>, t: seq<Link>)
    ensures Ends(s + t) == Ends(s) + Ends(t)
    decreases |t|
  {
    if t == [] {
      assert s + t == s;
    } else {
      var p := t[..|t| - 1];
      assert (s + t)[..|s + t| - 1] == s + p;
      EndsOfConcatenation(s, p);
    }
  }

  lemma {:induction false} TwoEndsPerLink(links: seq<Link>)
    ensures |Ends(links)| == 2 * |links|
  {
    if links == [] {
    } else {
      TwoEndsPerLink(links[..|links| - 1]);
    }
  }

  predicate IsSide(e: Edge, ix: int, iy: int)
  {
    e == H(ix, iy) || e == V(ix + 1, iy) || e == H(ix, iy + 1) || e == V(ix, iy)
  }

  lemma EndsOfNone()
    ensures Ends([]) == multiset{}
  {
  }

  lemma EndsOfOne(k: Link, e: Edge)
    ensures Ends([k])[e] == Bit(k.from == e, 1) + Bit(k.to == e, 1)
  {
    assert [k][..0] == [];
  }

  lemma EndsOfTwo(k: Link, l: Link, e: Edge)
    ensures Ends([k, l])[e] == Bit(k.from == e, 1) + Bit(k.to == e, 1) + Bit(l.from == e, 1) + Bit(l.to == e, 1)
  {
    assert [k, l][..1] == [k];
    EndsOfOne(k, e);
  }

  // The table of configurations, read back: p, q, r and s say which corners lie above
  // the threshold, and a side is linked exactly when its two corners differ. In the
  // saddles 5 and 10, where all four sides are crossed, the two links share no side.
  lemma LinksJoinCrossedSides(cfg: nat, p: bool, q: bool, r: bool, s: bool, a: Edge, b: Edge, c: Edge, d: Edge, e: Edge)
    requires cfg == Bit(p, 1) + Bit(q, 2) + Bit(r, 4) + Bit(s, 8)
    requires a != b && a != c && a != d && b != c && b != d && c != d
    ensures Ends(LinksOf(cfg, a, b, c, d))[e]
         == Bit((e == a && p != q) || (e == b && q != r) || (e == c && s != r) || (e == d && p != s), 1)
  {
    hide Ends;
    if p == q && r == s && p == r {
      EndsOfNone();
    } else if p == q && r == s {
      EndsOfOne(Link(d, b), e);
    } else if p == s && q == r {
      EndsOfOne(Link(a, c), e);
    } else if p == r && q == s {
      if p {
        EndsOfTwo(Link(d, a), Link(b, c), e);
      } else {
        EndsOfTwo(Link(d, c), Link(a, b), e);
      }
    } else if q == r && r == s {
      EndsOfOne(Link(d, a), e);
    } else if p == r && r == s {
      EndsOfOne(Link(a, b), e);
    } else if p == q && q == s {
      EndsOfOne(Link(b, c), e);
    } else {
      EndsOfOne(Link(d, c), e);
    }
  }

  // Which crossed sides are joined when all four are: in a saddle each link goes round
  // one of the two corners above the threshold, joining the sides that meet there.
  lemma SaddleLinksGoRoundHighCorners(g: Grid, ix: int, iy: int)
    requires Valid(g) && HasCell(g, ix, iy)
    requires Crosses(g, H(ix, iy)) && Crosses(g, V(ix + 1, iy)) && Crosses(g, H(ix, iy + 1)) && Crosses(g, V(ix, iy))
    ensures |CellLinks(g, ix, iy)| == 2
    ensures forall k | k in CellLinks(g, ix, iy) :: exists x, y ::
      HasCorner(g, x, y) && At(g, x, y) > g.thr && EndsAtCorner(k.from, x, y) && EndsAtCorner(k.to, x, y)
  {
    var links := CellLinks(g, ix, iy);
    if At(g, ix, iy) > g.thr {
      assert links == [Link(V(ix, iy), H(ix, iy)), Link(V(ix + 1, iy), H(ix, iy + 1))];
      assert EndsAtCorner(V(ix, iy), ix, iy) && EndsAtCorner(H(ix, iy), ix, iy);
      assert EndsAtCorner(V(ix + 1, iy), ix + 1, iy + 1) && EndsAtCorner(H(ix, iy + 1), ix + 1, iy + 1);
      assert At(g, ix + 1, iy + 1) > g.thr;
    } else {
      assert links == [Link(V(ix, iy), H(ix, iy + 1)), Link(H(ix, iy), V(ix + 1, iy))];
      assert EndsAtCorner(V(ix, iy), ix, iy + 1) && EndsAtCorner(H(ix, iy + 1), ix, iy + 1);
      assert EndsAtCorner(H(ix, iy), ix + 1, iy) && EndsAtCorner(V(ix + 1, iy), ix + 1, iy);
      assert At(g, ix, iy + 1) > g.thr && At(g, ix + 1, iy) > g.thr;
    }
  }

  predicate EndsAtCorner(e: Edge, x: int, y: int)
  {
    (e.x == x && e.y == y) || (EndX(e) == x && EndY(e) == y)
  }

  // A cell links each of its crossed sides exactly once, and nothing else.
  lemma CellEnds(g: Grid, ix: int, iy: int, e: Edge)
    requires Valid(g) && HasCell(g, ix, iy)
    ensures Ends(CellLinks(g, ix, iy))[e] == Bit(IsSide(e, ix, iy) && Crosses(g, e), 1)
  {
    hide Ends, LinksOf, At;
    LinksJoinCrossedSides(
      Config(g, ix, iy), At(g, ix, iy) > g.thr, At(g, ix + 1, iy) > g.thr, At(g, ix + 1, iy + 1) > g.thr, At(g, ix, iy + 1) > g.thr,
      H(ix, iy), V(ix + 1, iy), H(ix, iy + 1), V(ix, iy), e);
  }

  // How many of the first n cells of row iy have e as a side.
  function SidesInRow(e: Edge, iy: int, n: nat): nat
  {
    match e
    case H(x, y) => Bit(0 <= x < n && (y == iy || y == iy + 1), 1)
    case V(x, y) => Bit(0 <= x < n && y == iy, 1) + Bit(0 <= x - 1 < n && y == iy, 1)
  }

  lemma {:induction false} RowEnds(g: Grid, iy: int, n: nat, e: Edge)
    requires Valid(g) && 0 <= iy < g.rows - 1 && n <= g.cols - 1
    ensures Ends(RowLinks(g, iy, n))[e] == (if Crosses(g, e) then SidesInRow(e, iy, n) else 0)
  {
    hide Ends, CellLinks, Straddles;
    if n == 0 {
      EndsOfNone();
    } else {
      RowEnds(g, iy, n - 1, e);
      CellEnds(g, n - 1, iy, e);
      EndsOfConcatenation(RowLinks(g, iy, n - 1), CellLinks(g, n - 1, iy));
    }
  }

  // How many cells of the first m rows have e as a side.
  function SidesInRows(cols: nat, e: Edge, m: nat): nat
    requires cols >= 1
  {
    if m == 0 then 0 else SidesInRows(cols, e, m - 1) + SidesInRow(e, m - 1, cols - 1)
  }

  lemma {:induction false} RowsEnds(g: Grid, m: nat, e: Edge)
    requires Valid(g) && m <= g.rows - 1
    ensures Ends(Links(g, m))[e] == (if Crosses(g, e) then SidesInRows(g.cols, e, m) else 0)
  {
    hide Ends, RowLinks, Straddles, SidesInRow;
    if m == 0 {
      EndsOfNone();
    } else {
      RowsEnds(g, m - 1, e);
      RowEnds(g, m - 1, g.cols - 1, e);
      EndsOfConcatenation(Links(g, m - 1), RowLinks(g, m - 1, g.cols - 1));
    }
  }

  // An edge of the grid is a side of two cells when it is interior, and of one when it
  // lies on the border.
  predicate OnBorder(g: Grid, e: Edge)
  {
    if e.H? then e.y == 0 || e.y == g.rows - 1 else e.x == 0 || e.x == g.cols - 1
  }

  lemma {:induction false} CountSides(g: Grid, e: Edge, m: nat)
    requires InGrid(g, e) && m <= g.rows - 1
    ensures SidesInRows(g.cols, e, m) == match e
      case H(x, y) => Bit(y < m, 1) + Bit(0 < y <= m, 1)
      case V(x, y) => if y < m then Bit(x < g.cols - 1, 1) + Bit(0 < x, 1) else 0
  {
    if m == 0 {
    } else {
      CountSides(g, e, m - 1);
    }
  }

  // Every crossed interior edge is an end of exactly two segments, every crossed
  // border edge of exactly one, and no other edge of any. A grid needs two rows and
  // two columns to have cells at all.
  lemma EdgeDegrees(g: Grid, e: Edge)
    requires Valid(g) && g.cols >= 2 && g.rows >= 2
    ensures Ends(Links(g, g.rows - 1))[e] == (if !Crosses(g, e) then 0 else if OnBorder(g, e) then 1 else 2)
  {
    hide Ends, Links, SidesInRows, Straddles;
    RowsEnds(g, g.rows - 1, e);
    if InGrid(g, e) {
      CountSides(g, e, g.rows - 1);
    }
  }

  ghost function GridEdges(g: Grid): set<Edge>
  {
    (set x, y | 0 <= x < g.cols && 0 <= y < g.rows :: H(x, y)) + (set x, y | 0 <= x < g.cols && 0 <= y < g.rows :: V(x, y))
  }

  ghost function Crossings(g: Grid, border: bool): (s: set<Edge>)
    requires Valid(g)
    ensures forall e :: e in s <==> Crosses(g, e) && OnBorder(g, e) == border
  {
    set e | e in GridEdges(g) && Crosses(g, e) && OnBorder(g, e) == border
  }

  // Twice the number of segments is twice the interior crossings plus the border
  // crossings, so the contour leaves the grid an even number of times.
  lemma CrossingCount(g: Grid)
    requires Valid(g) && g.cols >= 2 && g.rows >= 2
    ensures 2 * |Links(g, g.rows - 1)| == 2 * |Crossings(g, false)| + |Crossings(g, true)|
    ensures |Crossings(g, true)| % 2 == 0
  {
    hide Ends, Links, Crosses, OnBorder, GridEdges;
    var links := Links(g, g.rows - 1);
    var interior, border := multiset(Crossings(g, false)), multiset(Crossings(g, true));
    forall e ensures Ends(links)[e] == (interior + interior + border)[e] {
      EdgeDegrees(g, e);
    }
    assert Ends(links) == interior + interior + border;
    TwoEndsPerLink(links);
  }

  // Every crossing point lies on its edge, so a crossing never leaves the cell.
  predicate OnEdge(p: Pt, e: Edge)
  {
    e.x as real <= p.x <= EndX(e) as real && e.y as real <= p.y <= EndY(e) as real
  }

  lemma RatioBetweenZeroAndOne(n: real, d: real)
    requires (0.0 <= n <= d || d <= n <= 0.0) && d != 0.0
    ensures 0.0 <= n / d <= 1.0
  {
    var q := n / d;
    assert q * d == n;
    NegativeTimes(q, d);
    NegativeTimes(1.0 - q, d);
    assert (1.0 - q) * d == d - n;
  }

  lemma NegativeTimes(x: real, d: real)
    ensures x < 0.0 && d > 0.0 ==> x * d < 0.0
    ensures x < 0.0 && d < 0.0 ==> x * d > 0.0
  {
  }

  lemma NonNegativeTimes(x: real, d: real)
    requires x >= 0.0 && d >= 0.0
    ensures x * d >= 0.0
  {
    if x == 0.0 || d == 0.0 {
      assert x * d == 0.0;
    }
  }

  lemma CrossingPointIsOnItsEdge(g: Grid, e: Edge)
    requires Valid(g) && Crosses(g, e)
    ensures OnEdge(EdgePoint(g, e), e)
  {
    LerpStaysBetween(g.thr, At(g, e.x, e.y), At(g, EndX(e), EndY(e)), Corner(e.x, e.y), Corner(EndX(e), EndY(e)));
    hide At, Lerp;
  }

  lemma LerpStaysBetween(thr: real, va: real, vb: real, pa: Pt, pb: Pt)
    requires (va > thr) != (vb > thr)
    requires pa.x <= pb.x && pa.y <= pb.y
    ensures pa.x <= Lerp(thr, va, vb, pa, pb).x <= pb.x && pa.y <= Lerp(thr, va, vb, pa, pb).y <= pb.y
  {
    if Abs(va - vb) >= 0.000001 {
      RatioBetweenZeroAndOne(thr - va, vb - va);
      var t := (thr - va) / (vb - va);
      var w, h := pb.x - pa.x, pb.y - pa.y;
      FractionStaysBelow(w, t);
      FractionStaysBelow(h, t);
      assert Lerp(thr, va, vb, pa, pb) == Pt(pa.x + w * t, pa.y + h * t);
    }
  }

  lemma FractionStaysBelow(w: real, t: real)
    requires 0.0 <= t <= 1.0 && w >= 0.0
    ensures 0.0 <= w * t <= w
  {
    NonNegativeTimes(w, t);
    NonNegativeTimes(w, 1.0 - t);
    assert w * (1.0 - t) == w - w * t;
  }

  // Where on its edge a crossing lies, in the samples themselves: with end samples va
  // and vb at least 10^-6 apart, moving from the first corner by a fraction t of the
  // edge changes the linear interpolant by (vb - va) * t, and at p it has reached the
  // threshold. Closer samples give the middle of the edge.
  predicate MeetsThreshold(g: Grid, e: Edge, p: Pt)
    requires |g.field| == g.cols * g.rows && InGrid(g, e)
    requires 0 <= e.y * g.cols + e.x < |g.field| && 0 <= EndY(e) * g.cols + EndX(e) < |g.field|
  {
    MeetsBetween(g.field[e.y * g.cols + e.x], g.field[EndY(e) * g.cols + EndX(e)], g.thr, e, p)
  }

  predicate MeetsBetween(va: real, vb: real, thr: real, e: Edge, p: Pt)
  {
    var t := (p.x - e.x as real) + (p.y - e.y as real);
    && (if e.H? then p.y == e.y as real else p.x == e.x as real)
    && (if vb - va >= 0.000001 || va - vb >= 0.000001 then (vb - va) * t == thr - va else t == 0.5)
  }

  lemma LerpMeetsThreshold(thr: real, va: real, vb: real, pa: Pt, pb: Pt)
    requires (pb.x == pa.x + 1.0 && pb.y == pa.y) || (pb.x == pa.x && pb.y == pa.y + 1.0)
    ensures var p := Lerp(thr, va, vb, pa, pb);
      var t := (p.x - pa.x) + (p.y - pa.y);
      && (pb.x == pa.x ==> p.x == pa.x) && (pb.y == pa.y ==> p.y == pa.y)
      && (if vb - va >= 0.000001 || va - vb >= 0.000001 then (vb - va) * t == thr - va else t == 0.5)
  {
    if vb - va >= 0.000001 || va - vb >= 0.000001 {
      var t := (thr - va) / (vb - va);
      assert t * (vb - va) == thr - va;
      assert 0.0 * t == 0.0 && 1.0 * t == t;
    }
  }

  lemma CrossingMeetsThreshold(g: Grid, e: Edge)
    requires Valid(g) && InGrid(g, e)
    ensures 0 <= e.y * g.cols + e.x < |g.field| && 0 <= EndY(e) * g.cols + EndX(e) < |g.field|
    ensures MeetsThreshold(g, e, EdgePoint(g, e))
  {
    hide Lerp, MeetsBetween;
    CornerInField(g, e.x, e.y);
    CornerInField(g, EndX(e), EndY(e));
    LerpMeetsBetween(g.thr, At(g, e.x, e.y), At(g, EndX(e), EndY(e)), e);
  }

  lemma LerpMeetsBetween(thr: real, va: real, vb: real, e: Edge)
    ensures MeetsBetween(va, vb, thr, e, Lerp(thr, va, vb, Corner(e.x, e.y), Corner(EndX(e), EndY(e))))
  {
    hide Lerp;
    LerpMeetsThreshold(thr, va, vb, Corner(e.x, e.y), Corner(EndX(e), EndY(e)));
  }

  // ------------------------------------------------------------------ the loops

  function ToSegment(g: Grid, k: Link): Segment
    requires Valid(g) && InGrid(g, k.from) && InGrid(g, k.to)
  {
    Segment(EdgePoint(g, k.from), EdgePoint(g, k.to))
  }

  predicate LinksInGrid(g: Grid, links: seq<Link>)
  {
    forall i | 0 <= i < |links| :: InGrid(g, links[i].from) && InGrid(g, links[i].to)
  }

  // segs are the links with both ends turned into points.
  predicate Draws(g: Grid, segs: seq<Segment>, links: seq<Link>)
    requires Valid(g)
  {
    && LinksInGrid(g, links)
    && |segs| == |links|
    && forall i | 0 <= i < |segs| :: segs[i] == ToSegment(g, links[i])
  }

  lemma DrawsConcatenation(g: Grid, s: seq<Segment>, k: seq<Link>, t: seq<Segment>, l: seq<Link>)
    requires Valid(g) && Draws(g, s, k) && Draws(g, t, l)
    ensures Draws(g, s + t, k + l)
  {
  }

  // One cell: the corner values, the configuration, the four crossing points and the
  // segments between them.
  method MarchCell(g: Grid, ix: nat, iy: nat) returns (segs: seq<Segment>)
    requires Valid(g) && HasCell(g, ix, iy)
    ensures Draws(g, segs, CellLinks(g, ix, iy))
  {
    CornerInField(g, ix, iy);
    CornerInField(g, ix + 1, iy);
    CornerInField(g, ix, iy + 1);
    CornerInField(g, ix + 1, iy + 1);
    var v0 := g.field[iy * g.cols + ix];
    var v1 := g.field[iy * g.cols + ix + 1];
    var v2 := g.field[(iy + 1) * g.cols + ix + 1];
    var v3 := g.field[(iy + 1) * g.cols + ix];

    // Each bit is set at most once, so adding it is or-ing it in.
    var cfg := 0;
    if v0 > g.thr { cfg := cfg + 1; }
    if v1 > g.thr { cfg := cfg + 2; }
    if v2 > g.thr { cfg := cfg + 4; }
    if v3 > g.thr { cfg := cfg + 8; }
    if cfg == 0 || cfg == 15 {
      return [];
    }

    var p, q, r, s := Corner(ix, iy), Corner(ix + 1, iy), Corner(ix + 1, iy + 1), Corner(ix, iy + 1);
    var a, b := Lerp(g.thr, v0, v1, p, q), Lerp(g.thr, v1, v2, q, r);
    var c, d := Lerp(g.thr, v3, v2, s, r), Lerp(g.thr, v0, v3, p, s);
    assert v0 == At(g, ix, iy) && v1 == At(g, ix + 1, iy) && v2 == At(g, ix + 1, iy + 1) && v3 == At(g, ix, iy + 1);
    hide Lerp, At;
    assert a == EdgePoint(g, H(ix, iy)) && b == EdgePoint(g, V(ix + 1, iy));
    assert c == EdgePoint(g, H(ix, iy + 1)) && d == EdgePoint(g, V(ix, iy));
    hide EdgePoint;

    match cfg {
      case 1 | 14 => segs := [Segment(d, a)];
      case 2 | 13 => segs := [Segment(a, b)];
      case 3 | 12 => segs := [Segment(d, b)];
      case 4 | 11 => segs := [Segment(b, c)];
      case 5 => segs := [Segment(d, a), Segment(b, c)];
      case 6 | 9 => segs := [Segment(a, c)];
      case 7 | 8 => segs := [Segment(d, c)];
      case 10 => segs := [Segment(d, c), Segment(a, b)];
      case _ => segs := [];
    }
  }

  lemma RowStep(g: Grid, iy: nat, ix: nat)
    requires Valid(g) && HasCell(g, ix, iy)
    ensures Links(g, iy) + RowLinks(g, iy, ix) + CellLinks(g, ix, iy) == Links(g, iy) + RowLinks(g, iy, ix + 1)
  {
  }

  lemma RowEdges(g: Grid, iy: nat)
    requires Valid(g) && iy < g.rows - 1
    ensures Links(g, iy) + RowLinks(g, iy, 0) == Links(g, iy)
    ensures Links(g, iy) + RowLinks(g, iy, g.cols - 1) == Links(g, iy + 1)
  {
  }

  // A link between two crossed sides of one cell.
  ghost predicate JoinsCrossedSides(g: Grid, k: Link, ix: int, iy: int)
    requires Valid(g)
  {
    && HasCell(g, ix, iy) && k.from != k.to
    && IsSide(k.from, ix, iy) && Crosses(g, k.from) && IsSide(k.to, ix, iy) && Crosses(g, k.to)
  }

  ghost predicate JoinsCrossedSidesOfACell(g: Grid, k: Link)
    requires Valid(g)
  {
    exists ix, iy :: JoinsCrossedSides(g, k, ix, iy)
  }

  lemma {:induction false} LinkEndsCounted(links: seq<Link>, k: nat)
    requires k < |links|
    ensures links[k].from in Ends(links) && links[k].to in Ends(links)
    ensures links[k].from == links[k].to ==> Ends(links)[links[k].from] >= 2
  {
    if k < |links| - 1 {
      LinkEndsCounted(links[..|links| - 1], k);
    }
  }

  lemma CellLinksJoinCrossedSides(g: Grid, ix: int, iy: int, k: nat)
    requires Valid(g) && HasCell(g, ix, iy) && k < |CellLinks(g, ix, iy)|
    ensures JoinsCrossedSides(g, CellLinks(g, ix, iy)[k], ix, iy)
  {
    hide CellLinks, Ends, Crosses, IsSide;
    var link := CellLinks(g, ix, iy)[k];
    LinkEndsCounted(CellLinks(g, ix, iy), k);
    CellEnds(g, ix, iy, link.from);
    CellEnds(g, ix, iy, link.to);
  }

  lemma {:induction false} RowLinksAreCellLinks(g: Grid, iy: int, n: nat, k: nat)
    requires Valid(g) && 0 <= iy < g.rows - 1 && n <= g.cols - 1 && k < |RowLinks(g, iy, n)|
    ensures exists ix :: JoinsCrossedSides(g, RowLinks(g, iy, n)[k], ix, iy)
  {
    hide CellLinks, JoinsCrossedSides;
    var before := RowLinks(g, iy, n - 1);
    if k < |before| {
      RowLinksAreCellLinks(g, iy, n - 1, k);
      assert RowLinks(g, iy, n)[k] == before[k];
    } else {
      CellLinksJoinCrossedSides(g, n - 1, iy, k - |before|);
      assert JoinsCrossedSides(g, RowLinks(g, iy, n)[k], n - 1, iy);
    }
  }

  lemma {:induction false} LinksAreCellLinks(g: Grid, m: nat, k: nat)
    requires Valid(g) && m <= g.rows - 1 && k < |Links(g, m)|
    ensures JoinsCrossedSidesOfACell(g, Links(g, m)[k])
  {
    hide RowLinks, JoinsCrossedSides;
    var before := Links(g, m - 1);
    if k < |before| {
      LinksAreCellLinks(g, m - 1, k);
      assert Links(g, m)[k] == before[k];
    } else {
      RowLinksAreCellLinks(g, m - 1, g.cols - 1, k - |before|);
      assert Links(g, m)[k] == RowLinks(g, m - 1, g.cols - 1)[k - |before|];
      var ix :| JoinsCrossedSides(g, Links(g, m)[k], ix, m - 1);
    }
  }

  // The end of a segment on the contour: on a crossed edge, where the interpolant of the
  // samples meets the threshold.
  ghost predicate OnContour(g: Grid, e: Edge, p: Pt)
    requires Valid(g)
  {
    && InGrid(g, e)
    && 0 <= e.y * g.cols + e.x < |g.field| && 0 <= EndY(e) * g.cols + EndX(e) < |g.field|
    && (g.field[e.y * g.cols + e.x] > g.thr) != (g.field[EndY(e) * g.cols + EndX(e)] > g.thr)
    && MeetsThreshold(g, e, p) && OnEdge(p, e)
  }

  ghost predicate DrawnOnContour(g: Grid, link: Link, seg: Segment)
    requires Valid(g)
  {
    JoinsCrossedSidesOfACell(g, link) && OnContour(g, link.from, seg.from) && OnContour(g, link.to, seg.to)
  }

  lemma CrossingIsOnContour(g: Grid, e: Edge)
    requires Valid(g) && Crosses(g, e)
    ensures OnContour(g, e, EdgePoint(g, e))
  {
    hide EdgePoint, MeetsThreshold;
    CrossingMeetsThreshold(g, e);
    CrossingPointIsOnItsEdge(g, e);
  }

  // Every segment runs inside one cell, between the crossing points of two different
  // crossed sides, each of which lies on its side, where the samples put it.
  lemma SegmentsStayInTheirCells(g: Grid, segs: seq<Segment>, k: nat)
    requires Valid(g) && Draws(g, segs, Links(g, g.rows - 1)) && k < |segs|
    ensures JoinsCrossedSidesOfACell(g, Links(g, g.rows - 1)[k])
    ensures OnContour(g, Links(g, g.rows - 1)[k].from, segs[k].from) && OnContour(g, Links(g, g.rows - 1)[k].to, segs[k].to)
  {
    LinksAreCellLinks(g, g.rows - 1, k);
    var link := Links(g, g.rows - 1)[k];
    var ix, iy :| JoinsCrossedSides(g, link, ix, iy);
    hide Links, EdgePoint, IsSide, OnContour;
    CrossingIsOnContour(g, link.from);
    CrossingIsOnContour(g, link.to);
  }

  method MarchSquares(g: Grid) returns (segs: seq<Segment>)
    requires Valid(g)
    ensures Draws(g, segs, Links(g, g.rows - 1))
    ensures forall k | 0 <= k < |segs| :: DrawnOnContour(g, Links(g, g.rows - 1)[k], segs[k])
    ensures g.cols >= 2 && g.rows >= 2 ==> 2 * |segs| == 2 * |Crossings(g, false)| + |Crossings(g, true)|
  {
    segs := [];
    assert Links(g, 0) == [];
    hide Links, RowLinks, CellLinks, EdgePoint;
    for iy := 0 to g.rows - 1
      invariant Draws(g, segs, Links(g, iy))
    {
      RowEdges(g, iy);
      for ix := 0 to g.cols - 1
        invariant Draws(g, segs, Links(g, iy) + RowLinks(g, iy, ix))
      {
        var cell := MarchCell(g, ix, iy);
        DrawsConcatenation(g, segs, Links(g, iy) + RowLinks(g, iy, ix), cell, CellLinks(g, ix, iy));
        RowStep(g, iy, ix);
        segs := segs + cell;
      }
    }
    forall k | 0 <= k < |segs| ensures DrawnOnContour(g, Links(g, g.rows - 1)[k], segs[k]) {
      SegmentsStayInTheirCells(g, segs, k);
    }
    if g.cols >= 2 && g.rows >= 2 {
      CrossingCount(g);
    }
  }
}
