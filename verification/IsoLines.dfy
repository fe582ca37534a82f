// One contour level of the picture: march, chain, draw
// (crates/crypto-core/src/nft_image.rs).
module IsoLines {
  import opened Contour
  import opened Chains
  import opened Bezier

  lemma {:induction false} StepHasAGroup(groups: seq<seq<nat>>, k: nat)
    requires k in StepsOf(groups)
    ensures exists d :: 0 <= d < |groups| && k in groups[d]
  {
    var last := |groups| - 1;
    if k in groups[last] {
    } else {
      assert k in StepsOf(groups[..last]);
      StepHasAGroup(groups[..last], k);
      var d :| 0 <= d < last && k in groups[..last][d];
      assert k in groups[d];
    }
  }

  predicate EndsAt(ch: seq<Pt>, p: Pt)
  {
    ch != [] && (ch[0] == p || Tail(ch) == p)
  }

  // No chain is broken off early: where a chain ends on the crossing of an edge, every
  // segment that meets this edge, two for an interior edge, already belongs to this
  // chain or to one made before it.
  lemma ChainEndsOnlyWhereSegmentsRunOut(g: Grid, segs: seq<Segment>, groups: seq<seq<nat>>, traced: seq<seq<Pt>>,
                                         c: nat, e: Edge, k: nat)
    requires Valid(g) && InGrid(g, e)
    requires Draws(g, segs, Links(g, g.rows - 1)) && Chained(segs, groups, traced)
    requires c < |traced| && EndsAt(traced[c], ScalePt(EdgePoint(g, e)))
    requires k < |segs| && (Links(g, g.rows - 1)[k].from == e || Links(g, g.rows - 1)[k].to == e)
    ensures exists d :: 0 <= d <= c && k in groups[d]
  {
    hide EdgePoint, Links;
    StepHasAGroup(groups, k);
    var d :| 0 <= d < |groups| && k in groups[d];
    assert Attachable(traced[c], Scaled(segs)[k]);
  }

  // One path for every chain that is kept: the test for an empty path skips none.
  ghost predicate Drawn(g: Grid, paths: seq<Path>)
    requires Valid(g)
  {
    exists segs, chains ::
      && Draws(g, segs, Links(g, g.rows - 1)) && ChainedInto(segs, chains) && |paths| == |chains|
      && forall i | 0 <= i < |paths| :: chains[i] != [] && paths[i] == PathOf(chains[i]) && paths[i].Path?
  }

  method DrawIsoLine(g: Grid) returns (paths: seq<Path>)
    requires Valid(g)
    ensures Drawn(g, paths)
  {
    hide PathOf, Links, Draws;
    var segs := MarchSquares(g);
    var chains := ChainSegments(segs);
    KeptChainsAreDrawn(segs, chains);
    paths := [];
    for i := 0 to |chains|
      invariant |paths| == i
      invariant forall k | 0 <= k < i :: paths[k] == PathOf(chains[k])
    {
      var d := ToBezierPath(chains[i]);
      if d.Path? {
        paths := paths + [d];
      }
    }
  }

  lemma KeptChainsAreDrawn(segs: seq<Segment>, chains: seq<seq<Pt>>)
    requires ChainedInto(segs, chains)
    ensures AllDrawn(chains)
  {
    hide PathOf, AllMaximal, StepsOf;
    var groups, traced :| Chained(segs, groups, traced) && chains == Kept(traced);
    KeptChainsAreTheDrawnOnes(traced);
  }
}
