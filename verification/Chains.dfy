// Joining contour segments into polylines and drawing those as smooth paths
// (crates/crypto-core/src/nft_image.rs). f64 is modelled by real.
module Chains {
  import opened Contour

  const RES: real := 3.0

  const EPS: real := 0.01

  const MIN_KEPT: nat := 4

  function ScalePt(p: Pt): Pt
  {
    Pt(p.x * RES, p.y * RES)
  }

  function Scaled(segs: seq<Segment>): (pts: seq<Segment>)
    ensures |pts| == |segs|
  {
    seq(|segs|, i requires 0 <= i < |segs| => Segment(ScalePt(segs[i].from), ScalePt(segs[i].to)))
  }

  predicate Near(a: Pt, b: Pt)
  {
    Abs(a.x - b.x) < EPS && Abs(a.y - b.y) < EPS
  }

  // Near means: on each axis strictly less than a hundredth apart, either way.
  lemma NearIff(a: Pt, b: Pt)
    ensures Near(a, b) <==>
      -0.01 < a.x - b.x && a.x - b.x < 0.01 && -0.01 < a.y - b.y && a.y - b.y < 0.01
  {
  }

  // The points that are chained are three times as far out as those that were marched.
  lemma ScaledByThree(segs: seq<Segment>, i: nat)
    requires i < |segs|
    ensures var (s, t) := (Scaled(segs)[i], segs[i]);
      && s.from.x == t.from.x + t.from.x + t.from.x && s.from.y == t.from.y + t.from.y + t.from.y
      && s.to.x == t.to.x + t.to.x + t.to.x && s.to.y == t.to.y + t.to.y + t.to.y
  {
  }

  // The step from p to q follows the segment s, in either direction: one of its ends
  // is met exactly and the other up to the tolerance.
  predicate Follows(p: Pt, q: Pt, s: Segment)
  {
    || (Near(p, s.from) && q == s.to)
    || (Near(p, s.to) && q == s.from)
    || (p == s.from && Near(q, s.to))
    || (p == s.to && Near(q, s.from))
  }

  function Tail(ch: seq<Pt>): Pt
    requires ch != []
  {
    ch[|ch| - 1]
  }

  // Some end of s is near the head or the tail of the chain.
  predicate Attachable(ch: seq<Pt>, s: Segment)
    requires ch != []
  {
    Near(Tail(ch), s.from) || Near(Tail(ch), s.to) || Near(ch[0], s.to) || Near(ch[0], s.from)
  }

  // The chain walks along the segments of these indices, in this order: m segments
  // make m + 1 points.
  predicate Walks(pts: seq<Segment>, steps: seq<nat>, ch: seq<Pt>)
  {
    && steps != [] && |ch| == |steps| + 1
    && forall k | 0 <= k < |steps| :: steps[k] < |pts| && Follows(ch[k], ch[k + 1], pts[steps[k]])
  }

  lemma WalkGrowsAtTail(pts: seq<Segment>, steps: seq<nat>, ch: seq<Pt>, j: nat, q: Pt)
    requires Walks(pts, steps, ch) && j < |pts| && Follows(Tail(ch), q, pts[j])
    ensures Walks(pts, steps + [j], ch + [q])
  {
  }

  lemma WalkGrowsAtHead(pts: seq<Segment>, steps: seq<nat>, ch: seq<Pt>, j: nat, q: Pt)
    requires Walks(pts, steps, ch) && j < |pts| && Follows(q, ch[0], pts[j])
    ensures Walks(pts, [j] + steps, [q] + ch)
  {
    var more, grown := [j] + steps, [q] + ch;
    forall k | 0 <= k < |more| ensures more[k] < |pts| && Follows(grown[k], grown[k + 1], pts[more[k]]) {
      if k > 0 {
        assert more[k] == steps[k - 1] && grown[k] == ch[k - 1] && grown[k + 1] == ch[k];
      }
    }
  }

  // The used array, as a set of indices.
  ghost predicate Marks(used: seq<bool>, spent: set<nat>)
  {
    spent <= Indices(|used|) && forall k | 0 <= k < |used| :: used[k] <==> k in spent
  }

  function Indices(n: nat): (s: set<nat>)
    ensures |s| == n && forall k: nat :: k in s <==> k < n
  {
    if n == 0 then {} else Indices(n - 1) + {n - 1}
  }

  lemma MarkingSpends(used: seq<bool>, spent: set<nat>, j: nat)
    requires Marks(used, spent) && j < |used| && !used[j]
    ensures Marks(used[j := true], spent + {j})
    ensures |spent| < |spent + {j}| <= |used|
    ensures multiset(spent + {j}) == multiset(spent) + multiset{j}
  {
    SubsetCount(spent + {j}, Indices(|used|));
  }

  lemma SubsetCount(s: set<nat>, t: set<nat>)
    requires s <= t
    ensures |s| <= |t|
  {
    assert t == s + (t - s);
  }

  // No index from lo up to hi can still be attached.
  predicate NothingAttaches(pts: seq<Segment>, used: seq<bool>, ch: seq<Pt>, hi: nat)
    requires |used| == |pts| && ch != [] && hi <= |pts|
  {
    forall k | 0 <= k < hi && !used[k] :: !Attachable(ch, pts[k])
  }

  // What attaching a segment makes of the chain: the tail is tried before the head,
  // and the point added is the far end of the segment.
  function Extended(ch: seq<Pt>, s: Segment): seq<Pt>
    requires ch != []
  {
    if Near(Tail(ch), s.from) then ch + [s.to]
    else if Near(Tail(ch), s.to) then ch + [s.from]
    else if Near(ch[0], s.to) then [s.from] + ch
    else if Near(ch[0], s.from) then [s.to] + ch
    else ch
  }

  // The tail is served first: a segment with an end near it makes the chain longer at the
  // tail, by its other end; only otherwise is the chain made longer at the head.
  lemma TailIsServedFirst(ch: seq<Pt>, s: Segment)
    requires ch != [] && Attachable(ch, s)
    ensures |Extended(ch, s)| == |ch| + 1
    ensures Near(ch[|ch| - 1], s.from) || Near(ch[|ch| - 1], s.to) ==>
      && ch < Extended(ch, s)
      && Extended(ch, s)[|ch|] == if Near(ch[|ch| - 1], s.from) then s.to else s.from
    ensures !Near(ch[|ch| - 1], s.from) && !Near(ch[|ch| - 1], s.to) ==>
      && Extended(ch, s)[1..] == ch
      && Extended(ch, s)[0] == if Near(ch[0], s.to) then s.from else s.to
  {
  }

  method Extend(pts: seq<Segment>, ch: seq<Pt>, j: nat, ghost steps: seq<nat>)
    returns (attached: bool, grown: seq<Pt>, ghost walked: seq<nat>)
    requires j < |pts| && Walks(pts, steps, ch)
    ensures attached == Attachable(ch, pts[j]) && grown == Extended(ch, pts[j])
    ensures attached ==> Walks(pts, walked, grown) && multiset(walked) == multiset(steps) + multiset{j}
  {
    attached, grown, walked := true, ch, steps;
    var head, tail := ch[0], Tail(ch);
    if Near(tail, pts[j].from) {
      WalkGrowsAtTail(pts, steps, ch, j, pts[j].to);
      grown, walked := ch + [pts[j].to], steps + [j];
    } else if Near(tail, pts[j].to) {
      WalkGrowsAtTail(pts, steps, ch, j, pts[j].from);
      grown, walked := ch + [pts[j].from], steps + [j];
    } else if Near(head, pts[j].to) {
      WalkGrowsAtHead(pts, steps, ch, j, pts[j].from);
      grown, walked := [pts[j].from] + ch, [j] + steps;
    } else if Near(head, pts[j].from) {
      WalkGrowsAtHead(pts, steps, ch, j, pts[j].to);
      grown, walked := [pts[j].to] + ch, [j] + steps;
    } else {
      attached := false;
    }
  }

  // The spent indices are those of the earlier chains and of the steps of this one,
  // each exactly once.
  ghost predicate Accounts(spent: set<nat>, earlier: multiset<nat>, steps: seq<nat>)
  {
    multiset(spent) == earlier + multiset(steps)
  }

  // One pass over all segments, attaching each that fits the chain as it stands.
  method Pass(pts: seq<Segment>, used: array<bool>, chain: seq<Pt>,
              ghost steps: seq<nat>, ghost spent: set<nat>, ghost earlier: multiset<nat>)
    returns (ch: seq<Pt>, changed: bool, ghost walked: seq<nat>, ghost gone: set<nat>)
    requires used.Length == |pts| && Marks(used[..], spent) && Walks(pts, steps, chain) && Accounts(spent, earlier, steps)
    modifies used
    ensures Marks(used[..], gone) && Walks(pts, walked, ch) && Accounts(gone, earlier, walked)
    ensures spent <= gone
    ensures changed ==> |spent| < |gone| <= |pts|
    ensures !changed ==> gone == spent && ch == chain && NothingAttaches(pts, used[..], ch, |pts|)
  {
    hide Follows, Attachable, Extended;
    ch, changed, walked, gone := chain, false, steps, spent;
    for j := 0 to |pts|
      invariant Marks(used[..], gone) && Walks(pts, walked, ch) && Accounts(gone, earlier, walked)
      invariant spent <= gone
      invariant changed ==> |spent| < |gone| <= |pts|
      invariant !changed ==> gone == spent && ch == chain && NothingAttaches(pts, used[..], ch, j)
    {
      if !used[j] {
        ghost var was := used[..];
        var attached, grown;
        ghost var longer;
        attached, grown, longer := Extend(pts, ch, j, walked);
        if attached {
          MarkingSpends(was, gone, j);
          ch, walked, gone := grown, longer, gone + {j};
          used[j] := true;
          changed := true;
          assert used[..] == was[j := true];
        }
      }
    }
  }

  // Passes are repeated until one attaches nothing. Every other pass uses up at least
  // one segment, which is why the repetition ends.
  method Grow(pts: seq<Segment>, used: array<bool>, i: nat, ghost spent: set<nat>, ghost earlier: multiset<nat>)
    returns (ch: seq<Pt>, ghost walked: seq<nat>, ghost gone: set<nat>)
    requires used.Length == |pts| && i < |pts| && !used[i]
    requires Marks(used[..], spent) && multiset(spent) == earlier
    modifies used
    ensures Marks(used[..], gone) && Walks(pts, walked, ch) && Accounts(gone, earlier, walked)
    ensures spent <= gone && i in gone
    ensures NothingAttaches(pts, used[..], ch, |pts|)
  {
    ghost var was := used[..];
    MarkingSpends(was, spent, i);
    used[i] := true;
    assert used[..] == was[i := true];
    ch, walked, gone := [pts[i].from, pts[i].to], [i], spent + {i};
    var changed := true;
    while changed
      invariant Marks(used[..], gone) && Walks(pts, walked, ch) && Accounts(gone, earlier, walked)
      invariant spent <= gone && i in gone && |gone| <= |pts|
      invariant !changed ==> NothingAttaches(pts, used[..], ch, |pts|)
      decreases |pts| - |gone|, changed
    {
      ch, changed, walked, gone := Pass(pts, used, ch, walked, gone, earlier);
    }
  }

  // All the steps of all the chains, with multiplicity.
  function StepsOf(groups: seq<seq<nat>>): multiset<nat>
  {
    if groups == [] then multiset{} else StepsOf(groups[..|groups| - 1]) + multiset(groups[|groups| - 1])
  }

  // Only chains of more than four points are kept.
  function Kept(traced: seq<seq<Pt>>): seq<seq<Pt>>
  {
    if traced == [] then [] else
      var last := traced[|traced| - 1];
      Kept(traced[..|traced| - 1]) + (if |last| > MIN_KEPT then [last] else [])
  }

  // Every long chain is kept as often as it was made, and no short one is.
  lemma {:induction false} KeptIsFilter(traced: seq<seq<Pt>>, ch: seq<Pt>)
    ensures multiset(Kept(traced))[ch] == if |ch| > 4 then multiset(traced)[ch] else 0
  {
    if traced == [] {
    } else {
      var before, last := traced[..|traced| - 1], traced[|traced| - 1];
      KeptIsFilter(before, ch);
      assert traced == before + [last];
    }
  }

  predicate AllWalk(pts: seq<Segment>, groups: seq<seq<nat>>, traced: seq<seq<Pt>>)
  {
    |groups| == |traced| && forall c | 0 <= c < |traced| :: Walks(pts, groups[c], traced[c])
  }

  // Nothing that was left over when chain c was finished would have fitted it.
  predicate LeavesNothing(pts: seq<Segment>, ch: seq<Pt>, later: seq<nat>)
  {
    ch != [] && forall k | 0 <= k < |later| :: later[k] < |pts| && !Attachable(ch, pts[later[k]])
  }

  predicate AllMaximal(pts: seq<Segment>, groups: seq<seq<nat>>, traced: seq<seq<Pt>>)
    requires |groups| == |traced|
  {
    forall c, d | 0 <= c < d < |traced| :: LeavesNothing(pts, traced[c], groups[d])
  }

  predicate AllFinished(pts: seq<Segment>, used: seq<bool>, traced: seq<seq<Pt>>)
    requires |used| == |pts|
  {
    forall c | 0 <= c < |traced| :: traced[c] != [] && NothingAttaches(pts, used, traced[c], |pts|)
  }

  // A finished chain stays finished as more segments are used.
  lemma FinishedStays(pts: seq<Segment>, used: seq<bool>, spent: set<nat>, usedMore: seq<bool>, gone: set<nat>, traced: seq<seq<Pt>>)
    requires |used| == |usedMore| == |pts| && Marks(used, spent) && Marks(usedMore, gone) && spent <= gone
    requires AllFinished(pts, used, traced)
    ensures AllFinished(pts, usedMore, traced)
  {
    hide Attachable;
    forall c | 0 <= c < |traced| ensures NothingAttaches(pts, usedMore, traced[c], |pts|) {
      assert NothingAttaches(pts, used, traced[c], |pts|);
    }
  }

  // The steps of a new chain were all unused when it was started.
  lemma NewStepsWereUnused(pts: seq<Segment>, used: seq<bool>, spent: set<nat>, gone: set<nat>, walked: seq<nat>, ch: seq<Pt>,
                           finished: seq<Pt>)
    requires |used| == |pts| && Marks(used, spent) && Accounts(gone, multiset(spent), walked) && Walks(pts, walked, ch)
    requires finished != [] && NothingAttaches(pts, used, finished, |pts|)
    ensures LeavesNothing(pts, finished, walked)
  {
    hide Attachable, Follows;
    forall k | 0 <= k < |walked| ensures !Attachable(finished, pts[walked[k]]) {
      assert walked[k] in multiset(walked);
      assert multiset(gone)[walked[k]] <= 1;
      assert multiset(spent)[walked[k]] == 0;
      assert !used[walked[k]];
    }
  }

  // What holds between two chains: used, as a set of indices, is exactly the steps
  // made so far, and every chain is a finished walk.
  ghost predicate Progress(pts: seq<Segment>, used: seq<bool>, spent: set<nat>, groups: seq<seq<nat>>, traced: seq<seq<Pt>>)
  {
    && |used| == |pts| && Marks(used, spent) && multiset(spent) == StepsOf(groups)
    && AllWalk(pts, groups, traced) && AllMaximal(pts, groups, traced) && AllFinished(pts, used, traced)
  }

  lemma NoChains(pts: seq<Segment>, used: seq<bool>)
    requires |used| == |pts| && forall k | 0 <= k < |used| :: !used[k]
    ensures Progress(pts, used, {}, [], [])
  {
  }

  lemma OneMoreWalk(pts: seq<Segment>, groups: seq<seq<nat>>, traced: seq<seq<Pt>>, walked: seq<nat>, ch: seq<Pt>)
    requires AllWalk(pts, groups, traced) && Walks(pts, walked, ch)
    ensures AllWalk(pts, groups + [walked], traced + [ch])
  {
    hide Walks;
  }

  lemma OneMoreMaximal(pts: seq<Segment>, groups: seq<seq<nat>>, traced: seq<seq<Pt>>, walked: seq<nat>, ch: seq<Pt>)
    requires |groups| == |traced| && AllMaximal(pts, groups, traced)
    requires forall c | 0 <= c < |traced| :: LeavesNothing(pts, traced[c], walked)
    ensures AllMaximal(pts, groups + [walked], traced + [ch])
  {
    hide LeavesNothing;
    var g, t := groups + [walked], traced + [ch];
    forall c, d | 0 <= c < d < |t| ensures LeavesNothing(pts, t[c], g[d]) {
      if d < |traced| {
        assert LeavesNothing(pts, traced[c], groups[d]);
      }
    }
  }

  lemma OneMoreFinished(pts: seq<Segment>, used: seq<bool>, traced: seq<seq<Pt>>, ch: seq<Pt>)
    requires |used| == |pts| && AllFinished(pts, used, traced)
    requires ch != [] && NothingAttaches(pts, used, ch, |pts|)
    ensures AllFinished(pts, used, traced + [ch])
  {
    hide NothingAttaches;
  }

  lemma OneMoreCounted(groups: seq<seq<nat>>, traced: seq<seq<Pt>>, walked: seq<nat>, ch: seq<Pt>)
    ensures StepsOf(groups + [walked]) == StepsOf(groups) + multiset(walked)
    ensures Kept(traced + [ch]) == Kept(traced) + (if |ch| > MIN_KEPT then [ch] else [])
  {
    assert (groups + [walked])[..|groups|] == groups && (traced + [ch])[..|traced|] == traced;
  }

  lemma UsedStaysUsed(was: seq<bool>, spent: set<nat>, used: seq<bool>, gone: set<nat>)
    requires |was| == |used| && Marks(was, spent) && Marks(used, gone) && spent <= gone
    ensures forall k | 0 <= k < |was| && was[k] :: used[k]
  {
  }

  lemma AddChain(pts: seq<Segment>, was: seq<bool>, spent: set<nat>, used: seq<bool>, gone: set<nat>,
                 groups: seq<seq<nat>>, traced: seq<seq<Pt>>, walked: seq<nat>, ch: seq<Pt>)
    requires Progress(pts, was, spent, groups, traced)
    requires |used| == |pts| && Marks(used, gone) && spent <= gone && Accounts(gone, multiset(spent), walked)
    requires Walks(pts, walked, ch) && NothingAttaches(pts, used, ch, |pts|)
    ensures Progress(pts, used, gone, groups + [walked], traced + [ch])
    ensures Kept(traced + [ch]) == Kept(traced) + (if |ch| > MIN_KEPT then [ch] else [])
    ensures forall k | 0 <= k < |pts| && was[k] :: used[k]
  {
    hide Walks, NothingAttaches, LeavesNothing, AllWalk, AllMaximal, Marks, StepsOf, Kept;
    OneMoreCounted(groups, traced, walked, ch);
    OneMoreWalk(pts, groups, traced, walked, ch);
    WalkStarts(pts, walked, ch);
    FinishedStays(pts, was, spent, used, gone, traced);
    OneMoreFinished(pts, used, traced, ch);
    UsedStaysUsed(was, spent, used, gone);
    forall c | 0 <= c < |traced| ensures LeavesNothing(pts, traced[c], walked) {
      NewStepsWereUnused(pts, was, spent, gone, walked, ch, traced[c]);
    }
    AllWalkSameLength(pts, groups, traced);
    OneMoreMaximal(pts, groups, traced, walked, ch);
  }

  lemma AllWalkSameLength(pts: seq<Segment>, groups: seq<seq<nat>>, traced: seq<seq<Pt>>)
    requires AllWalk(pts, groups, traced)
    ensures |groups| == |traced|
  {
  }

  lemma WalkStarts(pts: seq<Segment>, steps: seq<nat>, ch: seq<Pt>)
    requires Walks(pts, steps, ch)
    ensures ch != [] && forall k | 0 <= k < |steps| :: steps[k] < |pts|
  {
  }

  lemma AllSpent(pts: seq<Segment>, used: seq<bool>, spent: set<nat>, groups: seq<seq<nat>>, traced: seq<seq<Pt>>)
    requires Progress(pts, used, spent, groups, traced) && forall k | 0 <= k < |used| :: used[k]
    ensures StepsOf(groups) == multiset(Indices(|pts|))
  {
    forall k: nat | k < |used| ensures k in spent {
      assert used[k];
    }
    assert spent == Indices(|used|);
  }

  // The chains of a set of segments, dropped ones included. Every chain walks along the
  // segments of its group; every segment is a step of exactly one chain, once; and a
  // finished chain could not be continued with anything still unused.
  predicate Chained(segs: seq<Segment>, groups: seq<seq<nat>>, traced: seq<seq<Pt>>)
  {
    && AllWalk(Scaled(segs), groups, traced)
    && StepsOf(groups) == multiset(Indices(|segs|))
    && AllMaximal(Scaled(segs), groups, traced)
  }

  // These are the chains of more than four points, in the order of their making.
  ghost predicate ChainedInto(segs: seq<Segment>, chains: seq<seq<Pt>>)
  {
    exists groups, traced :: Chained(segs, groups, traced) && chains == Kept(traced)
  }

  method ChainSegments(segs: seq<Segment>) returns (chains: seq<seq<Pt>>)
    ensures ChainedInto(segs, chains)
  {
    hide Marks, Walks, Follows, Attachable, NothingAttaches, Indices, StepsOf, AllMaximal, AllFinished;
    var pts := Scaled(segs);
    var used := new bool[|pts|](_ => false);
    ghost var spent: set<nat> := {};
    chains := [];
    ghost var groups: seq<seq<nat>>, traced: seq<seq<Pt>> := [], [];
    NoChains(pts, used[..]);
    for i := 0 to |pts|
      invariant Progress(pts, used[..], spent, groups, traced)
      invariant forall k | 0 <= k < i :: used[k]
      invariant chains == Kept(traced)
    {
      if !used[i] {
        ghost var was := used[..];
        var ch;
        ghost var walked;
        ghost var gone;
        ch, walked, gone := Grow(pts, used, i, spent, multiset(spent));
        AddChain(pts, was, spent, used[..], gone, groups, traced, walked, ch);
        assert used[i] by { MarkedIsUsed(used[..], gone, i); }
        groups, traced, spent := groups + [walked], traced + [ch], gone;
        if |ch| > MIN_KEPT {
          chains := chains + [ch];
        }
      }
    }
    AllSpent(pts, used[..], spent, groups, traced);
    assert Chained(segs, groups, traced);
  }

  lemma MarkedIsUsed(used: seq<bool>, spent: set<nat>, k: nat)
    requires Marks(used, spent) && k in spent
    ensures k < |used| && used[k]
  {
  }
}
