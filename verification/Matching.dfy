/**
  Maximum bipartite matching as gmock computes it for unordered matchers: an in-place
  depth-first augmentation over two mutually referring vectors, the certificate that makes
  its answer a maximum, and the verdict FindPairing draws from it.
*/
module Matching {

  // The value size_t(-1) that marks an unmatched node.
  const UNUSED: nat := 0xFFFF_FFFF_FFFF_FFFF

  /** Which element (left) satisfies which matcher (right). */
  datatype MatchMatrix = MatchMatrix(lhs: nat, rhs: nat, matched: seq<seq<bool>>) {
    ghost predicate Valid() {
      && lhs <= UNUSED && rhs <= UNUSED
      && |matched| == lhs
      && forall l :: 0 <= l < lhs ==> |matched[l]| == rhs
    }

    predicate HasEdge(l: nat, r: nat)
      requires Valid()
    {
      l < lhs && r < rhs && matched[l][r]
    }
  }

  type Graph = g: MatchMatrix | g.Valid() witness MatchMatrix(0, 0, [])
  type Pair = (nat, nat)

  // ---------------------------------------------------------------- graph theory

  ghost predicate IsMatching(g: Graph, m: set<Pair>) {
    && (forall e :: e in m ==> g.HasEdge(e.0, e.1))
    && (forall e, f :: e in m && f in m && (e.0 == f.0 || e.1 == f.1) ==> e == f)
  }

  ghost predicate IsMaximum(g: Graph, m: set<Pair>) {
    IsMatching(g, m) && forall n :: IsMatching(g, n) ==> |n| <= |m|
  }

  /** Every edge of m has its left end in ls or its right end in rs. */
  ghost predicate Covers(m: set<Pair>, ls: set<nat>, rs: set<nat>) {
    forall e :: e in m ==> e.0 in ls || e.1 in rs
  }

  /** Weak duality: a matching has at most one edge per vertex of a cover. */
  lemma {:induction false} MatchingWithinCover(g: Graph, m: set<Pair>, ls: set<nat>, rs: set<nat>)
    requires IsMatching(g, m) && Covers(m, ls, rs)
    ensures |m| <= |ls| + |rs|
    decreases |m|
  {
    if m == {} {
    } else {
      var e :| e in m;
      var rest := m - {e};
      if e.0 in ls {
        assert Covers(rest, ls - {e.0}, rs);
        MatchingWithinCover(g, rest, ls - {e.0}, rs);
      } else {
        assert Covers(rest, ls, rs - {e.1});
        MatchingWithinCover(g, rest, ls, rs - {e.1});
      }
    }
  }

  // ---------------------------------------------------------------- the two vectors

  ghost predicate InRange(g: Graph, left: seq<nat>, right: seq<nat>) {
    && |left| == g.lhs && |right| == g.rhs
    && (forall l :: 0 <= l < g.lhs && left[l] != UNUSED ==> g.HasEdge(l, left[l]))
    && (forall r :: 0 <= r < g.rhs && right[r] != UNUSED ==> right[r] < g.lhs)
  }

  /** Elements are unused or mutually referent, except perhaps the right node `stale`. */
  ghost predicate MutualBut(g: Graph, left: seq<nat>, right: seq<nat>, stale: nat) {
    && InRange(g, left, right)
    && (forall l :: 0 <= l < g.lhs && left[l] != UNUSED ==> right[left[l]] == l)
    && (forall r :: 0 <= r < g.rhs && right[r] != UNUSED && r != stale ==> left[right[r]] == r)
  }

  ghost predicate Mutual(g: Graph, left: seq<nat>, right: seq<nat>) {
    MutualBut(g, left, right, UNUSED)
  }

  ghost predicate NeighboursIn(g: Graph, l: nat, c: set<nat>) {
    forall r: nat :: g.HasEdge(l, r) ==> r in c
  }

  /** A dead end of the residual graph: matched right nodes whose partners lead nowhere else. */
  ghost predicate Closed(g: Graph, right: seq<nat>, c: set<nat>)
    requires |right| == g.rhs
  {
    forall r: nat :: r in c ==> r < g.rhs && right[r] != UNUSED && NeighboursIn(g, right[r], c)
  }

  ghost function SeenSet(seen: seq<bool>): set<nat> {
    set r: nat | r < |seen| && seen[r]
  }

  ghost function Unseen(seen: seq<bool>): nat {
    |set r: nat | r < |seen| && !seen[r]|
  }

  ghost predicate Grown(before: seq<bool>, after: seq<bool>) {
    |before| == |after| && forall r :: 0 <= r < |before| && before[r] ==> after[r]
  }

  /** Everything seen since `before` is matched, to nodes all of whose neighbours are seen. */
  ghost predicate NewlySeenClosed(g: Graph, right: seq<nat>, before: seq<bool>, after: seq<bool>)
    requires |right| == |before| == |after| == g.rhs
  {
    forall r :: 0 <= r < g.rhs && after[r] && !before[r] ==>
                  right[r] != UNUSED && NeighboursIn(g, right[r], SeenSet(after))
  }

  /** What a failed search from l has established. */
  ghost predicate DeadEnd(g: Graph, l: nat, right: seq<nat>, before: seq<bool>, after: seq<bool>)
    requires |right| == |before| == |after| == g.rhs
  {
    NeighboursIn(g, l, SeenSet(after)) && NewlySeenClosed(g, right, before, after)
  }

  /**
    What a successful search from l has done: l is linked, no link was lost, only the former
    partner of l may not be mutually referent, and l itself could not have been confined to
    the closed set c. Right nodes seen before or in c kept their partners; so did every other
    left node that was free or linked to a node seen before.
  */
  ghost predicate Augmented(g: Graph, l: nat, left0: seq<nat>, left: seq<nat>,
                            right0: seq<nat>, right: seq<nat>, seen0: seq<bool>, c: set<nat>)
    requires InRange(g, left0, right0) && |seen0| == g.rhs && l < g.lhs
  {
    && MutualBut(g, left, right, left0[l])
    && left[l] != UNUSED && !seen0[left[l]]
    && (forall i :: 0 <= i < g.lhs && left0[i] != UNUSED ==> left[i] != UNUSED)
    && (forall i :: 0 <= i < g.lhs && i != l && (left0[i] == UNUSED || seen0[left0[i]]) ==> left[i] == left0[i])
    && (forall r :: 0 <= r < g.rhs && (seen0[r] || r in c) ==> right[r] == right0[r])
    && !NeighboursIn(g, l, c)
  }

  /** Linking l to a free right node is an augmentation. */
  lemma LinkFree(g: Graph, l: nat, r: nat, left0: seq<nat>, right0: seq<nat>, seen0: seq<bool>, c: set<nat>)
    requires Mutual(g, left0, right0) && Closed(g, right0, c) && |seen0| == g.rhs
    requires g.HasEdge(l, r) && !seen0[r] && right0[r] == UNUSED
    requires left0[l] != UNUSED ==> seen0[left0[l]]
    ensures Augmented(g, l, left0, left0[l := r], right0, right0[r := l], seen0, c)
  {
  }

  /** Handing r over to l completes an augmentation from the partner r had. */
  lemma LinkFreed(g: Graph, l: nat, r: nat, left0: seq<nat>, left1: seq<nat>,
                  right0: seq<nat>, right1: seq<nat>, seen0: seq<bool>, seen1: seq<bool>, c: set<nat>)
    requires Mutual(g, left0, right0) && Closed(g, right0, c) && Grown(seen0, seen1) && |seen0| == g.rhs
    requires g.HasEdge(l, r) && !seen0[r] && seen1[r] && right0[r] != UNUSED
    requires left0[l] != UNUSED ==> seen0[left0[l]]
    requires Augmented(g, right0[r], left0, left1, right0, right1, seen1, c)
    ensures Augmented(g, l, left0, left1[l := r], right0, right1[r := l], seen0, c)
  {
    var k := right0[r];
    assert left0[k] == r && k != l;
    assert r !in c;
    assert left1[l] == left0[l];
    var left2, right2 := left1[l := r], right1[r := l];
    assert InRange(g, left2, right2);
    forall i | 0 <= i < g.lhs && left2[i] != UNUSED ensures right2[left2[i]] == i {
      if i != l {
        assert right1[left1[i]] == i;
      }
    }
    forall i | 0 <= i < g.rhs && right2[i] != UNUSED && i != left0[l] ensures left2[right2[i]] == i {
      if i != r {
        assert left1[right1[i]] == i;
      }
    }
  }

  lemma UnseenShrinks(before: seq<bool>, after: seq<bool>, r: nat)
    requires Grown(before, after) && r < |before|
    requires !before[r] && after[r]
    ensures Unseen(after) < Unseen(before)
  {
    var a, b := set i: nat | i < |after| && !after[i], set i: nat | i < |before| && !before[i];
    assert r in b && r !in a && a <= b;
    assert a <= b - {r};
    CardinalityMonotone(a, b - {r});
  }

  lemma CardinalityMonotone(a: set<nat>, b: set<nat>)
    requires a <= b
    ensures |a| <= |b|
  {
    assert b == a + (b - a) && a !! (b - a);
    assert |b| == |a| + |b - a|;
  }

  // ---------------------------------------------------------------- pairs of a state

  /** The matched pairs among the first n left nodes, in order. */
  function PairsUpTo(left: seq<nat>, n: nat): (ps: seq<Pair>)
    requires n <= |left|
  {
    if n == 0 then []
    else PairsUpTo(left, n - 1) + (if left[n - 1] == UNUSED then [] else [(n - 1, left[n - 1])])
  }

  ghost function Elements(ps: seq<Pair>): set<Pair> {
    set p | p in ps
  }

  ghost predicate IsLink(left: seq<nat>, n: nat, p: Pair) {
    p.0 < n <= |left| && left[p.0] != UNUSED && p.1 == left[p.0]
  }

  ghost function Used(left: seq<nat>, n: nat): set<nat>
    requires n <= |left|
  {
    set l: nat | l < n && left[l] != UNUSED
  }

  lemma {:induction false} PairsAreLinks(left: seq<nat>, n: nat)
    requires n <= |left|
    ensures forall p :: p in PairsUpTo(left, n) ==> IsLink(left, n, p)
  {
    if n > 0 {
      PairsAreLinks(left, n - 1);
      forall p | p in PairsUpTo(left, n) ensures IsLink(left, n, p) {
        assert p in PairsUpTo(left, n - 1) ==> IsLink(left, n - 1, p);
      }
    }
  }

  lemma ElementsAppend(ps: seq<Pair>, p: Pair)
    requires p !in ps
    ensures |Elements(ps + [p])| == |Elements(ps)| + 1
  {
    assert Elements(ps + [p]) == Elements(ps) + {p};
  }

  lemma UsedStep(left: seq<nat>, n: nat)
    requires 0 < n <= |left|
    ensures |Used(left, n)| == |Used(left, n - 1)| + if left[n - 1] == UNUSED then 0 else 1
  {
    if left[n - 1] == UNUSED {
      assert Used(left, n) == Used(left, n - 1);
    } else {
      assert Used(left, n) == Used(left, n - 1) + {n - 1};
    }
  }

  lemma {:induction false} PairsUpToCount(left: seq<nat>, n: nat)
    requires n <= |left|
    ensures |Elements(PairsUpTo(left, n))| == |PairsUpTo(left, n)| == |Used(left, n)|
  {
    if n > 0 {
      PairsUpToCount(left, n - 1);
      UsedStep(left, n);
      var before := PairsUpTo(left, n - 1);
      if left[n - 1] != UNUSED {
        var last := (n - 1, left[n - 1]);
        assert last !in before by {
          PairsAreLinks(left, n - 1);
          assert !IsLink(left, n - 1, last);
        }
        ElementsAppend(before, last);
      } else {
        assert PairsUpTo(left, n) == before;
      }
    }
  }

  lemma PairsFormMatching(g: Graph, left: seq<nat>, right: seq<nat>)
    requires Mutual(g, left, right)
    ensures IsMatching(g, Elements(PairsUpTo(left, g.lhs)))
  {
    PairsAreLinks(left, g.lhs);
    var m := Elements(PairsUpTo(left, g.lhs));
    forall e | e in m ensures g.HasEdge(e.0, e.1) && left[e.0] == e.1 && right[e.1] == e.0 {
      assert IsLink(left, g.lhs, e);
    }
  }

  // ---------------------------------------------------------------- the certificate

  /**
    Konig's construction. When every unmatched left node sees only a closed set c, the
    matched left nodes outside c together with c itself cover all edges and are as many as
    the matched pairs, so no matching is larger.
  */
  lemma ClosedSetCertifies(g: Graph, left: seq<nat>, right: seq<nat>, c: set<nat>)
    requires Mutual(g, left, right) && Closed(g, right, c)
    requires forall l :: 0 <= l < g.lhs && left[l] == UNUSED ==> NeighboursIn(g, l, c)
    ensures IsMaximum(g, Elements(PairsUpTo(left, g.lhs)))
  {
    PairsFormMatching(g, left, right);
    PairsUpToCount(left, g.lhs);
    forall n | IsMatching(g, n) ensures |n| <= |Elements(PairsUpTo(left, g.lhs))| {
      NoLargerMatching(g, left, right, c, n);
    }
  }

  lemma NoLargerMatching(g: Graph, left: seq<nat>, right: seq<nat>, c: set<nat>, n: set<Pair>)
    requires Mutual(g, left, right) && Closed(g, right, c)
    requires forall l :: 0 <= l < g.lhs && left[l] == UNUSED ==> NeighboursIn(g, l, c)
    requires IsMatching(g, n)
    ensures |n| <= |Used(left, g.lhs)|
  {
    var inside := set r | r in c :: right[r];
    var past := Used(left, g.lhs) - inside;
    assert |past| + |c| == |Used(left, g.lhs)| by {
      PartnersCount(left, right, c);
      assert inside <= Used(left, g.lhs);
      assert Used(left, g.lhs) == inside + past;
    }
    forall e: Pair | e in n ensures e.0 in past || e.1 in c {
      if e.1 !in c {
        MatchedOutside(g, left, right, c, e);
      }
    }
    MatchingWithinCover(g, n, past, c);
  }

  lemma {:induction false} PartnersCount(left: seq<nat>, right: seq<nat>, c: set<nat>)
    requires forall r :: r in c ==> r < |right| && right[r] < |left| && left[right[r]] == r
    ensures |set r | r in c :: right[r]| == |c|
    decreases |c|
  {
    var image := set r | r in c :: right[r];
    if c != {} {
      var r :| r in c;
      PartnersCount(left, right, c - {r});
      assert image == (set i | i in c - {r} :: right[i]) + {right[r]};
    }
  }

  /** An edge that ends outside c starts at a node matched outside c. */
  lemma MatchedOutside(g: Graph, left: seq<nat>, right: seq<nat>, c: set<nat>, e: Pair)
    requires Mutual(g, left, right) && Closed(g, right, c)
    requires forall l :: 0 <= l < g.lhs && left[l] == UNUSED ==> NeighboursIn(g, l, c)
    requires g.HasEdge(e.0, e.1) && e.1 !in c
    ensures left[e.0] != UNUSED && left[e.0] !in c
  {
    assert !NeighboursIn(g, e.0, c);
  }

  // ---------------------------------------------------------------- the search

  /** The state after the first n left nodes have been tried: the failed ones see only c. */
  ghost predicate Searched(g: Graph, left: seq<nat>, right: seq<nat>, n: nat, c: set<nat>) {
    && Mutual(g, left, right) && Closed(g, right, c)
    && (forall l :: n <= l < g.lhs ==> left[l] == UNUSED)
    && (forall l :: 0 <= l < n && l < g.lhs && left[l] == UNUSED ==> NeighboursIn(g, l, c))
  }

  lemma SearchSucceeded(g: Graph, left0: seq<nat>, left: seq<nat>, right0: seq<nat>, right: seq<nat>,
                        seen0: seq<bool>, n: nat, c: set<nat>)
    requires Searched(g, left0, right0, n, c) && n < g.lhs && |seen0| == g.rhs
    requires Augmented(g, n, left0, left, right0, right, seen0, c)
    ensures Searched(g, left, right, n + 1, c)
  {
  }

  lemma SearchFailed(g: Graph, left: seq<nat>, right: seq<nat>, seen0: seq<bool>, seen: seq<bool>,
                     n: nat, c: set<nat>)
    requires Searched(g, left, right, n, c) && n < g.lhs && |seen0| == |seen| == g.rhs
    requires forall r :: 0 <= r < g.rhs ==> !seen0[r]
    requires DeadEnd(g, n, right, seen0, seen)
    ensures Searched(g, left, right, n + 1, c + SeenSet(seen))
  {
  }

  class MaxBipartiteMatchState {
    const graph: Graph
    const left: array<nat>
    const right: array<nat>

    ghost predicate Shaped()
      reads this
    {
      left.Length == graph.lhs && right.Length == graph.rhs && left != right
    }

    constructor (g: Graph)
      ensures graph == g && Shaped() && fresh(left) && fresh(right)
      ensures forall l :: 0 <= l < g.lhs ==> left[l] == UNUSED
      ensures forall r :: 0 <= r < g.rhs ==> right[r] == UNUSED
    {
      graph := g;
      left := new nat[g.lhs](_ => UNUSED);
      right := new nat[g.rhs](_ => UNUSED);
    }

    /**
      Searches the residual graph from ilhs for a free right node, relinking along the way
      back. The ghost set c is any closed set; the search cannot succeed through it.
    */
    method TryAugment(ilhs: nat, seen: array<bool>, ghost c: set<nat>) returns (found: bool)
      requires Shaped() && seen.Length == graph.rhs && ilhs < graph.lhs
      requires Mutual(graph, left[..], right[..]) && Closed(graph, right[..], c)
      requires left[ilhs] != UNUSED ==> seen[left[ilhs]]
      modifies left, right, seen
      decreases Unseen(seen[..])
      ensures Grown(old(seen[..]), seen[..])
      ensures !found ==> left[..] == old(left[..]) && right[..] == old(right[..])
      ensures !found ==> DeadEnd(graph, ilhs, right[..], old(seen[..]), seen[..])
      ensures found ==> Augmented(graph, ilhs, old(left[..]), left[..], old(right[..]), right[..],
                                  old(seen[..]), c)
    {
      ghost var left0, right0, seen0 := left[..], right[..], seen[..];
      var irhs := 0;
      while irhs < graph.rhs
        invariant irhs <= graph.rhs
        invariant left[..] == left0 && right[..] == right0
        invariant Grown(seen0, seen[..])
        invariant forall r: nat :: r < irhs && graph.HasEdge(ilhs, r) ==> seen[r]
        invariant NewlySeenClosed(graph, right0, seen0, seen[..])
      {
        if !seen[irhs] && graph.HasEdge(ilhs, irhs) {
          ghost var seen1 := seen[..];
          seen[irhs] := true;
          ghost var seenHere := seen[..];
          UnseenShrinks(seen0, seenHere, irhs);
          var free := right[irhs] == UNUSED;
          if !free {
            free := TryAugment(right[irhs], seen, c);
          }
          if free {
            if right0[irhs] == UNUSED {
              LinkFree(graph, ilhs, irhs, left0, right0, seen0, c);
            } else {
              LinkFreed(graph, ilhs, irhs, left0, left[..], right0, right[..], seen0, seenHere, c);
            }
            left[ilhs] := irhs;
            right[irhs] := ilhs;
            return true;
          }
          assert SeenSet(seen1) <= SeenSet(seen[..]);
        }
        irhs := irhs + 1;
      }
      found := false;
    }

    /** Tries every left node once; the pairs it ends with are a maximum matching. */
    method Compute() returns (pairs: seq<Pair>)
      requires Shaped()
      requires forall l :: 0 <= l < graph.lhs ==> left[l] == UNUSED
      requires forall r :: 0 <= r < graph.rhs ==> right[r] == UNUSED
      modifies left, right
      ensures Mutual(graph, left[..], right[..])
      ensures pairs == PairsUpTo(left[..], graph.lhs)
      ensures |Elements(pairs)| == |pairs| && IsMaximum(graph, Elements(pairs))
    {
      ghost var c: set<nat> := {};
      var seen := new bool[graph.rhs];
      var ilhs := 0;
      while ilhs < graph.lhs
        invariant ilhs <= graph.lhs && fresh(seen) && seen.Length == graph.rhs
        invariant Searched(graph, left[..], right[..], ilhs, c)
      {
        ghost var left0, right0 := left[..], right[..];
        forall r | 0 <= r < graph.rhs {
          seen[r] := false;
        }
        ghost var seen0 := seen[..];
        assert left[..] == left0 && right[..] == right0;
        assert left[ilhs] == UNUSED;
        var found := TryAugment(ilhs, seen, c);
        if found {
          SearchSucceeded(graph, left0, left[..], right0, right[..], seen0, ilhs, c);
        } else {
          SearchFailed(graph, left0, right0, seen0, seen[..], ilhs, c);
          c := c + SeenSet(seen[..]);
        }
        ilhs := ilhs + 1;
      }
      pairs := MatchedPairs();
      ClosedSetCertifies(graph, left[..], right[..], c);
    }

    /** The links of left_, in the order of the left nodes. */
    method MatchedPairs() returns (pairs: seq<Pair>)
      requires Shaped()
      ensures pairs == PairsUpTo(left[..], graph.lhs)
      ensures |Elements(pairs)| == |pairs|
    {
      pairs := [];
      for l := 0 to graph.lhs
        invariant pairs == PairsUpTo(left[..], l)
      {
        var r := left[l];
        if r != UNUSED {
          pairs := pairs + [(l, r)];
        }
      }
      PairsUpToCount(left[..], graph.lhs);
    }
  }

  method FindMaxBipartiteMatching(g: Graph) returns (pairs: seq<Pair>)
    ensures |Elements(pairs)| == |pairs| && IsMaximum(g, Elements(pairs))
  {
    var state := new MaxBipartiteMatchState(g);
    pairs := state.Compute();
  }

  // ---------------------------------------------------------------- the verdict

  ghost predicate HasLeft(m: set<Pair>, l: nat) {
    exists e :: e in m && e.0 == l
  }

  ghost predicate HasRight(m: set<Pair>, r: nat) {
    exists e :: e in m && e.1 == r
  }

  ghost predicate SaturatesLeft(g: Graph, m: set<Pair>) {
    forall l: nat :: l < g.lhs ==> HasLeft(m, l)
  }

  ghost predicate SaturatesRight(g: Graph, m: set<Pair>) {
    forall r: nat :: r < g.rhs ==> HasRight(m, r)
  }

  ghost function Below(n: nat): (s: set<nat>)
    ensures forall i: nat :: i in s <==> i < n
    ensures |s| == n
  {
    if n == 0 then {} else Below(n - 1) + {n - 1}
  }

  lemma {:induction false} LeftEndsCount(g: Graph, m: set<Pair>)
    requires IsMatching(g, m)
    ensures |set p | p in m :: p.0| == |m|
    decreases |m|
  {
    if m != {} {
      var e :| e in m;
      var rest := m - {e};
      LeftEndsCount(g, rest);
      var ends := set p | p in rest :: p.0;
      assert e.0 !in ends;
      assert (set p | p in m :: p.0) == ends + {e.0};
    }
  }

  lemma {:induction false} RightEndsCount(g: Graph, m: set<Pair>)
    requires IsMatching(g, m)
    ensures |set p | p in m :: p.1| == |m|
    decreases |m|
  {
    if m != {} {
      var e :| e in m;
      var rest := m - {e};
      RightEndsCount(g, rest);
      var ends := set p | p in rest :: p.1;
      assert e.1 !in ends;
      assert (set p | p in m :: p.1) == ends + {e.1};
    }
  }

  lemma EqualWhenAsLarge(a: set<nat>, b: set<nat>)
    requires a <= b && |a| >= |b|
    ensures a == b
  {
    assert b == a + (b - a) && a !! (b - a);
    assert |b| == |a| + |b - a|;
  }

  /** A matching saturates a side exactly when it has as many edges as the side has nodes. */
  lemma SaturationIsSize(g: Graph, m: set<Pair>)
    requires IsMatching(g, m)
    ensures SaturatesLeft(g, m) <==> |m| >= g.lhs
    ensures SaturatesRight(g, m) <==> |m| >= g.rhs
  {
    var ls := set p | p in m :: p.0;
    var rs := set p | p in m :: p.1;
    assert |ls| == |m| by { LeftEndsCount(g, m); }
    assert |rs| == |m| by { RightEndsCount(g, m); }
    assert forall l: nat :: l in ls <==> HasLeft(m, l);
    assert forall r: nat :: r in rs <==> HasRight(m, r);
    FullWhenAsLarge(ls, g.lhs);
    FullWhenAsLarge(rs, g.rhs);
  }

  lemma FullWhenAsLarge(s: set<nat>, n: nat)
    requires forall i :: i in s ==> i < n
    ensures (forall i: nat :: i < n ==> i in s) <==> |s| >= n
  {
    var all := Below(n);
    assert s <= all;
    if |s| >= n {
      EqualWhenAsLarge(s, all);
    }
    if forall i: nat :: i < n ==> i in s {
      assert s == all;
    }
  }

  /** Some matching leaves no matcher (superset) and no element (subset) without a partner. */
  ghost predicate Satisfiable(g: Graph, superset: bool, subset: bool) {
    exists m :: IsMatching(g, m) && (superset ==> SaturatesRight(g, m)) && (subset ==> SaturatesLeft(g, m))
  }

  /** The two match flags of UnorderedMatcherRequire; ExactMatch sets both. */
  method FindPairing(g: Graph, superset: bool, subset: bool) returns (accepted: bool)
    ensures accepted <==> Satisfiable(g, superset, subset)
  {
    var matches := FindMaxBipartiteMatching(g);
    ghost var m := Elements(matches);
    SaturationIsSize(g, m);
    assert forall n :: IsMatching(g, n) ==> |n| <= |m|;
    forall n | IsMatching(g, n)
      ensures SaturatesRight(g, n) ==> |m| >= g.rhs
      ensures SaturatesLeft(g, n) ==> |m| >= g.lhs
    {
      SaturationIsSize(g, n);
    }
    var maxFlow := |matches|;
    if superset && maxFlow < g.rhs {
      return false;
    }
    if subset && maxFlow < g.lhs {
      return false;
    }
    return true;
  }
}
