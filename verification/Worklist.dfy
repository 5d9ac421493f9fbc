/** Termination of the stack-driven walks over the grant graph, which keep no set of visited
    nodes: the stack is weighed by the size of the trees still to be unfolded. */
module Worklist {
  import opened GrantGraph

  ghost function Pow(b: nat, e: nat): (p: nat)
    ensures b > 0 ==> p > 0
  {
    if e == 0 then 1 else b * Pow(b, e - 1)
  }

  lemma {:induction false} PowMonotone(b: nat, d: nat, e: nat)
    requires b > 0 && d <= e
    ensures Pow(b, d) <= Pow(b, e)
    decreases e
  {
    if d < e {
      PowMonotone(b, d, e - 1);
      assert Pow(b, e - 1) <= b * Pow(b, e - 1);
    }
  }

  /** A bound on the nodes of the tree unfolded from x, upwards or downwards. */
  ghost function Weight<G>(g: Graph<G>, up: bool, x: G): nat {
    Pow(|g| + 1, |if up then Up(g, x) else Down(g, x)|)
  }

  ghost function Load<G>(g: Graph<G>, up: bool, stack: seq<G>): nat {
    if stack == [] then 0 else Load(g, up, stack[..|stack| - 1]) + Weight(g, up, stack[|stack| - 1])
  }

  lemma {:induction false} LoadAppend<G>(g: Graph<G>, up: bool, s: seq<G>, t: seq<G>)
    ensures Load(g, up, s + t) == Load(g, up, s) + Load(g, up, t)
    decreases |t|
  {
    if t == [] {
      assert s + t == s;
    } else {
      LoadAppend(g, up, s, t[..|t| - 1]);
      assert (s + t)[..|s + t| - 1] == s + t[..|t| - 1];
    }
  }

  lemma {:induction false} LoadBound<G>(g: Graph<G>, up: bool, t: seq<G>, w: nat)
    requires forall i | 0 <= i < |t| :: Weight(g, up, t[i]) <= w
    ensures Load(g, up, t) <= |t| * w
    decreases |t|
  {
    if t != [] {
      var n := |t| - 1;
      LoadBound(g, up, t[..n], w);
      assert Weight(g, up, t[n]) <= w;
      assert (n + 1) * w == n * w + w;
    }
  }

  ghost predicate Lists<G>(t: seq<G>, s: set<G>) {
    |t| == |s| && (forall x | x in t :: x in s) && (forall x | x in s :: x in t)
  }

  /** Replacing the top of the stack by its neighbours makes the stack lighter. */
  lemma PopPushShrinks<G>(g: Graph<G>, up: bool, s: seq<G>, x: G, t: seq<G>)
    requires WellFormed(g) && x in g && Lists(t, if up then g[x].roles else g[x].grantees)
    ensures Load(g, up, s + t) < Load(g, up, s + [x])
  {
    LoadAppend(g, up, s, t);
    LoadAppend(g, up, s, [x]);
    assert Load(g, up, [x]) == Weight(g, up, x) by { assert [x][..0] == []; }
    NeighboursLighter(g, up, x, t);
  }

  lemma NeighboursLighter<G>(g: Graph<G>, up: bool, x: G, t: seq<G>)
    requires WellFormed(g) && x in g && Lists(t, if up then g[x].roles else g[x].grantees)
    ensures Load(g, up, t) < Weight(g, up, x)
  {
    if t != [] {
      var near := if up then g[x].roles else g[x].grantees;
      var d := |if up then Up(g, x) else Down(g, x)|;
      NeighbourLighter(g, up, x, t[0]);
      var p := Pow(|g| + 1, d - 1);
      forall i | 0 <= i < |t| ensures Weight(g, up, t[i]) <= p {
        NeighbourLighter(g, up, x, t[i]);
      }
      LoadBound(g, up, t, p);
      SubsetSize(near, g.Keys);
      FewerCopies(|t|, |g|, p);
    }
  }

  lemma FewerCopies(m: nat, n: nat, p: nat)
    requires m <= n && p > 0
    ensures m * p < (n + 1) * p
  {
    assert (n + 1 - m) * p > 0;
  }

  lemma NeighbourLighter<G>(g: Graph<G>, up: bool, x: G, y: G)
    requires WellFormed(g) && x in g && y in if up then g[x].roles else g[x].grantees
    ensures var d := |if up then Up(g, x) else Down(g, x)|;
            d >= 1 && Weight(g, up, y) <= Pow(|g| + 1, d - 1)
  {
    if up {
      LinkShrinks(g, x, y);
      StrictSubsetSize(Up(g, y), Up(g, x));
      PowMonotone(|g| + 1, |Up(g, y)|, |Up(g, x)| - 1);
    } else {
      LinkShrinks(g, y, x);
      StrictSubsetSize(Down(g, y), Down(g, x));
      PowMonotone(|g| + 1, |Down(g, y)|, |Down(g, x)| - 1);
    }
  }

  lemma StrictSubsetSize<G>(a: set<G>, b: set<G>)
    requires a < b
    ensures |a| < |b|
  {
    SubsetSize(a, b);
    assert b - a != {} && |b| == |b - a| + |a| by { assert b == (b - a) + a; }
  }

  lemma SubsetSize<G>(a: set<G>, b: set<G>)
    requires a <= b
    ensures |a| <= |b|
  {
    assert b == (b - a) + a;
  }

  /** Push every element of the set, in any order. */
  method PushAll<G(==)>(stack: seq<G>, s: set<G>) returns (out: seq<G>, ghost pushed: seq<G>)
    ensures out == stack + pushed && Lists(pushed, s)
  {
    out, pushed := stack, [];
    var rest := s;
    while rest != {}
      invariant rest <= s && out == stack + pushed && Lists(pushed, s - rest)
    {
      var x :| x in rest;
      assert s - (rest - {x}) == (s - rest) + {x};
      rest := rest - {x};
      out, pushed := out + [x], pushed + [x];
    }
    assert s - rest == s;
  }

  // ---------------------------------------------------------------- the two walks

  /** Everything stacked is on the far side of `from`, and `goal` is still to be met if it is. */
  ghost predicate Searching<G>(g: Graph<G>, up: bool, from: G, goal: G, stack: seq<G>) {
    && (forall x | x in stack :: x in g && Leads(g, up, from, x))
    && (Leads(g, up, from, goal) ==> exists x | x in stack :: Leads(g, up, x, goal))
  }

  ghost predicate Leads<G>(g: Graph<G>, up: bool, x: G, y: G) {
    if up then Reaches(g, x, y) else Reaches(g, y, x)
  }

  lemma SearchStarts<G>(g: Graph<G>, up: bool, from: G, goal: G)
    requires from in g
    ensures Searching(g, up, from, goal, [from])
  {
    ReachesSelf(g, from);
  }

  /** Nothing left to look at: the goal is not there. */
  lemma SearchFails<G>(g: Graph<G>, up: bool, from: G, goal: G)
    requires Searching(g, up, from, goal, [])
    ensures !Leads(g, up, from, goal)
  {
  }

  lemma SearchStep<G>(g: Graph<G>, up: bool, from: G, goal: G, stack: seq<G>, top: G, t: seq<G>)
    requires WellFormed(g) && Searching(g, up, from, goal, stack + [top]) && goal != top
    requires top in g && Lists(t, if up then g[top].roles else g[top].grantees)
    ensures Searching(g, up, from, goal, stack + t)
    ensures Load(g, up, stack + t) < Load(g, up, stack + [top])
  {
    PopPushShrinks(g, up, stack, top, t);
    assert top in stack + [top];
    forall x | x in t ensures x in g && Leads(g, up, from, x) { StepAway(g, up, from, top, x); }
    if Leads(g, up, from, goal) {
      var x :| x in stack + [top] && Leads(g, up, x, goal);
      if x in stack {
        assert x in stack + t;
      } else {
        var y := StepTowards(g, up, top, goal);
        assert y in stack + t;
      }
    }
  }

  lemma StepAway<G>(g: Graph<G>, up: bool, from: G, top: G, x: G)
    requires Linked(g) && top in g && Leads(g, up, from, top)
    requires x in if up then g[top].roles else g[top].grantees
    ensures x in g && Leads(g, up, from, x)
  {
    if up {
      ReachesRole(g, top, x);
      ReachesTransitive(g, from, top, x);
    } else {
      ReachesRole(g, x, top);
      ReachesTransitive(g, x, top, from);
    }
  }

  lemma StepTowards<G>(g: Graph<G>, up: bool, top: G, goal: G) returns (y: G)
    requires Linked(g) && top in g && goal != top && Leads(g, up, top, goal)
    ensures (y in if up then g[top].roles else g[top].grantees) && Leads(g, up, y, goal)
  {
    if up {
      ReachesFirstStep(g, top, goal);
      y :| y in g[top].roles && Reaches(g, y, goal);
    } else {
      ReachesLastStep(g, goal, top);
      y :| y in g[top].grantees && Reaches(g, goal, y);
    }
  }

  lemma {:induction false} ReachesInLastStep<G>(g: Graph<G>, x: G, y: G, n: nat)
    requires ReachesIn(g, x, y, n) && n > 0
    ensures exists z | z in g :: ReachesIn(g, x, z, n - 1) && y in g[z].roles
    decreases n
  {
    var w :| w in g[x].roles && ReachesIn(g, w, y, n - 1);
    if n > 1 {
      ReachesInLastStep(g, w, y, n - 1);
      var z :| z in g && ReachesIn(g, w, z, n - 2) && y in g[z].roles;
      assert ReachesIn(g, x, z, n - 1);
    } else {
      assert ReachesIn(g, x, x, 0);
    }
  }

  lemma ReachesLastStep<G>(g: Graph<G>, x: G, y: G)
    requires Linked(g) && y in g && Reaches(g, x, y)
    ensures x == y || exists z | z in g[y].grantees :: Reaches(g, x, z)
  {
    var n: nat :| ReachesIn(g, x, y, n);
    if n > 0 {
      ReachesInLastStep(g, x, y, n);
      var z :| z in g && ReachesIn(g, x, z, n - 1) && y in g[z].roles;
      assert z in g[y].grantees && Reaches(g, x, z);
    }
  }

  /** Collecting: `found` are nodes strictly above `from`; what is missing is strictly above
      something stacked. */
  ghost predicate Collecting<G>(g: Graph<G>, from: G, stack: seq<G>, found: set<G>) {
    && (forall x | x in stack :: x in g && Reaches(g, from, x))
    && found <= Up(g, from) - {from}
    && (forall r | r in Up(g, from) - {from} - found :: exists x | x in stack :: x != r && Reaches(g, x, r))
  }

  lemma CollectStarts<G>(g: Graph<G>, from: G)
    requires from in g
    ensures Collecting(g, from, [from], {})
  {
    ReachesSelf(g, from);
    assert from in [from];
  }

  lemma CollectStep<G>(g: Graph<G>, from: G, stack: seq<G>, top: G, t: seq<G>, found: set<G>)
    requires WellFormed(g) && from in g && Collecting(g, from, stack + [top], found)
    requires top in g && Lists(t, g[top].roles)
    ensures Collecting(g, from, stack + t, found + g[top].roles)
    ensures Load(g, true, stack + t) < Load(g, true, stack + [top])
  {
    PopPushShrinks(g, true, stack, top, t);
    assert top in stack + [top];
    forall x | x in g[top].roles ensures x in g && Reaches(g, from, x) && x != from {
      StepAway(g, true, from, top, x);
      if x == from {
        ReachesRole(g, top, x);
        ReachesAntisymmetric(g, from, top);
        LinkShrinks(g, top, x);
      }
    }
    forall r | r in Up(g, from) - {from} - (found + g[top].roles)
      ensures exists x | x in stack + t :: x != r && Reaches(g, x, r)
    {
      assert r in Up(g, from) - {from} - found;
      var x :| x in stack + [top] && x != r && Reaches(g, x, r);
      if x in stack {
        assert x in stack + t;
      } else {
        var y := StepTowards(g, true, top, r);
        assert y in stack + t && y != r;
      }
    }
  }

  lemma CollectEnds<G>(g: Graph<G>, from: G, found: set<G>)
    requires Collecting(g, from, [], found)
    ensures found == Up(g, from) - {from}
  {
    assert Up(g, from) - {from} - found == {};
  }
}
