/** What each grant and revoke does to the graph, and what holds of every run of them. */
module GrantOps {
  import opened GrantGraph

  // ---------------------------------------------------------------- edits of the graph

  ghost function WithDirect<G>(g: Graph<G>, x: G, d: PrivMap): (r: Graph<G>)
    requires x in g
  {
    g[x := g[x].(direct := d)]
  }

  ghost function WithEdge<G>(g: Graph<G>, x: G, r: G): Graph<G>
    requires x in g && r in g
  {
    map y | y in g ::
      g[y].(roles := if y == x then g[y].roles + {r} else g[y].roles,
            grantees := if y == r then g[y].grantees + {x} else g[y].grantees)
  }

  ghost function WithoutEdge<G>(g: Graph<G>, x: G, r: G): Graph<G>
    requires x in g && r in g
  {
    map y | y in g ::
      g[y].(roles := if y == x then g[y].roles - {r} else g[y].roles,
            grantees := if y == r then g[y].grantees - {x} else g[y].grantees)
  }

  ghost function WithoutNode<G>(g: Graph<G>, x: G): Graph<G> {
    map y | y in g && y != x :: g[y].(roles := g[y].roles - {x}, grantees := g[y].grantees - {x})
  }

  /** x is taken from the grantees in s. */
  ghost function WithoutEdges<G>(g: Graph<G>, x: G, s: set<G>): Graph<G> {
    map y | y in g :: g[y].(roles := if y in s then g[y].roles - {x} else g[y].roles,
                            grantees := if y == x then g[y].grantees - s else g[y].grantees)
  }

  function WithoutDb(m: PrivMap, db: int): PrivMap {
    map k | k in m && k.dbId != db :: m[k]
  }

  ghost function WithoutDbIn<G>(g: Graph<G>, s: set<G>, db: int): Graph<G> {
    map y | y in g :: if y in s then g[y].(direct := WithoutDb(g[y].direct, db)) else g[y]
  }

  ghost function WithoutDbBelow<G>(g: Graph<G>, x: G, db: int): Graph<G> {
    WithoutDbIn(g, Down(g, x), db)
  }

  function Granted(m: PrivMap, k: Key, bits: set<Bit>): PrivMap {
    m[k := Get(m, k) + bits]
  }

  function Revoked(m: PrivMap, k: Key, bits: set<Bit>): PrivMap {
    if Get(m, k) - bits == {} then m - {k} else m[k := Get(m, k) - bits]
  }

  // ---------------------------------------------------------------- edits and reachability

  lemma {:induction false} ReachesInGrows<G>(g: Graph<G>, h: Graph<G>, x: G, y: G, n: nat)
    requires g.Keys <= h.Keys && forall z | z in g :: g[z].roles <= h[z].roles
    requires ReachesIn(g, x, y, n)
    ensures ReachesIn(h, x, y, n)
    decreases n
  {
    if n > 0 {
      var z :| z in g[x].roles && ReachesIn(g, z, y, n - 1);
      ReachesInGrows(g, h, z, y, n - 1);
    }
  }

  lemma ReachesGrows<G>(g: Graph<G>, h: Graph<G>, x: G, y: G)
    requires g.Keys <= h.Keys && forall z | z in g :: g[z].roles <= h[z].roles
    requires Reaches(g, x, y)
    ensures Reaches(h, x, y)
  {
    var n: nat :| ReachesIn(g, x, y, n);
    ReachesInGrows(g, h, x, y, n);
  }

  lemma SubgraphAcyclic<G>(g: Graph<G>, h: Graph<G>)
    requires g.Keys <= h.Keys && forall z | z in g :: g[z].roles <= h[z].roles
    requires Acyclic(h)
    ensures Acyclic(g)
  {
    forall x, n: nat | x in g && ReachesIn(g, x, x, n) ensures n == 0 {
      ReachesInGrows(g, h, x, x, n);
    }
  }

  /** A walk in the graph with the edge x -> r added either avoids the edge, or it splits
      into walks of the old graph before its first and after its last use. */
  lemma {:induction false} WalkWithEdge<G>(g: Graph<G>, x: G, r: G, u: G, v: G, n: nat)
    requires Linked(g) && x in g && r in g && ReachesIn(WithEdge(g, x, r), u, v, n)
    ensures ReachesIn(g, u, v, n) || (Reaches(g, u, x) && Reaches(g, r, v))
    decreases n
  {
    if n > 0 {
      var h := WithEdge(g, x, r);
      var w :| w in h[u].roles && ReachesIn(h, w, v, n - 1);
      WalkWithEdge(g, x, r, w, v, n - 1);
      if w in g[u].roles {
        if Reaches(g, w, x) {
          ReachesRole(g, u, w);
          ReachesTransitive(g, u, w, x);
        }
      } else {
        ReachesSelf(g, x);
      }
    }
  }

  /** The new edge keeps the graph acyclic exactly when x is not already above r. */
  lemma EdgeAcyclicIff<G>(g: Graph<G>, x: G, r: G)
    requires WellFormed(g) && x in g && r in g
    ensures Acyclic(WithEdge(g, x, r)) <==> !Reaches(g, r, x)
  {
    var h := WithEdge(g, x, r);
    if Reaches(g, r, x) {
      var n: nat :| ReachesIn(g, r, x, n);
      ReachesInGrows(g, h, r, x, n);
      assert ReachesIn(h, x, x, n + 1);
    } else {
      forall u, n: nat | u in h && ReachesIn(h, u, u, n) ensures n == 0 {
        WalkWithEdge(g, x, r, u, u, n);
        if Reaches(g, u, x) && Reaches(g, r, u) { ReachesTransitive(g, r, u, x); }
      }
    }
  }

  lemma EdgeKeepsLinked<G>(g: Graph<G>, x: G, r: G)
    requires Linked(g) && x in g && r in g && !g[r].isUser
    ensures Linked(WithEdge(g, x, r))
  {
  }

  lemma WithoutEdgeWellFormed<G>(g: Graph<G>, x: G, r: G)
    requires WellFormed(g) && x in g && r in g
    ensures WellFormed(WithoutEdge(g, x, r))
  {
    SubgraphAcyclic(WithoutEdge(g, x, r), g);
  }

  lemma WithoutNodeWellFormed<G>(g: Graph<G>, x: G)
    requires WellFormed(g) && x in g
    ensures WellFormed(WithoutNode(g, x))
  {
    SubgraphAcyclic(WithoutNode(g, x), g);
  }

  ghost predicate SameLinks<G>(g: Graph<G>, h: Graph<G>) {
    g.Keys == h.Keys && forall x | x in g :: g[x].(direct := h[x].direct) == h[x]
  }

  /** Direct privileges play no part in the links. */
  lemma SameLinksSameReach<G>(g: Graph<G>, h: Graph<G>)
    requires SameLinks(g, h)
    ensures WellFormed(g) ==> WellFormed(h)
    ensures forall x, y | x in g && y in g :: Reaches(g, x, y) <==> Reaches(h, x, y)
    ensures forall x | x in g :: Down(g, x) == Down(h, x)
  {
    if Acyclic(g) { SubgraphAcyclic(h, g); }
    forall x, y | x in g && y in g ensures Reaches(g, x, y) <==> Reaches(h, x, y) {
      if Reaches(g, x, y) { ReachesGrows(g, h, x, y); }
      if Reaches(h, x, y) { ReachesGrows(h, g, x, y); }
    }
  }

  lemma OneEdgeMore<G>(g: Graph<G>, x: G, s: set<G>, y: G)
    requires x in g && y in g && y != x
    ensures WithoutEdge(WithoutEdges(g, x, s), y, x) == WithoutEdges(g, x, s + {y})
  {
    var h, f := WithoutEdge(WithoutEdges(g, x, s), y, x), WithoutEdges(g, x, s + {y});
    forall z | z in g ensures h[z] == f[z] {
      assert h[z].roles == f[z].roles && h[z].grantees == f[z].grantees;
    }
  }

  lemma NoEdgeTaken<G>(g: Graph<G>, x: G)
    ensures WithoutEdges(g, x, {}) == g
  {
    forall z | z in g ensures WithoutEdges(g, x, {})[z] == g[z] {
      assert g[z].grantees - {} == g[z].grantees;
    }
  }

  /** Taking x from all its grantees and then removing it is removing it. */
  lemma AllEdgesTaken<G>(g: Graph<G>, x: G)
    requires Linked(g) && x in g
    ensures WithoutNode(WithoutEdges(g, x, g[x].grantees), x) == WithoutNode(g, x)
    ensures WithoutEdges(g, x, g[x].grantees)[x].grantees == {}
    ensures forall y | y in g && y != x :: x !in WithoutEdges(g, x, g[x].grantees)[y].roles
  {
    var h, f := WithoutNode(WithoutEdges(g, x, g[x].grantees), x), WithoutNode(g, x);
    forall z | z in g && z != x ensures h[z] == f[z] {
      assert h[z].roles == f[z].roles && h[z].grantees == f[z].grantees;
    }
  }

  /** Wiping a database at a set of nodes and then below y wipes it at all of these. */
  lemma WipeComposes<G>(g: Graph<G>, s: set<G>, y: G, db: int)
    requires y in g
    ensures Down(WithoutDbIn(g, s, db), y) == Down(g, y)
    ensures WithoutDbBelow(WithoutDbIn(g, s, db), y, db) == WithoutDbIn(g, s + Down(g, y), db)
  {
    var h := WithoutDbIn(g, s, db);
    assert SameLinks(g, h);
    SameLinksSameReach(g, h);
    forall z | z in g ensures WithoutDb(WithoutDb(g[z].direct, db), db) == WithoutDb(g[z].direct, db) {}
  }

  // ---------------------------------------------------------------- edits and the caches

  /** Recomputing x can only put its grantees out of date, and mends x. */
  lemma PullMends<G>(g: Graph<G>, c: Cache<G>, x: G, m: PrivMap)
    requires WellFormed(g) && c.Keys == g.Keys && x in g && Clean(m)
    requires forall k, b: Bit :: b in Get(m, k) <==> Pulls(g, c, x, k, b)
    ensures OutOfDate(g, c[x := m]) <= (OutOfDate(g, c) - {x}) + g[x].grantees
  {
  }

  /** Editing the cache of x can put only x and its grantees out of date. */
  lemma EditSpoils<G>(g: Graph<G>, c: Cache<G>, x: G, m: PrivMap)
    requires Linked(g) && c.Keys == g.Keys && x in g
    ensures OutOfDate(g, c[x := m]) <= OutOfDate(g, c) + {x} + g[x].grantees
  {
  }

  /** Changing what x was granted, or which roles, can put only x out of date. */
  lemma GraphEditSpoils<G>(g: Graph<G>, h: Graph<G>, c: Cache<G>, x: G)
    requires Linked(g) && Linked(h) && c.Keys == g.Keys == h.Keys && x in g
    requires forall y | y in g && y != x :: h[y].roles == g[y].roles && h[y].direct == g[y].direct
    ensures OutOfDate(h, c) <= OutOfDate(g, c) + {x}
  {
  }

  /** A node nobody holds leaves the others' caches exact when it goes. */
  lemma UnheldNodeLeavesExact<G>(g: Graph<G>, c: Cache<G>, x: G)
    requires WellFormed(g) && Exact(g, c) && x in g && g[x].grantees == {}
    ensures Exact(WithoutNode(g, x), c - {x})
  {
    var h := WithoutNode(g, x);
    WithoutNodeWellFormed(g, x);
    forall y, k, b: Bit | y in h ensures Inherits(g, y, k, b) <==> Inherits(h, y, k, b) {
      if Inherits(g, y, k, b) {
        var z :| z in g && Reaches(g, y, z) && b in Get(g[z].direct, k);
        var n: nat :| ReachesIn(g, y, z, n);
        WalkAvoids(g, x, y, z, n);
        assert Reaches(h, y, z) && h[z].direct == g[z].direct;
      }
      if Inherits(h, y, k, b) {
        var z :| z in h && Reaches(h, y, z) && b in Get(h[z].direct, k);
        ReachesGrows(h, g, y, z);
      }
    }
  }

  lemma {:induction false} WalkAvoids<G>(g: Graph<G>, x: G, y: G, z: G, n: nat)
    requires Linked(g) && x in g && g[x].grantees == {} && y != x && ReachesIn(g, y, z, n)
    ensures z != x && ReachesIn(WithoutNode(g, x), y, z, n)
    decreases n
  {
    if n > 0 {
      var w :| w in g[y].roles && ReachesIn(g, w, z, n - 1);
      assert w != x;
      WalkAvoids(g, x, w, z, n - 1);
      assert w in WithoutNode(g, x)[y].roles;
    }
  }

  /** A grantee without links and privileges can be added at any time. */
  lemma NewNodeJoins<G>(g: Graph<G>, c: Cache<G>, x: G, isUser: bool)
    requires WellFormed(g) && Exact(g, c) && x !in g
    ensures WellFormed(g[x := Node(isUser, {}, {}, map[])])
    ensures Exact(g[x := Node(isUser, {}, {}, map[])], c[x := map[]])
  {
    var h, d := g[x := Node(isUser, {}, {}, map[])], c[x := map[]];
    assert Linked(h);
    assert WithoutNode(h, x) == g by {
      forall y | y in g ensures WithoutNode(h, x)[y] == g[y] {
        assert g[y].roles - {x} == g[y].roles && g[y].grantees - {x} == g[y].grantees;
      }
    }
    forall y, z, n: nat | y in g && ReachesIn(h, y, z, n) ensures z in g && ReachesIn(g, y, z, n) {
      WalkAvoids(h, x, y, z, n);
      ReachesLandsInside(g, y, z, n);
    }
    forall z, n: nat | ReachesIn(h, x, z, n) ensures z == x && n == 0 {}
    UpToDateIffExact(g, c);
    forall y | y in g ensures UpToDate(h, d, y) {
      assert y !in OutOfDate(g, c);
      forall k, b: Bit ensures Pulls(h, d, y, k, b) <==> Pulls(g, c, y, k, b) {}
    }
    UpToDateIffExact(h, d);
  }

  // ---------------------------------------------------------------- operations and runs

  datatype Op<G> =
    | GrantPrivileges(x: G, k: Key, bits: set<Bit>)
    | RevokePrivileges(x: G, k: Key, bits: set<Bit>)
    | GrantRole(x: G, r: G)
    | RevokeRole(x: G, r: G)
    | RevokeAllOnDatabase(x: G, db: int)
    | Destroy(x: G)

  ghost predicate IsGrant<G>(op: Op<G>) {
    op.GrantPrivileges? || op.GrantRole?
  }

  /** The operation can be asked for: it names live grantees, roles where roles are needed,
      and keys of a database. */
  ghost predicate Callable<G>(g: Graph<G>, op: Op<G>) {
    && op.x in g
    && (op.GrantPrivileges? || op.RevokePrivileges? ==> op.k.dbId != -1)
    && (op.GrantRole? || op.RevokeRole? ==> op.r in g && !g[op.r].isUser)
  }

  /** The operation goes through instead of being refused. */
  ghost predicate Accepted<G>(g: Graph<G>, op: Op<G>) {
    && Callable(g, op)
    && match op
       case RevokePrivileges(x, k, _) => Get(g[x].direct, k) != {}
       case GrantRole(x, r) => r !in g[x].roles && !Reaches(g, r, x)
       case RevokeRole(x, r) => r in g[x].roles
       case _ => true
  }

  ghost function Apply<G>(g: Graph<G>, op: Op<G>): Graph<G> {
    if !Accepted(g, op) then g else
    match op
    case GrantPrivileges(x, k, bits) => WithDirect(g, x, Granted(g[x].direct, k, bits))
    case RevokePrivileges(x, k, bits) => WithDirect(g, x, Revoked(g[x].direct, k, bits))
    case GrantRole(x, r) => WithEdge(g, x, r)
    case RevokeRole(x, r) => WithoutEdge(g, x, r)
    case RevokeAllOnDatabase(x, db) => WithoutDbBelow(g, x, db)
    case Destroy(x) => WithoutNode(g, x)
  }

  ghost function Run<G>(g: Graph<G>, ops: seq<Op<G>>): Graph<G> {
    if ops == [] then g else Apply(Run(g, ops[..|ops| - 1]), ops[|ops| - 1])
  }

  /** No direct privilege is ever recorded for the database id -1. */
  ghost predicate NoServerWideKeys<G>(g: Graph<G>) {
    forall x, k | x in g && k in g[x].direct :: k.dbId != -1
  }

  lemma ApplyKeepsWellFormed<G>(g: Graph<G>, op: Op<G>)
    requires WellFormed(g)
    ensures WellFormed(Apply(g, op))
    ensures NoServerWideKeys(g) ==> NoServerWideKeys(Apply(g, op))
  {
    if Accepted(g, op) {
      var h := Apply(g, op);
      match op
      case GrantRole(x, r) => EdgeAcyclicIff(g, x, r); EdgeKeepsLinked(g, x, r);
      case RevokeRole(x, r) => WithoutEdgeWellFormed(g, x, r);
      case Destroy(x) => WithoutNodeWellFormed(g, x);
      case RevokeAllOnDatabase(x, db) =>
        assert SameLinks(g, h);
        SameLinksSameReach(g, h);
      case _ =>
        assert SameLinks(g, h);
        SameLinksSameReach(g, h);
    }
  }

  /** Every run keeps the graph acyclic and its links symmetric. */
  lemma {:induction false} RunKeepsWellFormed<G>(g: Graph<G>, ops: seq<Op<G>>)
    requires WellFormed(g)
    ensures WellFormed(Run(g, ops))
    ensures NoServerWideKeys(g) ==> NoServerWideKeys(Run(g, ops))
    decreases |ops|
  {
    if ops != [] {
      RunKeepsWellFormed(g, ops[..|ops| - 1]);
      ApplyKeepsWellFormed(Run(g, ops[..|ops| - 1]), ops[|ops| - 1]);
    }
  }

  // ---------------------------------------------------------------- asking for privileges

  /** The key of a stored entry that answers for the key k: k itself or a wildcard over it. */
  predicate Covers(w: Key, k: Key) {
    && w.permissionType == k.permissionType
    && (|| w == k
        || (w.subObjectId == -1 && w.objectId == k.objectId && w.dbId == k.dbId)
        || (w.subObjectId == -1 && w.objectId == -1 && w.dbId == k.dbId)
        || (w.subObjectId == -1 && w.objectId == -1 && w.dbId == -1))
  }

  predicate HasEnough(m: PrivMap, k: Key, req: set<Bit>) {
    k in m && req <= m[k]
  }

  /** The exact key, then the three ever wider wildcards. */
  function CheckPrivileges(m: PrivMap, k: Key, req: set<Bit>): (r: bool)
    ensures r <==> exists w | w in m :: Covers(w, k) && req <= m[w]
  {
    var k1 := k.(subObjectId := -1);
    var k2 := k1.(objectId := -1);
    var k3 := k2.(dbId := -1);
    || HasEnough(m, k, req)
    || (k.subObjectId != -1 && HasEnough(m, k1, req))
    || (k.objectId != -1 && HasEnough(m, k2, req))
    || (k.dbId != -1 && HasEnough(m, k3, req))
  }

  /** The answer in terms of the grants themselves: one covering key at which something, and
      every bit asked for, was granted at or above x. */
  lemma CheckAnswersFromGrants<G>(g: Graph<G>, c: Cache<G>, x: G, k: Key, req: set<Bit>)
    requires Exact(g, c) && x in g
    ensures CheckPrivileges(c[x], k, req) <==>
            exists w :: Covers(w, k) && (exists b: Bit :: Inherits(g, x, w, b)) &&
              forall b: Bit | b in req :: Inherits(g, x, w, b)
  {
    if CheckPrivileges(c[x], k, req) {
      var w :| w in c[x] && Covers(w, k) && req <= c[x][w];
      var b :| b in c[x][w];
      assert b in Get(c[x], w);
      forall b: Bit | b in req ensures Inherits(g, x, w, b) { assert b in Get(c[x], w); }
    }
    forall w, b: Bit | Covers(w, k) && Inherits(g, x, w, b) && forall b: Bit | b in req :: Inherits(g, x, w, b)
      ensures CheckPrivileges(c[x], k, req)
    {
      assert b in Get(c[x], w);
      forall b: Bit | b in req ensures b in Get(c[x], w) { assert Inherits(g, x, w, b); }
    }
  }

  /** h offers at least what g offers, at every node of g. */
  ghost predicate Offers<G>(g: Graph<G>, h: Graph<G>) {
    && g.Keys <= h.Keys
    && (forall x | x in g :: g[x].roles <= h[x].roles)
    && (forall x, k | x in g :: Get(g[x].direct, k) <= Get(h[x].direct, k))
  }

  lemma OffersMore<G>(g: Graph<G>, c: Cache<G>, h: Graph<G>, d: Cache<G>, x: G, k: Key, req: set<Bit>)
    requires Exact(g, c) && Exact(h, d) && Offers(g, h) && x in g
    requires CheckPrivileges(c[x], k, req)
    ensures CheckPrivileges(d[x], k, req)
  {
    var w :| w in c[x] && Covers(w, k) && req <= c[x][w];
    forall b: Bit | b in c[x][w] ensures b in Get(d[x], w) {
      assert b in Get(c[x], w);
      var y :| y in g && Reaches(g, x, y) && b in Get(g[y].direct, w);
      ReachesGrows(g, h, x, y);
      assert b in Get(h[y].direct, w);
      assert Inherits(h, x, w, b);
    }
    var b :| b in c[x][w];
    assert w in d[x];
  }

  lemma ApplyOffers<G>(g: Graph<G>, op: Op<G>)
    ensures if IsGrant(op) then Offers(g, Apply(g, op)) else Offers(Apply(g, op), g)
  {
  }

  /** A grant never takes an answer away, a revoke never gives one: whoever is asked, at
      whatever key, through the whole chain of wildcards. */
  lemma GrantsAndRevokesAreMonotone<G>(g: Graph<G>, c: Cache<G>, h: Graph<G>, d: Cache<G>, op: Op<G>,
                                       x: G, k: Key, req: set<Bit>)
    requires Exact(g, c) && h == Apply(g, op) && Exact(h, d) && x in g && x in h
    ensures IsGrant(op) ==> (CheckPrivileges(c[x], k, req) ==> CheckPrivileges(d[x], k, req))
    ensures !IsGrant(op) ==> (CheckPrivileges(d[x], k, req) ==> CheckPrivileges(c[x], k, req))
  {
    ApplyOffers(g, op);
    if IsGrant(op) {
      if CheckPrivileges(c[x], k, req) { OffersMore(g, c, h, d, x, k, req); }
    } else {
      if CheckPrivileges(d[x], k, req) { OffersMore(h, d, g, c, x, k, req); }
    }
  }

  lemma EdgeThenNoEdge<G>(g: Graph<G>, x: G, r: G)
    requires Linked(g) && x in g && r in g && r !in g[x].roles
    ensures WithoutEdge(WithEdge(g, x, r), x, r) == g
  {
  }

  /** Granting a role and revoking it again restores the graph, hence every cache in it. */
  lemma GrantRoleThenRevoke<G>(g: Graph<G>, c: Cache<G>, d: Cache<G>, x: G, r: G)
    requires WellFormed(g) && Exact(g, c) && Accepted(g, GrantRole(x, r))
    requires Exact(Run(g, [GrantRole(x, r), RevokeRole(x, r)]), d)
    ensures Run(g, [GrantRole(x, r), RevokeRole(x, r)]) == g && d == c
  {
    var ops := [GrantRole(x, r), RevokeRole(x, r)];
    var h := WithEdge(g, x, r);
    assert ops[..1] == [GrantRole(x, r)] && ops[..1][..0] == [];
    assert Run(g, []) == g;
    assert Run(g, ops[..1]) == h;
    assert Accepted(h, RevokeRole(x, r));
    EdgeThenNoEdge(g, x, r);
    ExactIsUnique(g, c, d);
  }

  /** What an operation at x leaves alone: links and direct privileges of nodes elsewhere. */
  lemma ApplyElsewhere<G>(g: Graph<G>, op: Op<G>)
    requires op.x in g
    ensures var h := Apply(g, op);
            && h.Keys <= g.Keys && g.Keys - {op.x} <= h.Keys
            && (forall u | u in g && u != op.x && op.x !in g[u].roles :: h[u].roles == g[u].roles)
            && (forall u | u in h && u != op.x :: h[u].roles <= g[u].roles)
            && (forall u | u in h && u !in Down(g, op.x) :: h[u].direct == g[u].direct)
  {
    ReachesSelf(g, op.x);
    if Accepted(g, op) {
      match op
      case GrantPrivileges(x, k, bits) =>
      case RevokePrivileges(x, k, bits) =>
      case GrantRole(x, r) =>
      case RevokeRole(x, r) =>
      case RevokeAllOnDatabase(x, db) =>
      case Destroy(x) =>
    }
  }

  /** An operation at x is felt only at x and below it. */
  lemma OnlyBelowChanges<G>(g: Graph<G>, c: Cache<G>, h: Graph<G>, d: Cache<G>, op: Op<G>, y: G)
    requires WellFormed(g) && Exact(g, c) && h == Apply(g, op) && Exact(h, d)
    requires y in g && op.x in g && y !in Down(g, op.x)
    ensures y in d && d[y] == c[y]
  {
    ApplyElsewhere(g, op);
    ReachesSelf(g, op.x);
    forall k ensures Get(c[y], k) == Get(d[y], k) {
      forall b: Bit ensures Inherits(g, y, k, b) <==> Inherits(h, y, k, b) {
        SameInheritanceOutside(g, h, op.x, y, k, b);
      }
    }
    CleanMapsAgree(c[y], d[y]);
  }

  lemma SameInheritanceOutside<G>(g: Graph<G>, h: Graph<G>, x: G, y: G, k: Key, b: Bit)
    requires Linked(g) && h.Keys <= g.Keys && g.Keys - {x} <= h.Keys && x in g && y in g && !Reaches(g, y, x)
    requires forall u | u in g && u != x && x !in g[u].roles :: h[u].roles == g[u].roles
    requires forall u | u in h && u != x :: h[u].roles <= g[u].roles
    requires forall u | u in h && u !in Down(g, x) :: h[u].direct == g[u].direct
    ensures Inherits(g, y, k, b) <==> Inherits(h, y, k, b)
  {
    forall z | z in g && Reaches(g, y, z) ensures z in h && z !in Down(g, x) {
      ReachesSelf(g, x);
      if Reaches(g, z, x) { ReachesTransitive(g, y, z, x); }
    }
    if Inherits(g, y, k, b) {
      var z :| z in g && Reaches(g, y, z) && b in Get(g[z].direct, k);
      SameUpOutside(g, h, x, y, z);
    }
    if Inherits(h, y, k, b) {
      var z :| z in h && Reaches(h, y, z) && b in Get(h[z].direct, k);
      SameUpOutside(g, h, x, y, z);
    }
  }

  /** Graphs that differ in roles only at x look the same from nodes that do not reach x. */
  lemma SameUpOutside<G>(g: Graph<G>, h: Graph<G>, x: G, y: G, z: G)
    requires Linked(g) && h.Keys <= g.Keys && g.Keys - {x} <= h.Keys && x in g && y in g && !Reaches(g, y, x)
    requires forall u | u in g && u != x && x !in g[u].roles :: h[u].roles == g[u].roles
    requires forall u | u in h && u != x :: h[u].roles <= g[u].roles
    ensures Reaches(g, y, z) <==> Reaches(h, y, z)
  {
    if Reaches(g, y, z) {
      var n: nat :| ReachesIn(g, y, z, n);
      WalkOutside(g, h, x, y, z, n);
    }
    if Reaches(h, y, z) {
      var n: nat :| ReachesIn(h, y, z, n);
      WalkBack(g, h, x, y, z, n);
    }
  }

  lemma {:induction false} WalkOutside<G>(g: Graph<G>, h: Graph<G>, x: G, y: G, z: G, n: nat)
    requires Linked(g) && g.Keys - {x} <= h.Keys && x in g && !Reaches(g, y, x) && ReachesIn(g, y, z, n)
    requires forall u | u in g && u != x && x !in g[u].roles :: h[u].roles == g[u].roles
    ensures ReachesIn(h, y, z, n)
    decreases n
  {
    if y == x { ReachesSelf(g, x); }
    if x in g[y].roles { ReachesRole(g, y, x); }
    if n > 0 {
      var w :| w in g[y].roles && ReachesIn(g, w, z, n - 1);
      ReachesFirstStep(g, y, x);
      WalkOutside(g, h, x, w, z, n - 1);
    }
  }

  lemma {:induction false} WalkBack<G>(g: Graph<G>, h: Graph<G>, x: G, y: G, z: G, n: nat)
    requires Linked(g) && h.Keys <= g.Keys && x in g && !Reaches(g, y, x) && ReachesIn(h, y, z, n)
    requires forall u | u in h && u != x :: h[u].roles <= g[u].roles
    ensures ReachesIn(g, y, z, n)
    decreases n
  {
    if y == x { ReachesSelf(g, x); }
    if n > 0 {
      var w :| w in h[y].roles && ReachesIn(h, w, z, n - 1);
      assert w in g[y].roles;
      ReachesFirstStep(g, y, x);
      WalkBack(g, h, x, w, z, n - 1);
    }
  }

  lemma WithoutDbBelowFacts<G>(g: Graph<G>, x: G, db: int)
    requires x in g
    ensures var h := Apply(g, RevokeAllOnDatabase(x, db));
            && SameLinks(g, h)
            && (forall z, k: Key | z in Down(g, x) && k.dbId == db :: k !in h[z].direct)
            && (forall z | z in g && z !in Down(g, x) :: h[z].direct == g[z].direct)
            && (forall z, k: Key | z in g && k.dbId != db :: Get(h[z].direct, k) == Get(g[z].direct, k))
  {
  }

  /** Revoking everything on a database at x: nothing at or below x keeps a direct privilege on
      it, what is still effective there is what was granted above and outside, and no privilege on any
      other database changes anywhere. */
  lemma RevokeAllOnDatabaseClears<G>(g: Graph<G>, c: Cache<G>, h: Graph<G>, d: Cache<G>, x: G, db: int,
                                     y: G, k: Key)
    requires WellFormed(g) && Exact(g, c) && x in g && y in g
    requires h == Apply(g, RevokeAllOnDatabase(x, db)) && Exact(h, d)
    ensures y in Down(g, x) && k.dbId == db ==> k !in h[y].direct
    ensures k.dbId == db ==> forall b: Bit :: b in Get(d[y], k) <==>
              exists z | z in g :: z !in Down(g, x) && Reaches(g, y, z) && b in Get(g[z].direct, k)
    ensures k.dbId != db ==> Get(d[y], k) == Get(c[y], k)
  {
    WithoutDbBelowFacts(g, x, db);
    SameLinksSameReach(g, h);
    if k.dbId == db {
      forall b: Bit
        ensures Inherits(h, y, k, b) <==>
                exists z | z in g :: z !in Down(g, x) && Reaches(g, y, z) && b in Get(g[z].direct, k)
      {
        if Inherits(h, y, k, b) {
          var z :| z in h && Reaches(h, y, z) && b in Get(h[z].direct, k);
          assert z !in Down(g, x);
        }
        forall z | z in g && z !in Down(g, x) && Reaches(g, y, z) && b in Get(g[z].direct, k)
          ensures Inherits(h, y, k, b)
        {
          assert Reaches(h, y, z);
        }
      }
    } else {
      forall b: Bit ensures Inherits(g, y, k, b) <==> Inherits(h, y, k, b) {
        SameInheritanceOtherDb(g, h, y, k, b);
      }
    }
  }

  lemma SameInheritanceOtherDb<G>(g: Graph<G>, h: Graph<G>, y: G, k: Key, b: Bit)
    requires SameLinks(g, h) && y in g && forall z | z in g :: Get(g[z].direct, k) == Get(h[z].direct, k)
    ensures Inherits(g, y, k, b) <==> Inherits(h, y, k, b)
  {
    SameLinksSameReach(g, h);
  }

  /** After any run the widest wildcard stage, over database id -1, never decides an answer. */
  lemma {:induction false} WidestWildcardNeverAnswers<G>(g: Graph<G>, ops: seq<Op<G>>, c: Cache<G>, x: G, k: Key)
    requires WellFormed(g) && NoServerWideKeys(g) && Exact(Run(g, ops), c) && x in c
    requires k.dbId == -1
    ensures k !in c[x]
  {
    RunKeepsWellFormed(g, ops);
    forall b: Bit ensures !Inherits(Run(g, ops), x, k, b) {}
    forall b: Bit ensures b !in Get(c[x], k) {}
    assert Clean(c[x]);
    assert Get(c[x], k) == {};
  }
}
