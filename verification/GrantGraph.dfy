/** The grant graph on values: which grantee holds which roles, what was granted to each one
    directly, and what it therefore holds through the roles above it. */
module GrantGraph {

  /** One bit of a 64-bit privilege word; a word is the set of its one bits. */
  type Bit = b: nat | b < 64

  datatype Key = Key(permissionType: int, dbId: int, objectId: int, subObjectId: int)

  type PrivMap = map<Key, set<Bit>>

  datatype Node<G> = Node(isUser: bool, roles: set<G>, grantees: set<G>, direct: PrivMap)

  type Graph<G> = map<G, Node<G>>

  /** The effective-privilege maps of all grantees. */
  type Cache<G> = map<G, PrivMap>

  function Get(m: PrivMap, k: Key): set<Bit> {
    if k in m then m[k] else {}
  }

  /** No entry without a bit. */
  ghost predicate Clean(m: PrivMap) {
    forall k | k in m :: m[k] != {}
  }

  // ---------------------------------------------------------------- links and reachability

  /** Links stay inside the graph and are recorded at both ends; users are never granted. */
  ghost predicate Linked<G>(g: Graph<G>) {
    && (forall x | x in g :: g[x].roles <= g.Keys && g[x].grantees <= g.Keys)
    && (forall x, r | x in g && r in g :: r in g[x].roles <==> x in g[r].grantees)
    && (forall x | x in g && g[x].isUser :: g[x].grantees == {})
  }

  /** y is reached from x by following exactly n granted-role links upwards. */
  ghost predicate ReachesIn<G>(g: Graph<G>, x: G, y: G, n: nat)
    decreases n
  {
    x in g && if n == 0 then x == y else exists z | z in g[x].roles :: ReachesIn(g, z, y, n - 1)
  }

  ghost predicate Reaches<G>(g: Graph<G>, x: G, y: G) {
    exists n: nat :: ReachesIn(g, x, y, n)
  }

  ghost predicate Acyclic<G>(g: Graph<G>) {
    forall x, n: nat | x in g && ReachesIn(g, x, x, n) :: n == 0
  }

  ghost predicate WellFormed<G>(g: Graph<G>) {
    Linked(g) && Acyclic(g)
  }

  /** Everything at or above x. */
  ghost function Up<G>(g: Graph<G>, x: G): set<G> {
    set y | y in g && Reaches(g, x, y)
  }

  /** Everything at or below x. */
  ghost function Down<G>(g: Graph<G>, x: G): set<G> {
    set y | y in g && Reaches(g, y, x)
  }

  lemma {:induction false} ReachesInCompose<G>(g: Graph<G>, x: G, y: G, z: G, m: nat, n: nat)
    requires ReachesIn(g, x, y, m) && ReachesIn(g, y, z, n)
    ensures ReachesIn(g, x, z, m + n)
    decreases m
  {
    if m > 0 {
      var w :| w in g[x].roles && ReachesIn(g, w, y, m - 1);
      ReachesInCompose(g, w, y, z, m - 1, n);
    }
  }

  lemma ReachesTransitive<G>(g: Graph<G>, x: G, y: G, z: G)
    requires Reaches(g, x, y) && Reaches(g, y, z)
    ensures Reaches(g, x, z)
  {
    var m: nat :| ReachesIn(g, x, y, m);
    var n: nat :| ReachesIn(g, y, z, n);
    ReachesInCompose(g, x, y, z, m, n);
  }

  lemma ReachesSelf<G>(g: Graph<G>, x: G)
    requires x in g
    ensures Reaches(g, x, x)
  {
    assert ReachesIn(g, x, x, 0);
  }

  lemma ReachesRole<G>(g: Graph<G>, x: G, r: G)
    requires x in g && r in g && r in g[x].roles
    ensures Reaches(g, x, r)
  {
    assert ReachesIn(g, r, r, 0);
    assert ReachesIn(g, x, r, 1);
  }

  lemma ReachesFirstStep<G>(g: Graph<G>, x: G, y: G)
    requires x in g && g[x].roles <= g.Keys
    ensures Reaches(g, x, y) <==> x == y || exists r | r in g[x].roles :: Reaches(g, r, y)
  {
    if Reaches(g, x, y) && x != y {
      var n: nat :| ReachesIn(g, x, y, n);
      var r :| r in g[x].roles && ReachesIn(g, r, y, n - 1);
      assert Reaches(g, r, y);
    }
    if x == y { ReachesSelf(g, x); }
    forall r | r in g[x].roles && Reaches(g, r, y) ensures Reaches(g, x, y) {
      ReachesRole(g, x, r);
      ReachesTransitive(g, x, r, y);
    }
  }

  lemma ReachesLandsInside<G>(g: Graph<G>, x: G, y: G, n: nat)
    requires ReachesIn(g, x, y, n)
    ensures y in g
    decreases n
  {
    if n > 0 {
      var z :| z in g[x].roles && ReachesIn(g, z, y, n - 1);
      ReachesLandsInside(g, z, y, n - 1);
    }
  }

  /** Two nodes of an acyclic graph never reach each other. */
  lemma ReachesAntisymmetric<G>(g: Graph<G>, x: G, y: G)
    requires Acyclic(g) && Reaches(g, x, y) && Reaches(g, y, x)
    ensures x == y
  {
    var m: nat :| ReachesIn(g, x, y, m);
    var n: nat :| ReachesIn(g, y, x, n);
    ReachesInCompose(g, x, y, x, m, n);
  }

  /** Granted roles have strictly fewer nodes above them, grantees strictly fewer below: the
      measures by which every recursion and every worklist over the graph terminates. */
  lemma LinkShrinks<G>(g: Graph<G>, x: G, r: G)
    requires WellFormed(g) && x in g && r in g[x].roles
    ensures Up(g, r) < Up(g, x) && Down(g, x) < Down(g, r)
  {
    ReachesRole(g, x, r);
    ReachesSelf(g, x);
    ReachesSelf(g, r);
    if Reaches(g, r, x) {
      ReachesAntisymmetric(g, x, r);
      assert ReachesIn(g, x, x, 0) && ReachesIn(g, x, x, 1);
      assert false;
    }
    assert x in Up(g, x) && x !in Up(g, r);
    assert r in Down(g, r) && r !in Down(g, x);
    forall y | y in Up(g, r) ensures y in Up(g, x) { ReachesTransitive(g, x, r, y); }
    forall y | y in Down(g, x) ensures y in Down(g, r) { ReachesTransitive(g, y, x, r); }
  }

  // ---------------------------------------------------------------- what a grantee holds

  /** Some grantee at or above x was granted bit b of k directly. */
  ghost predicate Inherits<G>(g: Graph<G>, x: G, k: Key, b: Bit) {
    exists y | y in g :: Reaches(g, x, y) && b in Get(g[y].direct, k)
  }

  /** The caches list, key by key, exactly the bits inherited, and no empty entry. */
  ghost predicate Exact<G>(g: Graph<G>, c: Cache<G>) {
    && c.Keys == g.Keys
    && forall x | x in g :: Clean(c[x]) && forall k, b: Bit :: b in Get(c[x], k) <==> Inherits(g, x, k, b)
  }

  /** One step of inheritance: a bit is direct or cached at a granted role. */
  ghost predicate Pulls<G>(g: Graph<G>, c: Cache<G>, x: G, k: Key, b: Bit)
    requires x in g && g[x].roles <= c.Keys
  {
    b in Get(g[x].direct, k) || exists r | r in g[x].roles :: b in Get(c[r], k)
  }

  /** x's cache is what its direct privileges and its roles' caches give. */
  ghost predicate UpToDate<G>(g: Graph<G>, c: Cache<G>, x: G)
    requires x in g && x in c && g[x].roles <= c.Keys
  {
    Clean(c[x]) && forall k, b: Bit :: b in Get(c[x], k) <==> Pulls(g, c, x, k, b)
  }

  ghost function OutOfDate<G>(g: Graph<G>, c: Cache<G>): set<G>
    requires Linked(g) && c.Keys == g.Keys
  {
    set x | x in g && !UpToDate(g, c, x)
  }

  lemma InheritsFirstStep<G>(g: Graph<G>, x: G, k: Key, b: Bit)
    requires Linked(g) && x in g
    ensures Inherits(g, x, k, b) <==>
            b in Get(g[x].direct, k) || exists r | r in g[x].roles :: Inherits(g, r, k, b)
  {
    if b in Get(g[x].direct, k) { ReachesSelf(g, x); }
    if Inherits(g, x, k, b) {
      var y :| y in g && Reaches(g, x, y) && b in Get(g[y].direct, k);
      ReachesFirstStep(g, x, y);
    }
    forall r | r in g[x].roles && Inherits(g, r, k, b) ensures Inherits(g, x, k, b) {
      var y :| y in g && Reaches(g, r, y) && b in Get(g[y].direct, k);
      ReachesRole(g, x, r);
      ReachesTransitive(g, x, r, y);
    }
  }

  lemma {:induction false} UpToDateIsExactAt<G>(g: Graph<G>, c: Cache<G>, x: G, k: Key, b: Bit)
    requires WellFormed(g) && c.Keys == g.Keys && OutOfDate(g, c) == {} && x in g
    ensures b in Get(c[x], k) <==> Inherits(g, x, k, b)
    decreases Up(g, x)
  {
    InheritsFirstStep(g, x, k, b);
    assert x !in OutOfDate(g, c);
    assert b in Get(c[x], k) <==> Pulls(g, c, x, k, b);
    forall r | r in g[x].roles ensures b in Get(c[r], k) <==> Inherits(g, r, k, b) {
      LinkShrinks(g, x, r);
      UpToDateIsExactAt(g, c, r, k, b);
    }
  }

  /** On an acyclic graph the local condition at every node is the global one. */
  lemma UpToDateIffExact<G>(g: Graph<G>, c: Cache<G>)
    requires WellFormed(g) && c.Keys == g.Keys
    ensures OutOfDate(g, c) == {} <==> Exact(g, c)
  {
    if OutOfDate(g, c) == {} {
      forall x | x in g ensures Clean(c[x]) { assert x !in OutOfDate(g, c); }
      forall x, k, b: Bit | x in g ensures b in Get(c[x], k) <==> Inherits(g, x, k, b) {
        UpToDateIsExactAt(g, c, x, k, b);
      }
    }
    if Exact(g, c) {
      forall x | x in g ensures UpToDate(g, c, x) {
        forall k, b: Bit ensures b in Get(c[x], k) <==> Pulls(g, c, x, k, b) {
          InheritsFirstStep(g, x, k, b);
        }
      }
    }
  }

  /** The graph determines its caches. */
  lemma ExactIsUnique<G>(g: Graph<G>, c: Cache<G>, d: Cache<G>)
    requires Exact(g, c) && Exact(g, d)
    ensures c == d
  {
    forall x | x in g ensures c[x] == d[x] {
      forall k ensures Get(c[x], k) == Get(d[x], k) {}
      CleanMapsAgree(c[x], d[x]);
    }
  }

  lemma CleanMapsAgree(m: PrivMap, n: PrivMap)
    requires Clean(m) && Clean(n) && forall k :: Get(m, k) == Get(n, k)
    ensures m == n
  {
    forall k ensures k in m <==> k in n {
      assert Get(m, k) == Get(n, k);
    }
    forall k | k in m ensures m[k] == n[k] {
      assert Get(m, k) == Get(n, k);
    }
  }
}
