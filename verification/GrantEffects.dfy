/** What each operation changes, bit by bit: in what was granted directly, and in the caches. */
module GrantEffects {
  import opened GrantGraph
  import opened GrantOps

  // ---------------------------------------------------------------- granting privileges

  /** A grant adds the bits at that key of that grantee, and changes nothing else. */
  lemma GrantAddsDirect<G>(g: Graph<G>, x: G, k: Key, bits: set<Bit>, y: G, k': Key, b: Bit)
    requires Accepted(g, GrantPrivileges(x, k, bits)) && y in g
    ensures var h := Apply(g, GrantPrivileges(x, k, bits));
            && SameLinks(g, h)
            && (b in Get(h[y].direct, k') <==> b in Get(g[y].direct, k') || (y == x && k' == k && b in bits))
            && (k' in h[y].direct <==> k' in g[y].direct || (y == x && k' == k))
  {
  }

  /** So the caches gain the bits at that key, of the grantee and of those below it. */
  lemma GrantAddsEffective<G>(g: Graph<G>, c: Cache<G>, h: Graph<G>, d: Cache<G>, x: G, k: Key, bits: set<Bit>,
      y: G, k': Key, b: Bit)
    requires Accepted(g, GrantPrivileges(x, k, bits)) && h == Apply(g, GrantPrivileges(x, k, bits)) && y in g
    requires Exact(g, c) && Exact(h, d)
    ensures y in d && (b in Get(d[y], k') <==> b in Get(c[y], k') || (k' == k && b in bits && Reaches(g, y, x)))
  {
    forall z | z in g
      ensures z in h && (b in Get(h[z].direct, k') <==> b in Get(g[z].direct, k') || (z == x && k' == k && b in bits))
    {
      GrantAddsDirect(g, x, k, bits, z, k', b);
    }
    GrantAddsDirect(g, x, k, bits, y, k', b);
    SameLinksSameReach(g, h);
    hide Apply, Accepted, Reaches;
    if Inherits(h, y, k', b) {
      var z :| z in h && Reaches(h, y, z) && b in Get(h[z].direct, k');
      assert b in Get(g[z].direct, k') ==> Inherits(g, y, k', b);
    }
    if Inherits(g, y, k', b) {
      var z :| z in g && Reaches(g, y, z) && b in Get(g[z].direct, k');
      assert b in Get(h[z].direct, k');
    }
    if k' == k && b in bits && Reaches(g, y, x) {
      assert b in Get(h[x].direct, k');
    }
  }

  /** And whoever is at or below the grantee is then told yes, for these bits at this key. */
  lemma GrantIsAnswered<G>(g: Graph<G>, c: Cache<G>, h: Graph<G>, d: Cache<G>, x: G, k: Key, bits: set<Bit>, y: G)
    requires Accepted(g, GrantPrivileges(x, k, bits)) && h == Apply(g, GrantPrivileges(x, k, bits)) && y in g
    requires Exact(g, c) && Exact(h, d) && Reaches(g, y, x) && bits != {}
    ensures y in d && CheckPrivileges(d[y], k, bits)
  {
    forall b: Bit | b in bits ensures y in d && b in Get(d[y], k) {
      GrantAddsEffective(g, c, h, d, x, k, bits, y, k, b);
    }
    var b :| b in bits;
    assert k in d[y] && bits <= d[y][k];
  }

  // ---------------------------------------------------------------- revoking privileges

  /** A revoke takes the bits at that key from that grantee, and changes nothing else; an entry left
      without a bit goes. */
  lemma RevokeTakesDirect<G>(g: Graph<G>, x: G, k: Key, bits: set<Bit>, y: G, k': Key, b: Bit)
    requires Accepted(g, RevokePrivileges(x, k, bits)) && y in g
    ensures var h := Apply(g, RevokePrivileges(x, k, bits));
            && SameLinks(g, h)
            && (b in Get(h[y].direct, k') <==> b in Get(g[y].direct, k') && !(y == x && k' == k && b in bits))
            && (k' in h[y].direct <==> k' in g[y].direct && !(y == x && k' == k && Get(g[x].direct, k) <= bits))
  {
    NoneLeft(Get(g[x].direct, k), bits);
  }

  lemma NoneLeft<T>(s: set<T>, t: set<T>)
    ensures s - t == {} <==> s <= t
  {
    assert s - t == {} ==> forall x | x in s :: x !in s - t;
  }

  /** Another grantee at or above y was granted the bit. */
  ghost predicate GrantedElsewhere<G>(g: Graph<G>, x: G, y: G, k: Key, b: Bit) {
    exists z | z in g && z != x :: Reaches(g, y, z) && b in Get(g[z].direct, k)
  }

  /** A revoked bit is still effective exactly where it was granted to another one at or above; all
      other bits stay as they were. */
  lemma RevokeTakesEffective<G>(g: Graph<G>, c: Cache<G>, h: Graph<G>, d: Cache<G>, x: G, k: Key, bits: set<Bit>,
      y: G, k': Key, b: Bit)
    requires Accepted(g, RevokePrivileges(x, k, bits)) && h == Apply(g, RevokePrivileges(x, k, bits)) && y in g
    requires Exact(g, c) && Exact(h, d)
    ensures y in d && (b in Get(d[y], k') <==>
                       if k' == k && b in bits then GrantedElsewhere(g, x, y, k, b) else b in Get(c[y], k'))
  {
    forall z | z in g
      ensures z in h && (b in Get(h[z].direct, k') <==> b in Get(g[z].direct, k') && !(z == x && k' == k && b in bits))
    {
      RevokeTakesDirect(g, x, k, bits, z, k', b);
    }
    RevokeTakesDirect(g, x, k, bits, y, k', b);
    SameLinksSameReach(g, h);
    hide Apply, Accepted, Reaches;
    if Inherits(h, y, k', b) {
      var z :| z in h && Reaches(h, y, z) && b in Get(h[z].direct, k');
      assert b in Get(g[z].direct, k') && Inherits(g, y, k', b);
    }
    if k' == k && b in bits {
      if GrantedElsewhere(g, x, y, k, b) {
        var z :| z in g && z != x && Reaches(g, y, z) && b in Get(g[z].direct, k);
        assert b in Get(h[z].direct, k');
      }
    } else if Inherits(g, y, k', b) {
      var z :| z in g && Reaches(g, y, z) && b in Get(g[z].direct, k');
      assert b in Get(h[z].direct, k');
    }
  }

  /** The same bits everywhere, directly granted, give the same caches. */
  lemma SameDirectSameCaches<G>(g: Graph<G>, c: Cache<G>, h: Graph<G>, d: Cache<G>)
    requires SameLinks(g, h) && Exact(g, c) && Exact(h, d)
    requires forall x, k | x in g :: Get(h[x].direct, k) == Get(g[x].direct, k)
    ensures d == c
  {
    forall x | x in g ensures d[x] == c[x] {
      forall k ensures Get(d[x], k) == Get(c[x], k) {
        forall b: Bit ensures b in Get(d[x], k) <==> b in Get(c[x], k) {
          SameInheritanceOtherDb(g, h, x, k, b);
        }
      }
      CleanMapsAgree(d[x], c[x]);
    }
  }

  /** Granting bits that x did not have and revoking them again restores the direct bits, hence every
      cache, and the graph itself if it had no empty entry there. */
  lemma GrantThenRevoke<G>(g: Graph<G>, c: Cache<G>, d: Cache<G>, x: G, k: Key, bits: set<Bit>)
    requires Accepted(g, GrantPrivileges(x, k, bits)) && bits != {} && Get(g[x].direct, k) !! bits
    requires Exact(g, c) && Exact(Run(g, [GrantPrivileges(x, k, bits), RevokePrivileges(x, k, bits)]), d)
    ensures d == c
    ensures (k in g[x].direct ==> g[x].direct[k] != {}) ==>
              Run(g, [GrantPrivileges(x, k, bits), RevokePrivileges(x, k, bits)]) == g
  {
    var h := Apply(g, GrantPrivileges(x, k, bits));
    var r := Apply(h, RevokePrivileges(x, k, bits));
    RunOfTwo(g, GrantPrivileges(x, k, bits), RevokePrivileges(x, k, bits));
    Revocable(g, x, k, bits);
    forall y, k' | y in g
      ensures Get(r[y].direct, k') == Get(g[y].direct, k')
      ensures k' in r[y].direct <==> k' in g[y].direct && !(y == x && k' == k && Get(g[x].direct, k) == {})
    {
      PutAndTaken(g, h, r, x, k, bits, y, k');
    }
    hide Apply, Accepted, Get, Exact, Run;
    SameDirectSameCaches(g, c, r, d);
    if k in g[x].direct ==> g[x].direct[k] != {} {
      SameGraph(g, r, x, k);
    }
  }

  lemma Revocable<G>(g: Graph<G>, x: G, k: Key, bits: set<Bit>)
    requires Accepted(g, GrantPrivileges(x, k, bits)) && bits != {}
    ensures var h := Apply(g, GrantPrivileges(x, k, bits));
            Accepted(h, RevokePrivileges(x, k, bits)) && SameLinks(g, Apply(h, RevokePrivileges(x, k, bits)))
  {
    var b :| b in bits;
    var h := Apply(g, GrantPrivileges(x, k, bits));
    GrantAddsDirect(g, x, k, bits, x, k, b);
    assert Accepted(h, RevokePrivileges(x, k, bits));
    RevokeTakesDirect(h, x, k, bits, x, k, b);
  }

  lemma SameGraph<G>(g: Graph<G>, r: Graph<G>, x: G, k: Key)
    requires SameLinks(g, r) && x in g && (k in g[x].direct ==> g[x].direct[k] != {})
    requires forall y, k' | y in g ::
               && Get(r[y].direct, k') == Get(g[y].direct, k')
               && (k' in r[y].direct <==> k' in g[y].direct && !(y == x && k' == k && Get(g[x].direct, k) == {}))
    ensures r == g
  {
    forall y | y in g ensures r[y] == g[y] {
      SameMap(r[y].direct, g[y].direct);
    }
  }

  lemma SameMap(m: PrivMap, n: PrivMap)
    requires forall k :: Get(m, k) == Get(n, k) && (k in m <==> k in n)
    ensures m == n
  {
    forall k | k in m ensures m[k] == n[k] { assert Get(m, k) == Get(n, k); }
  }

  lemma RunOfTwo<G>(g: Graph<G>, op: Op<G>, op': Op<G>)
    ensures Run(g, [op, op']) == Apply(Apply(g, op), op')
  {
    assert [op, op'][..1] == [op] && [op][..0] == [];
    assert Run(g, []) == g && Run(g, [op]) == Apply(g, op);
  }

  lemma PutAndTaken<G>(g: Graph<G>, h: Graph<G>, r: Graph<G>, x: G, k: Key, bits: set<Bit>, y: G, k': Key)
    requires Accepted(g, GrantPrivileges(x, k, bits)) && h == Apply(g, GrantPrivileges(x, k, bits))
    requires Accepted(h, RevokePrivileges(x, k, bits)) && r == Apply(h, RevokePrivileges(x, k, bits))
    requires y in g && Get(g[x].direct, k) !! bits
    ensures y in h && y in r && Get(r[y].direct, k') == Get(g[y].direct, k')
    ensures k' in r[y].direct <==> k' in g[y].direct && !(y == x && k' == k && Get(g[x].direct, k) == {})
  {
    forall z, j, b: Bit | z in g
      ensures z in h && (b in Get(h[z].direct, j) <==> b in Get(g[z].direct, j) || (z == x && j == k && b in bits))
    {
      GrantAddsDirect(g, x, k, bits, z, j, b);
    }
    GrantAddsDirect(g, x, k, bits, y, k', 0);
    RevokeTakesDirect(h, x, k, bits, y, k', 0);
    forall b: Bit ensures b in Get(r[y].direct, k') <==> b in Get(g[y].direct, k') {
      RevokeTakesDirect(h, x, k, bits, y, k', b);
    }
    hide Apply, Accepted;
    assert Get(h[x].direct, k) <= bits <==> Get(g[x].direct, k) == {};
  }

  // ---------------------------------------------------------------- roles

  /** Granting r to x gives those at and below x what r has, and changes nothing else. */
  lemma RoleGivesEffective<G>(g: Graph<G>, c: Cache<G>, h: Graph<G>, d: Cache<G>, x: G, r: G, y: G, k: Key, b: Bit)
    requires WellFormed(g) && Accepted(g, GrantRole(x, r)) && h == Apply(g, GrantRole(x, r)) && y in g
    requires Exact(g, c) && Exact(h, d)
    ensures y in d && (b in Get(d[y], k) <==> b in Get(c[y], k) || (Reaches(g, y, x) && b in Get(c[r], k)))
  {
    forall z | z in g ensures Reaches(h, y, z) <==> Reaches(g, y, z) || (Reaches(g, y, x) && Reaches(g, r, z)) {
      ReachesWithEdge(g, x, r, y, z);
    }
    assert h.Keys == g.Keys && forall z | z in g :: h[z].direct == g[z].direct;
    hide Apply, Accepted, Reaches, WellFormed;
    InheritsThrough(g, h, x, r, y, k, b);
  }

  lemma InheritsThrough<G>(g: Graph<G>, h: Graph<G>, x: G, r: G, y: G, k: Key, b: Bit)
    requires h.Keys == g.Keys && forall z | z in g :: h[z].direct == g[z].direct
    requires forall z | z in g :: Reaches(h, y, z) <==> Reaches(g, y, z) || (Reaches(g, y, x) && Reaches(g, r, z))
    ensures Inherits(h, y, k, b) <==> Inherits(g, y, k, b) || (Reaches(g, y, x) && Inherits(g, r, k, b))
  {
    hide Reaches;
    if Inherits(h, y, k, b) {
      var z :| z in h && Reaches(h, y, z) && b in Get(h[z].direct, k);
      assert b in Get(g[z].direct, k);
    }
    if Inherits(g, y, k, b) {
      var z :| z in g && Reaches(g, y, z) && b in Get(g[z].direct, k);
      assert Reaches(h, y, z);
    }
    if Reaches(g, y, x) && Inherits(g, r, k, b) {
      var z :| z in g && Reaches(g, r, z) && b in Get(g[z].direct, k);
      assert Reaches(h, y, z);
    }
  }

  lemma ReachesWithEdge<G>(g: Graph<G>, x: G, r: G, y: G, z: G)
    requires Linked(g) && x in g && r in g && y in g
    ensures Reaches(WithEdge(g, x, r), y, z) <==> Reaches(g, y, z) || (Reaches(g, y, x) && Reaches(g, r, z))
  {
    var h := WithEdge(g, x, r);
    if Reaches(h, y, z) {
      var n: nat :| ReachesIn(h, y, z, n);
      WalkWithEdge(g, x, r, y, z, n);
    }
    if Reaches(g, y, z) { ReachesGrows(g, h, y, z); }
    if Reaches(g, y, x) && Reaches(g, r, z) {
      ReachesGrows(g, h, y, x);
      ReachesGrows(g, h, r, z);
      ReachesRole(h, x, r);
      ReachesTransitive(h, y, x, r);
      ReachesTransitive(h, y, r, z);
    }
  }

  /** Revoking r from x: before, those at and below x had what they have now and what r has. */
  lemma RoleTakesEffective<G>(g: Graph<G>, c: Cache<G>, h: Graph<G>, d: Cache<G>, x: G, r: G, y: G, k: Key, b: Bit)
    requires WellFormed(g) && Accepted(g, RevokeRole(x, r)) && h == Apply(g, RevokeRole(x, r)) && y in g
    requires Exact(g, c) && Exact(h, d)
    ensures y in d && r in d && Get(d[r], k) == Get(c[r], k)
    ensures b in Get(c[y], k) <==> b in Get(d[y], k) || (Reaches(h, y, x) && b in Get(d[r], k))
  {
    NoEdgeThenEdge(g, x, r);
    WithoutEdgeWellFormed(g, x, r);
    NotBack(g, x, r);
    assert Accepted(h, GrantRole(x, r)) && Apply(h, GrantRole(x, r)) == g;
    RoleGivesEffective(h, d, g, c, x, r, y, k, b);
    RoleAbove(g, c, h, d, x, r, k);
  }

  lemma NoEdgeThenEdge<G>(g: Graph<G>, x: G, r: G)
    requires Linked(g) && x in g && r in g[x].roles
    ensures r in g && WithEdge(WithoutEdge(g, x, r), x, r) == g
  {
    var h := WithEdge(WithoutEdge(g, x, r), x, r);
    forall y | y in g ensures h[y] == g[y] {
      assert h[y].roles == g[y].roles && h[y].grantees == g[y].grantees;
    }
  }

  lemma NotBack<G>(g: Graph<G>, x: G, r: G)
    requires WellFormed(g) && x in g && r in g[x].roles
    ensures r in g && !Reaches(g, r, x) && !Reaches(WithoutEdge(g, x, r), r, x)
  {
    LinkShrinks(g, x, r);
    if Reaches(g, r, x) {
      forall y | y in Up(g, x) ensures y in Up(g, r) { ReachesTransitive(g, r, x, y); }
    }
    if Reaches(WithoutEdge(g, x, r), r, x) { ReachesGrows(WithoutEdge(g, x, r), g, r, x); }
  }

  lemma RoleAbove<G>(g: Graph<G>, c: Cache<G>, h: Graph<G>, d: Cache<G>, x: G, r: G, k: Key)
    requires WellFormed(g) && Accepted(g, RevokeRole(x, r)) && h == Apply(g, RevokeRole(x, r))
    requires Exact(g, c) && Exact(h, d)
    ensures r in d && r in c && Get(d[r], k) == Get(c[r], k)
  {
    NotBack(g, x, r);
    OnlyBelowChanges(g, c, h, d, RevokeRole(x, r), r);
  }

  // ---------------------------------------------------------------- removing a grantee

  /** Destroying x removes it and its links; all else about the others stays. */
  lemma DestroyTakesLinks<G>(g: Graph<G>, x: G, y: G, z: G)
    requires x in g && y in g
    ensures var h := Apply(g, Destroy(x));
            && (y in h <==> y != x)
            && (y != x ==>
                  && h[y].isUser == g[y].isUser && h[y].direct == g[y].direct
                  && (z in h[y].roles <==> z in g[y].roles && z != x)
                  && (z in h[y].grantees <==> z in g[y].grantees && z != x))
  {
  }
}
