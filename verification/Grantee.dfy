/** Users and roles as linked mutable objects, each with a cache of effective privileges that
    every operation edits in place and then pushes down the links. */
module Grantees {
  import opened GrantGraph
  import opened GrantOps
  import opened Worklist

  ghost function Links(all: set<Grantee>): Graph<Grantee>
    reads all`roles, all`grantees, all`direct
  {
    map x | x in all :: Node(x.isUser, x.roles, x.grantees, x.direct)
  }

  ghost function Caches(all: set<Grantee>): Cache<Grantee>
    reads all`effective
  {
    map x | x in all :: x.effective
  }

  /** The graph is in order and every cache lists exactly what its grantee inherits. */
  ghost predicate Consistent(all: set<Grantee>)
    reads all
  {
    WellFormed(Links(all)) && Exact(Links(all), Caches(all))
  }

  /** Every direct key with a bit has a cache entry, which is what a pull relies on. */
  ghost predicate KeysCached(all: set<Grantee>)
    reads all
  {
    forall x, k | x in all && k in x.direct && x.direct[k] != {} :: k in x.effective
  }

  /** Nodes outside `stale` are up to date, in a graph that is in order. */
  ghost predicate UpToDateBut(all: set<Grantee>, stale: set<Grantee>)
    reads all
  {
    && WellFormed(Links(all)) && KeysCached(all)
    && OutOfDate(Links(all), Caches(all)) <= stale
  }

  lemma ConsistentIffNoneStale(all: set<Grantee>)
    ensures Consistent(all) <==> UpToDateBut(all, {})
  {
    if WellFormed(Links(all)) {
      UpToDateIffExact(Links(all), Caches(all));
      if Consistent(all) {
        ExactCachesKeys(Links(all), Caches(all));
        forall x, k | x in all && k in x.direct && x.direct[k] != {} ensures k in x.effective {
          assert x in Links(all) && k in Links(all)[x].direct;
        }
      }
    }
  }

  lemma MoreStale(all: set<Grantee>, s: set<Grantee>, t: set<Grantee>)
    requires UpToDateBut(all, s) && s <= t
    ensures UpToDateBut(all, t)
  {
  }

  lemma GranteeIsBelow(all: set<Grantee>, stale: set<Grantee>, x: Grantee, y: Grantee)
    requires x in all && UpToDateBut(all, stale) && y in x.grantees
    ensures y in all && Down(Links(all), y) < Down(Links(all), x)
  {
    var g := Links(all);
    assert g[x].grantees == x.grantees;
    assert y in g && x in g[y].roles;
    LinkShrinks(g, y, x);
  }

  /** Exact caches have an entry for every direct key with a bit. */
  lemma ExactCachesKeys(g: Graph<Grantee>, c: Cache<Grantee>)
    requires Exact(g, c)
    ensures forall x, k | x in g && k in g[x].direct && g[x].direct[k] != {} ::
              k in c[x] && g[x].direct[k] <= c[x][k]
  {
    forall x, k | x in g && k in g[x].direct && g[x].direct[k] != {}
      ensures k in c[x] && g[x].direct[k] <= c[x][k]
    {
      ReachesSelf(g, x);
      forall b: Bit | b in g[x].direct[k] ensures b in Get(c[x], k) {
        assert Inherits(g, x, k, b);
      }
    }
  }

  class Grantee {
    const name: string
    const isUser: bool
    var roles: set<Grantee>
    var grantees: set<Grantee>
    var effective: PrivMap
    var direct: PrivMap

    constructor (name: string, isUser: bool)
      ensures this.name == name && this.isUser == isUser
      ensures roles == {} && grantees == {} && effective == map[] && direct == map[]
    {
      this.name := name;
      this.isUser := isUser;
      roles, grantees, effective, direct := {}, {}, map[], map[];
    }

    // -------------------------------------------------------------- pulling from the roles above

    method ResetEffective()
      modifies this`effective
      ensures effective.Keys == old(effective).Keys && forall k | k in effective :: effective[k] == {}
    {
      var rest := effective.Keys;
      while rest != {}
        invariant rest <= effective.Keys == old(effective).Keys
        invariant forall k | k in effective && k !in rest :: effective[k] == {}
      {
        var k :| k in rest;
        effective := effective[k := {}];
        rest := rest - {k};
      }
    }

    method LoadDirect()
      modifies this`effective
      ensures effective.Keys == old(effective).Keys
      ensures forall k | k in effective :: effective[k] == old(effective)[k] + Get(direct, k)
    {
      var rest := direct.Keys;
      while rest != {}
        invariant rest <= direct.Keys && effective.Keys == old(effective).Keys
        invariant forall k | k in effective ::
                    effective[k] == old(effective)[k] + if k in rest then {} else Get(direct, k)
      {
        var k :| k in rest;
        if k in effective {
          effective := effective[k := effective[k] + direct[k]];
        }
        rest := rest - {k};
      }
    }

    method LoadRole(role: Grantee)
      requires role != this
      modifies this`effective
      ensures forall k :: Get(effective, k) == Get(old(effective), k) + Get(role.effective, k)
    {
      var rest := role.effective.Keys;
      while rest != {}
        invariant rest <= role.effective.Keys
        invariant forall k :: Get(effective, k) ==
                              Get(old(effective), k) + if k in rest then {} else Get(role.effective, k)
      {
        var k :| k in rest;
        if k in effective {
          effective := effective[k := effective[k] + role.effective[k]];
        } else {
          effective := effective[k := role.effective[k]];
        }
        rest := rest - {k};
      }
    }

    method EraseEmpty()
      modifies this`effective
      ensures Clean(effective) && forall k :: Get(effective, k) == Get(old(effective), k)
    {
      var rest := effective.Keys;
      while rest != {}
        invariant rest <= effective.Keys
        invariant forall k | k in effective && k !in rest :: effective[k] != {}
        invariant forall k :: Get(effective, k) == Get(old(effective), k)
      {
        var k :| k in rest;
        rest := rest - {k};
        if effective[k] == {} {
          effective := effective - {k};
        }
      }
    }

    /** Recompute the cache from the direct privileges and the caches of the granted roles. */
    method Pull(ghost all: set<Grantee>)
      requires this in all && WellFormed(Links(all)) && KeysCached(all)
      modifies this`effective
      ensures Clean(effective)
      ensures forall k, b: Bit :: b in Get(effective, k) <==> Pulls(Links(all), old(Caches(all)), this, k, b)
    {
      ghost var g, c := Links(all), Caches(all);
      assert g[this].roles == roles <= c.Keys;
      if this in roles { LinkShrinks(g, this, this); }
      ResetEffective();
      LoadDirect();
      assert forall k :: Get(effective, k) == Get(direct, k);
      var rest := roles;
      while rest != {}
        invariant rest <= roles
        invariant forall k, b: Bit :: b in Get(effective, k) <==>
                                      b in Get(direct, k) || exists r | r in roles - rest :: b in Get(c[r], k)
      {
        var r :| r in rest;
        assert r in g && r.effective == c[r];
        if |r.effective| > 0 {
          LoadRole(r);
        }
        assert forall k, b: Bit :: b in Get(c[r], k) ==> r.effective != map[];
        assert roles - (rest - {r}) == (roles - rest) + {r};
        rest := rest - {r};
      }
      assert roles - rest == roles;
      EraseEmpty();
    }

    /** The pull mends this node and can put only its grantees out of date. */
    lemma PulledHere(all: set<Grantee>, stale: set<Grantee>, g: Graph<Grantee>, c: Cache<Grantee>)
      requires this in all && WellFormed(g) && c.Keys == g.Keys && OutOfDate(g, c) <= stale
      requires Links(all) == g && Caches(all) == c[this := effective] && Clean(effective)
      requires forall x, k | x in all && x != this && k in x.direct && x.direct[k] != {} :: k in x.effective
      requires forall k, b: Bit :: b in Get(effective, k) <==> Pulls(g, c, this, k, b)
      ensures UpToDateBut(all, (stale - {this}) + grantees)
    {
      PullMends(g, c, this, effective);
      forall k | k in direct && direct[k] != {} ensures k in effective {
        var b :| b in direct[k];
        assert Pulls(g, c, this, k, b);
        assert b in Get(effective, k);
      }
    }

    method PullPrivileges(ghost all: set<Grantee>, ghost stale: set<Grantee>)
      requires this in all && UpToDateBut(all, stale)
      modifies this`effective
      ensures UpToDateBut(all, (stale - {this}) + grantees)
    {
      ghost var g, c := Links(all), Caches(all);
      Pull(all);
      assert Caches(all) == c[this := effective];
      PulledHere(all, stale, g, c);
    }

    /** Pull, then push to every grantee, depth first and revisiting shared descendants. No node
        is put out of date; this node and its grantees are mended. */
    method UpdatePrivileges(ghost all: set<Grantee>, ghost stale: set<Grantee>)
      requires this in all && UpToDateBut(all, stale)
      modifies all`effective
      ensures UpToDateBut(all, stale - {this} - grantees)
      decreases Down(Links(all), this)
    {
      hide *;
      PullPrivileges(all, stale);
      ghost var others := stale - {this} - grantees;
      if !isUser {
        var rest := grantees;
        MoreStale(all, (stale - {this}) + grantees, others + rest);
        while rest != {}
          invariant rest <= grantees && UpToDateBut(all, others + rest)
        {
          var x :| x in rest;
          GranteeIsBelow(all, others + rest, this, x);
          x.UpdatePrivileges(all, others + rest);
          MoreStale(all, others + rest - {x} - x.grantees, others + (rest - {x}));
          rest := rest - {x};
        }
        assert others + rest == others;
      } else {
        UsersGrantNobody(all, (stale - {this}) + grantees);
        assert (stale - {this}) + grantees == others;
      }
    }

    lemma UsersGrantNobody(all: set<Grantee>, stale: set<Grantee>)
      requires this in all && isUser && UpToDateBut(all, stale)
      ensures grantees == {}
    {
      assert Links(all)[this].isUser;
    }

    // -------------------------------------------------------------- walks over the links

    /** True exactly when the new role is this node or below it. */
    method CheckCycles(newRole: Grantee, ghost all: set<Grantee>) returns (cycle: bool)
      requires this in all && newRole in all && !newRole.isUser && WellFormed(Links(all))
      ensures cycle <==> Reaches(Links(all), newRole, this)
    {
      ghost var g := Links(all);
      UsersHaveNoGrantees(all);
      hide *;
      var stack := [this];
      SearchStarts(g, false, this, newRole);
      while stack != []
        invariant Searching(g, false, this, newRole, stack)
        decreases Load(g, false, stack)
      {
        var top := stack[|stack| - 1];
        StackedInside(all, false, this, newRole, stack);
        stack := stack[..|stack| - 1];
        var next := stack;
        ghost var pushed: seq<Grantee> := [];
        if !top.isUser {
          if top == newRole {
            return true;
          }
          next, pushed := PushAll(stack, top.grantees);
        } else {
          ListsNothing(top.grantees);
          assert next == stack + pushed;
        }
        SearchStep(g, false, this, newRole, stack, top, pushed);
        stack := next;
      }
      SearchFails(g, false, this, newRole);
      return false;
    }

    /** Whether the role is granted directly, or is this node or anywhere above it. */
    method HasRole(role: Grantee, onlyDirect: bool, ghost all: set<Grantee>) returns (has: bool)
      requires this in all && role in all && WellFormed(Links(all))
      ensures has <==> if onlyDirect then role in roles else Reaches(Links(all), this, role)
    {
      if onlyDirect {
        return role in roles;
      }
      ghost var g := Links(all);
      hide *;
      var stack := [this];
      SearchStarts(g, true, this, role);
      while stack != []
        invariant Searching(g, true, this, role, stack)
        decreases Load(g, true, stack)
      {
        var top := stack[|stack| - 1];
        StackedInside(all, true, this, role, stack);
        stack := stack[..|stack| - 1];
        if top == role {
          return true;
        }
        var next, pushed := PushAll(stack, top.roles);
        SearchStep(g, true, this, role, stack, top, pushed);
        stack := next;
      }
      SearchFails(g, true, this, role);
      return false;
    }

    /** The names of the roles granted directly, or of all those strictly above this node. */
    method GetRoles(onlyDirect: bool, ghost all: set<Grantee>) returns (names: set<string>)
      requires this in all && WellFormed(Links(all))
      ensures names == NamesOf(if onlyDirect then roles else Up(Links(all), this) - {this})
    {
      hide *;
      MapsHere(all);
      ghost var g := Links(all);
      ghost var found: set<Grantee> := {};
      names := NamesOf({});
      var stack := [this];
      CollectStarts(g, this);
      while stack != []
        invariant Collecting(g, this, stack, found) && names == NamesOf(found)
        invariant onlyDirect ==> stack == [this] && found == {}
        decreases Load(g, true, stack)
      {
        var top := stack[|stack| - 1];
        CollectInside(all, this, stack, found);
        stack := stack[..|stack| - 1];
        var next, pushed := PushAll(stack, top.roles);
        NamesOfUnion(found, top.roles);
        names := names + NamesOf(top.roles);
        CollectStep(g, this, stack, top, pushed, found);
        found := found + top.roles;
        stack := next;
        if onlyDirect {
          assert found == roles;
          return;
        }
      }
      CollectEnds(g, this, found);
    }

    // -------------------------------------------------------------- granting and revoking

    /** The state between an edit of this node's maps and the push that follows. */
    lemma Edited(all: set<Grantee>, g: Graph<Grantee>, c: Cache<Grantee>)
      requires this in all && WellFormed(g) && Exact(g, c) && g.Keys == all
      requires Links(all) == WithDirect(g, this, direct) && Caches(all) == c[this := effective]
      requires forall k | k in direct && direct[k] != {} :: k in effective
      ensures UpToDateBut(all, {this} + grantees)
    {
      var h := Links(all);
      assert SameLinks(g, h);
      SameLinksSameReach(g, h);
      UpToDateIffExact(g, c);
      GraphEditSpoils(g, h, c, this);
      EditSpoils(h, c, this, effective);
      ExactCachesKeys(g, c);
      forall x, k | x in all && x != this && k in x.direct && x.direct[k] != {} ensures k in x.effective {
        assert x in h && h[x].direct == g[x].direct && Caches(all)[x] == c[x];
      }
    }

    /** Push after an edit of this node, which leaves everything consistent again. */
    method UpdateAll(ghost all: set<Grantee>)
      requires this in all && UpToDateBut(all, {this} + grantees)
      modifies all`effective
      ensures Consistent(all)
    {
      hide *;
      UpdatePrivileges(all, {this} + grantees);
      assert {this} + grantees - {this} - grantees == {};
      ConsistentIffNoneStale(all);
    }

    /** Replace both maps of this node. */
    method Store(e: PrivMap, d: PrivMap, ghost all: set<Grantee>)
      requires this in all
      modifies this`effective, this`direct
      ensures Caches(all) == old(Caches(all))[this := e] && effective == e
      ensures Links(all) == WithDirect(old(Links(all)), this, d) && direct == d
    {
      effective := e;
      direct := d;
    }

    method GrantPrivileges(k: Key, bits: set<Bit>, ghost all: set<Grantee>)
      requires this in all && Consistent(all) && k.dbId != -1
      modifies all`effective, this`direct
      ensures Consistent(all)
      ensures Links(all) == Apply(old(Links(all)), Op.GrantPrivileges(this, k, bits))
      ensures forall k' :: Get(direct, k') == Get(old(direct), k') + (if k' == k then bits else {})
    {
      EditsOf(direct, k, bits);
      hide *;
      InOrder(all);
      ghost var g, c := Links(all), Caches(all);
      MapsHere(all);
      Store(Granted(effective, k, bits), Granted(direct, k, bits), all);
      GrantedHere(all, g, c, k, bits);
      UpdateAll(all);
    }

    lemma GrantedHere(all: set<Grantee>, g: Graph<Grantee>, c: Cache<Grantee>, k: Key, bits: set<Bit>)
      requires this in all && WellFormed(g) && Exact(g, c) && g.Keys == all && k.dbId != -1
      requires Caches(all) == c[this := Granted(c[this], k, bits)]
      requires Links(all) == WithDirect(g, this, Granted(g[this].direct, k, bits))
      ensures UpToDateBut(all, {this} + grantees)
      ensures Links(all) == Apply(g, Op.GrantPrivileges(this, k, bits))
    {
      hide Linked, Acyclic, Reaches;
      ExactCachesKeys(g, c);
      assert direct == Links(all)[this].direct && effective == Caches(all)[this];
      Edited(all, g, c);
    }

    /** Fails, changing nothing, when there is nothing to revoke; otherwise returns what is left. */
    method RevokePrivileges(k: Key, bits: set<Bit>, ghost all: set<Grantee>) returns (ok: bool, left: set<Bit>)
      requires this in all && Consistent(all) && k.dbId != -1
      modifies all`effective, this`direct
      ensures Consistent(all)
      ensures ok <==> Accepted(old(Links(all)), Op.RevokePrivileges(this, k, bits))
      ensures Links(all) == Apply(old(Links(all)), Op.RevokePrivileges(this, k, bits))
      ensures ok <==> Get(old(direct), k) != {}
      ensures forall k' :: Get(direct, k') == Get(old(direct), k') - (if ok && k' == k then bits else {})
      ensures left == Get(direct, k)
    {
      EditsOf(direct, k, bits);
      hide *;
      InOrder(all);
      RevocableHere(all, k, bits);
      if k !in direct || direct[k] == {} {
        return false, {};
      }
      ghost var g, c := Links(all), Caches(all);
      MapsHere(all);
      var d := Revoked(direct, k, bits);
      left := Get(d, k);
      var e := if k in effective && effective[k] != {} then Revoked(effective, k, bits) else effective;
      Store(e, d, all);
      RevokedHere(all, g, c, k, bits);
      UpdateAll(all);
      ok := true;
    }

    lemma EditsOf(m: PrivMap, k: Key, bits: set<Bit>)
      ensures Get(m, k) != {} <==> k in m && m[k] != {}
      ensures forall k' :: Get(Granted(m, k, bits), k') == Get(m, k') + (if k' == k then bits else {})
      ensures forall k' :: Get(Revoked(m, k, bits), k') == Get(m, k') - (if k' == k then bits else {})
    {
    }

    lemma MapsHere(all: set<Grantee>)
      requires this in all
      ensures this in Links(all) && Links(all)[this].direct == direct && Caches(all)[this] == effective
    {
    }

    lemma RevocableHere(all: set<Grantee>, k: Key, bits: set<Bit>)
      requires this in all && Consistent(all) && k.dbId != -1
      ensures Accepted(Links(all), Op.RevokePrivileges(this, k, bits)) <==> k in direct && direct[k] != {}
      ensures k in direct && direct[k] != {} ==> k in effective && effective[k] != {}
      ensures k !in direct || direct[k] == {} ==>
                Get(direct, k) == {} && Apply(Links(all), Op.RevokePrivileges(this, k, bits)) == Links(all)
    {
      ExactCachesKeys(Links(all), Caches(all));
      assert direct == Links(all)[this].direct && effective == Caches(all)[this];
    }

    lemma RevokedHere(all: set<Grantee>, g: Graph<Grantee>, c: Cache<Grantee>, k: Key, bits: set<Bit>)
      requires this in all && WellFormed(g) && Exact(g, c) && g.Keys == all
      requires Accepted(g, Op.RevokePrivileges(this, k, bits))
      requires Caches(all) == c[this := Revoked(c[this], k, bits)]
      requires Links(all) == WithDirect(g, this, Revoked(g[this].direct, k, bits))
      ensures UpToDateBut(all, {this} + grantees)
      ensures Links(all) == Apply(g, Op.RevokePrivileges(this, k, bits))
    {
      ExactCachesKeys(g, c);
      assert direct == Links(all)[this].direct && effective == Caches(all)[this];
      Edited(all, g, c);
    }

    method AddGrantee(x: Grantee) returns (ok: bool)
      modifies this`grantees
      ensures ok <==> x !in old(grantees)
      ensures grantees == old(grantees) + {x}
    {
      ok := x !in grantees;
      if ok {
        grantees := grantees + {x};
      }
    }

    method RemoveGrantee(x: Grantee) returns (ok: bool)
      modifies this`grantees
      ensures ok <==> x in old(grantees)
      ensures grantees == old(grantees) - {x}
    {
      ok := x in grantees;
      if ok {
        grantees := grantees - {x};
      }
    }

    /** The state between a change of this node's roles and the push that follows. */
    lemma Relinked(all: set<Grantee>, g: Graph<Grantee>, c: Cache<Grantee>)
      requires this in all && WellFormed(g) && Exact(g, c) && g.Keys == all && Caches(all) == c
      requires WellFormed(Links(all))
      requires forall y | y in all :: y.direct == g[y].direct && (y != this ==> y.roles == g[y].roles)
      ensures UpToDateBut(all, {this} + grantees)
    {
      ExactCachesKeys(g, c);
      UpToDateIffExact(g, c);
      GraphEditSpoils(g, Links(all), c, this);
      forall x, k | x in all && k in x.direct && x.direct[k] != {} ensures k in x.effective {
        assert x in g && Caches(all)[x] == c[x];
      }
    }

    method LinkHere(role: Grantee, ghost all: set<Grantee>) returns (ok: bool)
      requires this in all && role in all
      modifies this`roles, role`grantees
      ensures Links(all) == WithEdge(old(Links(all)), this, role) && roles == old(roles) + {role}
    {
      roles := roles + {role};
      ok := role.AddGrantee(this);
    }

    lemma LinkedHere(all: set<Grantee>, g: Graph<Grantee>, c: Cache<Grantee>, role: Grantee)
      requires this in all && WellFormed(g) && Exact(g, c) && g.Keys == all && Caches(all) == c
      requires Accepted(g, Op.GrantRole(this, role)) && Links(all) == WithEdge(g, this, role)
      ensures UpToDateBut(all, {this} + grantees)
      ensures Links(all) == Apply(g, Op.GrantRole(this, role))
    {
      EdgeAcyclicIff(g, this, role);
      EdgeKeepsLinked(g, this, role);
      forall y | y in all ensures y.direct == g[y].direct && (y != this ==> y.roles == g[y].roles) {
        assert Links(all)[y].direct == g[y].direct;
      }
      Relinked(all, g, c);
    }

    lemma GrantableHere(all: set<Grantee>, role: Grantee)
      requires this in all && role in all && !role.isUser
      ensures Accepted(Links(all), Op.GrantRole(this, role)) <==> role !in roles && !Reaches(Links(all), role, this)
      ensures role in roles || Reaches(Links(all), role, this) ==>
                Apply(Links(all), Op.GrantRole(this, role)) == Links(all)
    {
    }

    /** Refused exactly when the role is already granted or the grant would close a cycle. */
    method GrantRole(role: Grantee, ghost all: set<Grantee>) returns (ok: bool)
      requires this in all && role in all && !role.isUser && Consistent(all)
      modifies all`effective, this`roles, role`grantees
      ensures Consistent(all)
      ensures ok <==> Accepted(old(Links(all)), Op.GrantRole(this, role))
      ensures Links(all) == Apply(old(Links(all)), Op.GrantRole(this, role))
      ensures ok <==> role !in old(roles) && !Reaches(old(Links(all)), role, this)
      ensures roles == old(roles) + if ok then {role} else {}
    {
      hide *;
      InOrder(all);
      GrantableHere(all, role);
      if role in roles {
        return false;
      }
      var cycle := CheckCycles(role, all);
      if cycle {
        return false;
      }
      ghost var g, c := Links(all), Caches(all);
      var added := LinkHere(role, all);
      LinkedHere(all, g, c, role);
      UpdateAll(all);
      ok := true;
    }

    method UnlinkHere(role: Grantee, ghost all: set<Grantee>) returns (ok: bool)
      requires this in all && role in all
      modifies this`roles, role`grantees
      ensures Links(all) == WithoutEdge(old(Links(all)), this, role) && roles == old(roles) - {role}
      ensures ok <==> this in old(Links(all))[role].grantees
    {
      roles := roles - {role};
      ok := role.RemoveGrantee(this);
    }

    lemma UnlinkedHere(all: set<Grantee>, g: Graph<Grantee>, c: Cache<Grantee>, role: Grantee, ok: bool)
      requires this in all && role in all && WellFormed(g) && Exact(g, c) && g.Keys == all && Caches(all) == c
      requires !g[role].isUser && Links(all) == WithoutEdge(g, this, role) && (ok <==> this in g[role].grantees)
      ensures ok <==> Accepted(g, Op.RevokeRole(this, role))
      ensures !ok ==> Consistent(all)
      ensures ok ==> UpToDateBut(all, {this} + grantees)
      ensures Links(all) == Apply(g, Op.RevokeRole(this, role))
    {
      assert role in g[this].roles <==> this in g[role].grantees;
      WithoutEdgeWellFormed(g, this, role);
      if ok {
        forall y | y in all ensures y.direct == g[y].direct && (y != this ==> y.roles == g[y].roles) {
          assert Links(all)[y].direct == g[y].direct;
        }
        Relinked(all, g, c);
      } else {
        NoEdgeToRemove(g, this, role);
      }
    }

    static lemma LinkedAt(g: Graph<Grantee>, x: Grantee, r: Grantee)
      requires WellFormed(g) && x in g && r in g
      ensures r in g[x].roles <==> x in g[r].grantees
    {
    }

    /** Fails, changing nothing, when the role was not granted. */
    method RevokeRole(role: Grantee, ghost all: set<Grantee>) returns (ok: bool)
      requires this in all && role in all && !role.isUser && Consistent(all)
      modifies all`effective, this`roles, role`grantees
      ensures Consistent(all)
      ensures ok <==> Accepted(old(Links(all)), Op.RevokeRole(this, role))
      ensures Links(all) == Apply(old(Links(all)), Op.RevokeRole(this, role))
      ensures (ok <==> role in old(roles)) && roles == old(roles) - {role}
    {
      hide *;
      InOrder(all);
      FieldsOf(all);
      LinkedAt(Links(all), this, role);
      ghost var g, c := Links(all), Caches(all);
      ok := UnlinkHere(role, all);
      UnlinkedHere(all, g, c, role, ok);
      if ok {
        UpdateAll(all);
      }
    }

    // -------------------------------------------------------------- wiping a database

    /** What happens at one node: both maps lose the database, then the node is recomputed. */
    method RevokeAllHere(db: int, ghost all: set<Grantee>)
      requires this in all && Consistent(all)
      modifies all`effective, this`direct
      ensures Consistent(all)
      ensures Links(all) == WithoutDbIn(old(Links(all)), {this}, db)
    {
      hide *;
      InOrder(all);
      MapsHere(all);
      ghost var g, c := Links(all), Caches(all);
      var e := EraseDb(effective, db);
      var d := EraseDb(direct, db);
      Store(e, d, all);
      WipedHere(all, g, c, db);
      UpdateAll(all);
    }

    lemma WipedHere(all: set<Grantee>, g: Graph<Grantee>, c: Cache<Grantee>, db: int)
      requires this in all && WellFormed(g) && Exact(g, c) && g.Keys == all
      requires Caches(all) == c[this := WithoutDb(c[this], db)]
      requires Links(all) == WithDirect(g, this, WithoutDb(g[this].direct, db))
      ensures UpToDateBut(all, {this} + grantees)
      ensures Links(all) == WithoutDbIn(g, {this}, db)
    {
      ExactCachesKeys(g, c);
      assert direct == Links(all)[this].direct && effective == Caches(all)[this];
      Edited(all, g, c);
    }

    lemma UserSkips(all: set<Grantee>)
      requires this in all && WellFormed(Links(all))
      ensures Links(all)[this].grantees == grantees && (isUser ==> grantees == {})
    {
    }

    /** This node first, then every grantee in turn, again without a record of those visited. */
    method RevokeAllOnDatabase(db: int, ghost all: set<Grantee>)
      requires this in all && Consistent(all)
      modifies all`effective, all`direct
      ensures Consistent(all)
      ensures Links(all) == Apply(old(Links(all)), Op.RevokeAllOnDatabase(this, db))
      decreases Down(Links(all), this)
    {
      hide *;
      InOrder(all);
      MapsHere(all);
      ghost var g := Links(all);
      ghost var done := {this};
      SelfBelow(g, this);
      UserSkips(all);
      RevokeAllHere(db, all);
      var rest := if isUser then {} else grantees;
      while rest != {}
        invariant rest <= g[this].grantees && Consistent(all) && Links(all) == WithoutDbIn(g, done, db)
        invariant this in done && done <= Down(g, this)
        invariant forall y | y in g[this].grantees - rest :: Down(g, y) <= done
      {
        var x :| x in rest;
        BelowShrinks(g, this, x);
        WipeComposes(g, done, x, db);
        InOrder(all);
        x.RevokeAllOnDatabase(db, all);
        ApplyWipes(WithoutDbIn(g, done, db), x, db);
        done := done + Down(g, x);
        rest := rest - {x};
      }
      BelowIsCovered(g, this, done);
      ApplyWipes(g, this, db);
    }

    // -------------------------------------------------------------- destruction

    /** The role is revoked from every grantee, each time with a push. */
    method RevokeFromGrantees(ghost all: set<Grantee>)
      requires this in all && Consistent(all)
      modifies all`effective, all`roles, this`grantees
      ensures Consistent(all) && grantees == {}
      ensures Links(all) == WithoutEdges(old(Links(all)), this, old(Links(all))[this].grantees)
    {
      hide *;
      InOrder(all);
      UserSkips(all);
      ghost var g := Links(all);
      ghost var taken := {};
      NoEdgeTaken(g, this);
      while grantees != {}
        invariant Consistent(all) && Links(all) == WithoutEdges(g, this, taken)
        invariant taken + grantees == g[this].grantees && taken !! grantees
        decreases grantees
      {
        var x :| x in grantees;
        InOrder(all);
        HeldBy(all, x);
        var was := grantees;
        var ok := x.RevokeRole(this, all);
        RevokedFrom(all, WithoutEdges(g, this, taken), x, was);
        OneEdgeMore(g, this, taken, x);
        taken := taken + {x};
      }
      assert taken == g[this].grantees;
    }

    lemma HeldBy(all: set<Grantee>, x: Grantee)
      requires this in all && WellFormed(Links(all)) && x in grantees
      ensures x in all && x != this && !isUser && x in Links(all) && this in Links(all)
      ensures Accepted(Links(all), Op.RevokeRole(x, this)) && Links(all)[this].grantees == grantees
    {
      var g := Links(all);
      assert g[this].grantees == grantees && this in g[x].roles;
      LinkShrinks(g, x, this);
    }

    lemma RevokedFrom(all: set<Grantee>, g: Graph<Grantee>, x: Grantee, was: set<Grantee>)
      requires this in all && g.Keys == all && g[this].grantees == was && Accepted(g, Op.RevokeRole(x, this))
      requires Links(all) == Apply(g, Op.RevokeRole(x, this))
      ensures grantees == was - {x} && Links(all) == WithoutEdge(g, x, this)
    {
      assert Links(all)[this].grantees == grantees;
    }

    /** This node is struck from the grantees of its own roles. */
    method LeaveRoles(ghost all: set<Grantee>)
      requires this in all && WellFormed(Links(all))
      modifies all`grantees
      ensures forall y | y in all && y != this :: y.grantees == old(y.grantees) - {this}
    {
      ghost var g := Links(all);
      assert forall y | y in all :: this in y.grantees <==> y in roles by {
        forall y | y in all ensures this in y.grantees <==> y in roles {
          assert y in g && g[y].grantees == y.grantees && g[this].roles == roles;
        }
      }
      assert roles <= all by { assert g[this].roles == roles; }
      hide *;
      var rest := roles;
      while rest != {}
        invariant rest <= roles <= all
        invariant forall y | y in all ::
                    y.grantees == if y in roles - rest then old(y.grantees) - {this} else old(y.grantees)
      {
        var r :| r in rest;
        var ok := r.RemoveGrantee(this);
        rest := rest - {r};
      }
    }

    method Destroy(ghost all: set<Grantee>)
      requires this in all && Consistent(all)
      modifies all
      ensures Consistent(all - {this})
      ensures Links(all - {this}) == Apply(old(Links(all)), Op.Destroy(this))
    {
      hide *;
      InOrder(all);
      UserSkips(all);
      MapsHere(all);
      ghost var g := Links(all);
      RevokeFromGrantees(all);
      InOrder(all);
      FieldsOf(all);
      ghost var h, c := Links(all), Caches(all);
      LeaveRoles(all);
      Gone(all, g, h, c);
      effective, direct, roles := map[], map[], {};
    }

    lemma Gone(all: set<Grantee>, g: Graph<Grantee>, h: Graph<Grantee>, c: Cache<Grantee>)
      requires this in all && WellFormed(g) && g.Keys == all && h == WithoutEdges(g, this, g[this].grantees)
      requires WellFormed(h) && Exact(h, c) && Caches(all) == c && h.Keys == all
      requires forall y | y in all && y != this :: Node(y.isUser, y.roles, y.grantees, y.direct) ==
                                                   h[y].(grantees := h[y].grantees - {this})
      ensures Consistent(all - {this}) && Links(all - {this}) == Apply(g, Op.Destroy(this))
    {
      hide Exact, Linked, Acyclic, WithoutEdges;
      AllEdgesTaken(g, this);
      GoneLinks(all, h);
      UnheldNodeLeavesExact(h, c, this);
      WithoutNodeWellFormed(g, this);
      assert Caches(all - {this}) == c - {this};
    }

    lemma GoneLinks(all: set<Grantee>, h: Graph<Grantee>)
      requires this in all && h.Keys == all && forall y | y in all && y != this :: this !in h[y].roles
      requires forall y | y in all && y != this :: Node(y.isUser, y.roles, y.grantees, y.direct) ==
                                                   h[y].(grantees := h[y].grantees - {this})
      ensures Links(all - {this}) == WithoutNode(h, this)
    {
      forall y | y in all && y != this ensures Links(all - {this})[y] == WithoutNode(h, this)[y] {
        assert h[y].roles - {this} == h[y].roles;
      }
    }
  }

  /** A new user or role, not linked to anything. */
  method Create(name: string, isUser: bool, ghost all: set<Grantee>) returns (x: Grantee)
    requires Consistent(all)
    ensures fresh(x) && x.name == name && Consistent(all + {x})
    ensures Links(all + {x}) == Links(all)[x := Node(isUser, {}, {}, map[])]
  {
    x := new Grantee(name, isUser);
    NewNodeJoins(Links(all), Caches(all), x, isUser);
    assert Caches(all + {x}) == Caches(all)[x := map[]];
    assert Links(all + {x}) == Links(all)[x := Node(isUser, {}, {}, map[])];
  }

  /** One operation, or nothing at all when it cannot be asked for. */
  method Perform(all: set<Grantee>, op: Op<Grantee>) returns (alive: set<Grantee>)
    requires Consistent(all)
    modifies all
    ensures alive <= all && Consistent(alive)
    ensures Links(alive) == Apply(old(Links(all)), op)
  {
    hide *;
    InOrder(all);
    alive := all;
    if || op.x !in all
       || ((op.GrantPrivileges? || op.RevokePrivileges?) && op.k.dbId == -1)
       || ((op.GrantRole? || op.RevokeRole?) && (op.r !in all || op.r.isUser)) {
      NotCallableSkips(all, op);
      return;
    }
    match op
    case GrantPrivileges(x, k, bits) => x.GrantPrivileges(k, bits, all);
    case RevokePrivileges(x, k, bits) => var ok, left := x.RevokePrivileges(k, bits, all);
    case GrantRole(x, r) => var ok := x.GrantRole(r, all);
    case RevokeRole(x, r) => var ok := x.RevokeRole(r, all);
    case RevokeAllOnDatabase(x, db) => x.RevokeAllOnDatabase(db, all);
    case Destroy(x) => x.Destroy(all); alive := all - {x};
  }

  lemma NotCallableSkips(all: set<Grantee>, op: Op<Grantee>)
    requires || op.x !in all
             || ((op.GrantPrivileges? || op.RevokePrivileges?) && op.k.dbId == -1)
             || ((op.GrantRole? || op.RevokeRole?) && (op.r !in all || op.r.isUser))
    ensures Apply(Links(all), op) == Links(all)
  {
  }

  /** After any sequence of operations, in any graph, every live grantee's cache is exactly the
      union of the direct privileges at and above it, in the graph the operations describe. */
  method RunAll(all: set<Grantee>, ops: seq<Op<Grantee>>) returns (alive: set<Grantee>)
    requires Consistent(all)
    modifies all
    ensures alive <= all && WellFormed(Links(alive)) && Exact(Links(alive), Caches(alive))
    ensures Links(alive) == Run(old(Links(all)), ops)
  {
    ghost var g := Links(all);
    alive := all;
    for i := 0 to |ops|
      invariant alive <= all && Consistent(alive) && Links(alive) == Run(g, ops[..i])
    {
      alive := Perform(alive, ops[i]);
      assert ops[..i + 1][..i] == ops[..i];
    }
    assert ops[..|ops|] == ops;
  }

  lemma FieldsOf(all: set<Grantee>)
    ensures forall x | x in all :: Links(all)[x] == Node(x.isUser, x.roles, x.grantees, x.direct)
  {
  }

  lemma InOrder(all: set<Grantee>)
    requires Consistent(all)
    ensures WellFormed(Links(all)) && Exact(Links(all), Caches(all))
    ensures Links(all).Keys == Caches(all).Keys == all
  {
  }

  /** Erase the entries of one database. */
  method EraseDb(m: PrivMap, db: int) returns (r: PrivMap)
    ensures r == WithoutDb(m, db)
    ensures forall k :: if k in m && k.dbId != db then k in r && r[k] == m[k] else k !in r
  {
    r := m;
    var rest := m.Keys;
    while rest != {}
      invariant rest <= r.Keys <= m.Keys
      invariant forall k | k in m && k !in rest :: k in r <==> k.dbId != db
      invariant forall k | k in r :: r[k] == m[k]
    {
      var k :| k in rest;
      rest := rest - {k};
      if k.dbId == db {
        r := r - {k};
      }
    }
  }

  lemma SelfBelow(g: Graph<Grantee>, x: Grantee)
    requires x in g
    ensures x in Down(g, x)
  {
    ReachesSelf(g, x);
  }

  lemma BelowShrinks(g: Graph<Grantee>, x: Grantee, y: Grantee)
    requires WellFormed(g) && x in g && y in g[x].grantees
    ensures y in g && Down(g, y) < Down(g, x)
  {
    assert x in g[y].roles;
    LinkShrinks(g, y, x);
  }

  /** A set with x and everything below each of its grantees has everything below x. */
  lemma BelowIsCovered(g: Graph<Grantee>, x: Grantee, s: set<Grantee>)
    requires Linked(g) && x in g && x in s && s <= Down(g, x)
    requires forall y | y in g[x].grantees :: Down(g, y) <= s
    ensures s == Down(g, x)
  {
    forall z | z in Down(g, x) ensures z in s { ReachesLastStep(g, z, x); }
  }

  lemma ApplyWipes(g: Graph<Grantee>, x: Grantee, db: int)
    requires x in g
    ensures Apply(g, Op.RevokeAllOnDatabase(x, db)) == WithoutDbIn(g, Down(g, x), db)
    ensures Apply(g, Op.RevokeAllOnDatabase(x, db)) == WithoutDbBelow(g, x, db)
  {
  }

  lemma NoEdgeToRemove(g: Graph<Grantee>, x: Grantee, r: Grantee)
    requires Linked(g) && x in g && r in g && r !in g[x].roles
    ensures WithoutEdge(g, x, r) == g
  {
    var h := WithoutEdge(g, x, r);
    assert x !in g[r].grantees;
    forall y | y in g ensures h[y] == g[y] {
      assert h[y].roles == g[y].roles && h[y].grantees == g[y].grantees;
    }
  }

  function NamesOf(s: set<Grantee>): set<string> {
    set r | r in s :: r.name
  }

  lemma NamesOfUnion(s: set<Grantee>, t: set<Grantee>)
    ensures NamesOf(s + t) == NamesOf(s) + NamesOf(t)
  {
  }

  lemma UsersHaveNoGrantees(all: set<Grantee>)
    requires WellFormed(Links(all))
    ensures forall x | x in all && x.isUser :: x.grantees == {}
  {
    forall x | x in all && x.isUser ensures x.grantees == {} { assert Links(all)[x].isUser; }
  }

  lemma ListsNothing(s: set<Grantee>)
    requires s == {}
    ensures Lists([], s)
  {
  }

  lemma StackedInside(all: set<Grantee>, up: bool, from: Grantee, goal: Grantee, stack: seq<Grantee>)
    requires stack != [] && Searching(Links(all), up, from, goal, stack)
    ensures var top := stack[|stack| - 1];
            && stack == stack[..|stack| - 1] + [top] && top in all && top in Links(all)
            && Links(all)[top].roles == top.roles && Links(all)[top].grantees == top.grantees
            && Leads(Links(all), up, from, top)
  {
    assert stack[|stack| - 1] in stack;
  }

  lemma CollectInside(all: set<Grantee>, from: Grantee, stack: seq<Grantee>, found: set<Grantee>)
    requires stack != [] && Collecting(Links(all), from, stack, found)
    ensures var top := stack[|stack| - 1];
            && stack == stack[..|stack| - 1] + [top] && top in all && top in Links(all)
            && Links(all)[top].roles == top.roles
  {
    assert stack[|stack| - 1] in stack;
  }
}
