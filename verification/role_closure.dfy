/** Transitive inheritance: the depth-first walk of LookupAllInheritedRoles
    and CollectInheritedRolesRecursive over the role graph. One shared set is
    both the result and the visited set: a parent is walked only when it is
    newly inserted, which stops the walk on diamonds and on cycles alike.

    Two versions are modelled. `CollectAsWritten` follows the code as
    written, where a name missing from the graph is dereferenced after the
    warning (the walk has no result: `None`). `Collect` is the documented
    intent, where a missing name is a dead end with no parents; the rest of
    the model uses it. */
module RoleClosure {
  import opened Wrappers
  import opened RoleNames
  import opened RoleSpecs
  import opened RoleGraph

  /** The direct parents of a name; a name missing from the graph has none. */
  function Parents(g: Graph, x: string): seq<string> {
    if x in g then g[x].parents else []
  }

  /** Every name that is a parent somewhere in the graph: the walk never
      inserts anything else, which bounds it. */
  function ParentNames(g: Graph): set<string> {
    set k, p | k in g && p in g[k].parents :: p
  }

  lemma ParentsInParentNames(g: Graph, x: string)
    ensures Elements(Parents(g, x)) <= ParentNames(g)
  {
  }

  lemma SubsetCard<T>(a: set<T>, b: set<T>)
    requires a <= b
    ensures |a| <= |b|
    decreases |a|
  {
    if a != {} {
      var x :| x in a;
      SubsetCard(a - {x}, b - {x});
    }
  }

  /** Inserting a fresh bound name strictly shrinks what is left to insert,
      and growing the set further never enlarges it again. */
  lemma MeasureDrops(u: set<string>, acc: set<string>, p: string, later: set<string>)
    requires p in u && p !in acc
    requires acc + {p} <= later
    ensures |u - later| < |u - acc|
  {
    assert u - acc == (u - (acc + {p})) + {p};
    SubsetCard(u - later, u - (acc + {p}));
  }

  // ---------------------------------------------------------------------
  // The walk, with missing names as dead ends
  // ---------------------------------------------------------------------

  /** CollectInheritedRolesRecursive: insert every parent of `name` not yet
      in `acc`, walking each newly inserted one. */
  function Collect(g: Graph, name: string, acc: set<string>): (r: set<string>)
    ensures acc <= r <= acc + ParentNames(g)
    ensures Elements(Parents(g, name)) <= r
    ensures forall z :: z in r - acc ==> Elements(Parents(g, z)) <= r
    decreases |ParentNames(g) - acc|, 1, 0
  {
    ParentsInParentNames(g, name);
    CollectList(g, Parents(g, name), acc)
  }

  /** The loop over one parent list. */
  function CollectList(g: Graph, ps: seq<string>, acc: set<string>): (r: set<string>)
    requires Elements(ps) <= ParentNames(g)
    ensures acc <= r <= acc + ParentNames(g)
    ensures Elements(ps) <= r
    ensures forall z :: z in r - acc ==> Elements(Parents(g, z)) <= r
    decreases |ParentNames(g) - acc|, 0, |ps|
  {
    if |ps| == 0 then acc
    else
      assert Elements(ps) == {ps[0]} + Elements(ps[1..]) by {
        assert ps == [ps[0]] + ps[1..];
      }
      if ps[0] in acc then CollectList(g, ps[1..], acc)
      else
        MeasureDrops(ParentNames(g), acc, ps[0], acc + {ps[0]});
        var acc1 := Collect(g, ps[0], acc + {ps[0]});
        MeasureDrops(ParentNames(g), acc, ps[0], acc1);
        CollectList(g, ps[1..], acc1)
  }

  // ---------------------------------------------------------------------
  // Reachability
  // ---------------------------------------------------------------------

  /** A walk of one or more parent edges. */
  ghost predicate IsPath(g: Graph, p: seq<string>) {
    |p| >= 2 && forall i :: 0 <= i < |p| - 1 ==> p[i + 1] in Parents(g, p[i])
  }

  /** `y` is inherited by `x`, directly or through other roles. */
  ghost predicate Reachable(g: Graph, x: string, y: string) {
    exists p :: IsPath(g, p) && p[0] == x && p[|p| - 1] == y
  }

  lemma EdgeReachable(g: Graph, x: string, y: string)
    requires y in Parents(g, x)
    ensures Reachable(g, x, y)
  {
    assert IsPath(g, [x, y]);
  }

  lemma ReachableTrans(g: Graph, x: string, y: string, z: string)
    requires Reachable(g, x, y) && Reachable(g, y, z)
    ensures Reachable(g, x, z)
  {
    var p :| IsPath(g, p) && p[0] == x && p[|p| - 1] == y;
    var q :| IsPath(g, q) && q[0] == y && q[|q| - 1] == z;
    var pq := p + q[1..];
    forall i | 0 <= i < |pq| - 1
      ensures pq[i + 1] in Parents(g, pq[i])
    {
      if i < |p| - 1 {
        assert pq[i] == p[i] && pq[i + 1] == p[i + 1];
      } else {
        assert pq[i] == q[i - |p| + 1] && pq[i + 1] == q[i - |p| + 2];
      }
    }
    assert IsPath(g, pq);
  }

  /** Everything the walk inserts is inherited by the role walked. */
  lemma {:induction false} CollectSound(g: Graph, name: string, acc: set<string>)
    ensures forall y :: y in Collect(g, name, acc) - acc ==> Reachable(g, name, y)
    decreases |ParentNames(g) - acc|, 1, 0
  {
    ParentsInParentNames(g, name);
    forall p | p in Parents(g, name)
      ensures Reachable(g, name, p)
    {
      EdgeReachable(g, name, p);
    }
    CollectListSound(g, name, Parents(g, name), acc);
  }

  lemma {:induction false} CollectListSound(g: Graph, src: string, ps: seq<string>, acc: set<string>)
    requires Elements(ps) <= ParentNames(g)
    requires forall p :: p in ps ==> Reachable(g, src, p)
    ensures forall y :: y in CollectList(g, ps, acc) - acc ==> Reachable(g, src, y)
    decreases |ParentNames(g) - acc|, 0, |ps|
  {
    if |ps| > 0 {
      assert Elements(ps) == {ps[0]} + Elements(ps[1..]) by {
        assert ps == [ps[0]] + ps[1..];
      }
      var p := ps[0];
      if p in acc {
        CollectListSound(g, src, ps[1..], acc);
      } else {
        MeasureDrops(ParentNames(g), acc, p, acc + {p});
        var acc1 := Collect(g, p, acc + {p});
        MeasureDrops(ParentNames(g), acc, p, acc1);
        CollectSound(g, p, acc + {p});
        forall y | y in acc1 - acc
          ensures Reachable(g, src, y)
        {
          if y != p {
            ReachableTrans(g, src, p, y);
          }
        }
        CollectListSound(g, src, ps[1..], acc1);
      }
    }
  }

  /** A set that holds the parents of `x` and is closed under the parent
      relation holds every role `x` inherits. */
  lemma ReachableWithin(g: Graph, x: string, s: set<string>, y: string)
    requires Elements(Parents(g, x)) <= s
    requires forall z :: z in s ==> Elements(Parents(g, z)) <= s
    requires Reachable(g, x, y)
    ensures y in s
  {
    var p :| IsPath(g, p) && p[0] == x && p[|p| - 1] == y;
    var i := 1;
    while i < |p| - 1
      invariant 1 <= i <= |p| - 1
      invariant p[i] in s
    {
      assert p[i + 1] in Parents(g, p[i]);
      i := i + 1;
    }
  }

  /** LookupAllInheritedRoles: the roles a role inherits, directly or
      transitively, each once. On every graph, cycles included, this is
      exactly the set of names reachable by one or more parent edges. */
  function LookupAllInheritedRoles(g: Graph, name: string): (r: set<string>)
    ensures forall y :: y in r <==> Reachable(g, name, y)
  {
    var r := Collect(g, name, {});
    CollectSound(g, name, {});
    forall y | Reachable(g, name, y)
      ensures y in r
    {
      ReachableWithin(g, name, r, y);
    }
    r
  }

  // ---------------------------------------------------------------------
  // Consequences
  // ---------------------------------------------------------------------

  /** On an acyclic graph a role never inherits itself. */
  lemma AcyclicExcludesStart(g: Graph, name: string)
    requires forall x :: !Reachable(g, x, x)
    ensures name !in LookupAllInheritedRoles(g, name)
  {
  }

  lemma PathTransfer(g1: Graph, g2: Graph, p: seq<string>)
    requires forall k :: Elements(Parents(g1, k)) == Elements(Parents(g2, k))
    requires IsPath(g1, p)
    ensures IsPath(g2, p)
  {
    forall i | 0 <= i < |p| - 1
      ensures p[i + 1] in Parents(g2, p[i])
    {
      assert p[i + 1] in Elements(Parents(g1, p[i]));
    }
  }

  /** The closure depends only on which parents each role has, not on the
      order in which they are listed: parent lists that are permutations of
      each other (or differ only in repetitions) give the same closure. */
  lemma ClosureOrderIndependent(g1: Graph, g2: Graph, name: string)
    requires forall k :: Elements(Parents(g1, k)) == Elements(Parents(g2, k))
    ensures LookupAllInheritedRoles(g1, name) == LookupAllInheritedRoles(g2, name)
  {
    forall y | Reachable(g1, name, y)
      ensures Reachable(g2, name, y)
    {
      var p :| IsPath(g1, p) && p[0] == name && p[|p| - 1] == y;
      PathTransfer(g1, g2, p);
    }
    forall y | Reachable(g2, name, y)
      ensures Reachable(g1, name, y)
    {
      var p :| IsPath(g2, p) && p[0] == name && p[|p| - 1] == y;
      PathTransfer(g2, g1, p);
    }
  }

  /** The diamond A -> {B, C}, B -> D, C -> D. */
  function DiamondGraph(): Graph {
    map["A" := RoleEntry("A", "A", ["B", "C"]),
        "B" := RoleEntry("B", "B", ["D"]),
        "C" := RoleEntry("C", "C", ["D"]),
        "D" := RoleEntry("D", "D", [])]
  }

  /** Diamond inheritance: A inherits exactly B, C and D, with D once. */
  lemma DiamondExample()
    ensures LookupAllInheritedRoles(DiamondGraph(), "A") == {"B", "C", "D"}
  {
  }

  // ---------------------------------------------------------------------
  // The walk as written: a missing name is dereferenced
  // ---------------------------------------------------------------------

  /** CollectInheritedRolesRecursive as written: after the warning for a
      name missing from the graph, the code reads the parent list of the
      missing entry. That read has no defined outcome; it is `None` here. */
  function CollectAsWritten(g: Graph, name: string, acc: set<string>): (r: Option<set<string>>)
    ensures r.Some? ==> acc <= r.value
    decreases |ParentNames(g) - acc|, 1, 0
  {
    if name !in g then None
    else
      ParentsInParentNames(g, name);
      CollectListAsWritten(g, g[name].parents, acc)
  }

  function CollectListAsWritten(g: Graph, ps: seq<string>, acc: set<string>): (r: Option<set<string>>)
    requires Elements(ps) <= ParentNames(g)
    ensures r.Some? ==> acc <= r.value
    decreases |ParentNames(g) - acc|, 0, |ps|
  {
    if |ps| == 0 then Some(acc)
    else
      assert Elements(ps) == {ps[0]} + Elements(ps[1..]) by {
        assert ps == [ps[0]] + ps[1..];
      }
      if ps[0] in acc then CollectListAsWritten(g, ps[1..], acc)
      else
        MeasureDrops(ParentNames(g), acc, ps[0], acc + {ps[0]});
        match CollectAsWritten(g, ps[0], acc + {ps[0]})
        case None => None
        case Some(acc1) =>
          MeasureDrops(ParentNames(g), acc, ps[0], acc1);
          CollectListAsWritten(g, ps[1..], acc1)
  }

  /** The walk as written agrees with the intended walk exactly when every
      name it visits is in the graph, and has no result otherwise. */
  lemma {:induction false} AsWrittenVersusIntended(g: Graph, name: string, acc: set<string>)
    ensures CollectAsWritten(g, name, acc) ==
      (if name in g && Collect(g, name, acc) - acc <= g.Keys then Some(Collect(g, name, acc)) else None)
    decreases |ParentNames(g) - acc|, 1, 0
  {
    ParentsInParentNames(g, name);
    if name in g {
      AsWrittenVersusIntendedList(g, g[name].parents, acc);
    }
  }

  lemma {:induction false} AsWrittenVersusIntendedList(g: Graph, ps: seq<string>, acc: set<string>)
    requires Elements(ps) <= ParentNames(g)
    ensures CollectListAsWritten(g, ps, acc) ==
      (if CollectList(g, ps, acc) - acc <= g.Keys then Some(CollectList(g, ps, acc)) else None)
    decreases |ParentNames(g) - acc|, 0, |ps|
  {
    if |ps| > 0 {
      assert Elements(ps) == {ps[0]} + Elements(ps[1..]) by {
        assert ps == [ps[0]] + ps[1..];
      }
      var p := ps[0];
      if p in acc {
        AsWrittenVersusIntendedList(g, ps[1..], acc);
      } else {
        var acc1 := Collect(g, p, acc + {p});
        var r := CollectList(g, ps, acc);
        ListUnfold(g, ps, acc);
        ListAsWrittenUnfold(g, ps, acc);
        MeasureDrops(ParentNames(g), acc, p, acc + {p});
        MeasureDrops(ParentNames(g), acc, p, acc1);
        AsWrittenVersusIntended(g, p, acc + {p});
        AsWrittenVersusIntendedList(g, ps[1..], acc1);
        KeysSplit(g.Keys, r, acc, acc1, p);
      }
    }
  }

  /** One step of the intended list walk, for a parent not yet collected. */
  lemma ListUnfold(g: Graph, ps: seq<string>, acc: set<string>)
    requires Elements(ps) <= ParentNames(g) && |ps| > 0 && ps[0] !in acc
    ensures Elements(ps[1..]) <= ParentNames(g)
    ensures acc + {ps[0]} <= Collect(g, ps[0], acc + {ps[0]})
    ensures CollectList(g, ps, acc) == CollectList(g, ps[1..], Collect(g, ps[0], acc + {ps[0]}))
  {
  }

  /** One step of the list walk as written, for a parent not yet collected. */
  lemma ListAsWrittenUnfold(g: Graph, ps: seq<string>, acc: set<string>)
    requires Elements(ps) <= ParentNames(g) && |ps| > 0 && ps[0] !in acc
    ensures Elements(ps[1..]) <= ParentNames(g)
    ensures CollectListAsWritten(g, ps, acc) ==
      var w := CollectAsWritten(g, ps[0], acc + {ps[0]});
      if w.None? then None else CollectListAsWritten(g, ps[1..], w.value)
  {
  }

  lemma KeysSplit(keys: set<string>, r: set<string>, acc: set<string>, acc1: set<string>, p: string)
    requires p !in acc && acc + {p} <= acc1 <= r
    ensures (r - acc <= keys) <==> (p in keys && acc1 - (acc + {p}) <= keys && r - acc1 <= keys)
  {
  }

  /** LookupAllInheritedRoles as written. */
  function LookupAllAsWritten(g: Graph, name: string): (r: Option<set<string>>)
    ensures r.Some? ==> name in g
    ensures r.Some? ==> forall y :: y in r.value ==> Reachable(g, name, y)
  {
    AsWrittenVersusIntended(g, name, {});
    CollectSound(g, name, {});
    CollectAsWritten(g, name, {})
  }

  /** The as-written walk has a result exactly when the start and every role
      it inherits are in the graph, and then agrees with the intended one. */
  lemma AsWrittenFailsOnMissingRole(g: Graph, name: string)
    ensures LookupAllAsWritten(g, name) ==
      (if name in g && forall y :: Reachable(g, name, y) ==> y in g
       then Some(LookupAllInheritedRoles(g, name)) else None)
  {
    AsWrittenVersusIntended(g, name, {});
    var r := LookupAllInheritedRoles(g, name);
    assert r - {} == r;
    if name in g && !(forall y :: Reachable(g, name, y) ==> y in g) {
      var y :| Reachable(g, name, y) && y !in g;
      assert y in r;
    }
  }

  /** R inherits P, P inherits Q, and Q is not in the graph (a role the
      graph query excludes, such as a login role or the legacy admin role).
      The intended walk yields {P, Q}; the walk as written dereferences the
      missing entry of Q. */
  function MissingGrandparentGraph(): Graph {
    map["R" := RoleEntry("R", "R", ["P"]),
        "P" := RoleEntry("P", "P", ["Q"])]
  }

  lemma MissingGrandparentExample()
    ensures LookupAllAsWritten(MissingGrandparentGraph(), "R") == None
    ensures LookupAllInheritedRoles(MissingGrandparentGraph(), "R") == {"P", "Q"}
  {
    var g := MissingGrandparentGraph();
    assert Parents(g, "R") == ["P"];
    assert Parents(g, "P") == ["Q"];
    assert Parents(g, "Q") == [];
    EdgeReachable(g, "R", "P");
    EdgeReachable(g, "P", "Q");
    ReachableTrans(g, "R", "P", "Q");
    AsWrittenFailsOnMissingRole(g, "R");
    var s: set<string> := {"P", "Q"};
    forall y | y in LookupAllInheritedRoles(g, "R")
      ensures y in s
    {
      ReachableWithin(g, "R", s, y);
    }
  }
}
