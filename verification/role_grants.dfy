/** Grant planning for createRole: the co-occurrence rule for
    readWriteAnyDatabase and clusterAdmin, the composite admin grant that
    replaces the pair, the native-to-internal translation of every other
    requested parent, and the whitelist of roles a custom role may inherit
    from. The plan is the ordered list of internal role names granted to the
    new role; the GRANT statements themselves are store I/O. */
module RoleGrants {
  import opened Wrappers
  import opened RoleNames
  import opened RoleSpecs

  /** The pair that must be requested together. */
  predicate PairConsistent(parents: set<string>) {
    (ReadWriteAnyDatabase in parents) == (ClusterAdmin in parents)
  }

  /** Both halves of the pair are requested: the composite role is granted. */
  predicate PairRequested(parents: set<string>) {
    ReadWriteAnyDatabase in parents && ClusterAdmin in parents
  }

  /** A requested parent the second loop skips because the composite grant
      already covers it: its internal name is one of the pair's. */
  predicate Skipped(name: string, composite: bool) {
    composite && (ToInternal(name) == ApiReadWriteRole || ToInternal(name) == ApiClusterAdminRole)
  }

  /** GrantRoleInheritance: only whitelisted roles may be inherited. */
  function GrantRoleInheritance(internalName: string): (r: Result<string>)
    ensures r.Success? <==> internalName in InheritableRoles
    ensures r.Success? ==> r.value == internalName
    ensures r.Failure? ==> r.error.code == BadValue
  {
    if IsInheritableRole(internalName) then Success(internalName)
    else Fail(BadValue, "Creating custom roles that inherit from this role is not supported.")
  }

  /** The internal names the second loop grants for the set `parents`. */
  function GrantTargets(parents: set<string>, composite: bool): set<string> {
    set p | p in parents && !Skipped(p, composite) :: ToInternal(p)
  }

  lemma GrantTargetsCons(parents: seq<string>, composite: bool)
    requires |parents| > 0
    ensures GrantTargets(Elements(parents), composite) ==
      (if Skipped(parents[0], composite) then {} else {ToInternal(parents[0])}) +
      GrantTargets(Elements(parents[1..]), composite)
  {
  }

  /** The second loop of ValidateAndGrantInheritedRoles: translate each
      requested parent, skip the pair after a composite grant, and grant the
      rest through the whitelist, stopping at the first refusal. */
  function GrantEach(parents: seq<string>, composite: bool): (r: Result<seq<string>>)
    ensures r.Success? <==>
      forall i :: 0 <= i < |parents| && !Skipped(parents[i], composite) ==>
        ToInternal(parents[i]) in InheritableRoles
    ensures r.Failure? ==> r.error.code == BadValue
    ensures r.Success? ==> Elements(r.value) == GrantTargets(Elements(parents), composite)
    ensures r.Success? ==> |r.value| <= |parents|
    decreases |parents|
  {
    if |parents| == 0 then Success([])
    else
      var rest := GrantEach(parents[1..], composite);
      assert forall i :: 1 <= i < |parents| ==> parents[i] == parents[1..][i - 1];
      GrantTargetsCons(parents, composite);
      if Skipped(parents[0], composite) then rest
      else
        var g :- GrantRoleInheritance(ToInternal(parents[0]));
        var tail :- rest;
        assert Elements([g] + tail) == {g} + Elements(tail);
        Success([g] + tail)
  }

  /** ValidateAndGrantInheritedRoles: the ordered list of internal roles
      granted to the new role, or the error that aborts the request. */
  function PlanGrants(parents: seq<string>): (r: Result<seq<string>>)
    ensures r.Failure? ==> r.error.code == BadValue
    ensures !PairConsistent(Elements(parents)) ==> r.Failure?
    ensures r.Success? ==>
      Elements(r.value) ==
        (if PairRequested(Elements(parents)) then {ApiAdminRoleV2} else {}) +
        GrantTargets(Elements(parents), PairRequested(Elements(parents)))
    ensures r.Success? ==> Elements(r.value) <= InheritableRoles
    ensures r.Success? && PairRequested(Elements(parents)) ==> |r.value| > 0 && r.value[0] == ApiAdminRoleV2
  {
    var hasReadWrite := ReadWriteAnyDatabase in parents;
    var hasClusterAdmin := ClusterAdmin in parents;
    if hasReadWrite != hasClusterAdmin then
      Fail(BadValue, "Roles specified are invalid. 'readWriteAnyDatabase' and 'clusterAdmin' must be specified together.")
    else
      var composite := hasReadWrite && hasClusterAdmin;
      var rest :- GrantEach(parents, composite);
      if composite then Success([ApiAdminRoleV2] + rest) else Success(rest)
  }

  // ---------------------------------------------------------------------
  // Properties of the plan
  // ---------------------------------------------------------------------

  /** The requested names the plan accepts: read-only access by its native or
      internal name, the composite role by its internal name, and, only when
      the pair is requested, the pair itself by native or internal name. */
  function AcceptedParents(composite: bool): set<string> {
    {ReadAnyDatabase, ApiReadOnlyRole, ApiAdminRoleV2} +
    (if composite then {ReadWriteAnyDatabase, ClusterAdmin, ApiReadWriteRole, ApiClusterAdminRole} else {})
  }

  /** One requested name: granted or skipped without error exactly when it
      is an accepted parent. Outside a composite request the pair cannot
      appear (the pair rule holds). */
  lemma NameAccepted(p: string, composite: bool)
    requires !composite ==> p != ReadWriteAnyDatabase && p != ClusterAdmin
    ensures (!Skipped(p, composite) ==> ToInternal(p) in InheritableRoles) <==> p in AcceptedParents(composite)
  {
  }

  /** The second loop succeeds exactly when every requested name is
      accepted. */
  lemma {:induction false} GrantEachAccepts(parents: seq<string>, composite: bool)
    requires !composite ==> ReadWriteAnyDatabase !in parents && ClusterAdmin !in parents
    ensures GrantEach(parents, composite).Success? <==> Elements(parents) <= AcceptedParents(composite)
  {
    forall i | 0 <= i < |parents|
      ensures (!Skipped(parents[i], composite) ==> ToInternal(parents[i]) in InheritableRoles) <==>
        parents[i] in AcceptedParents(composite)
    {
      NameAccepted(parents[i], composite);
    }
    if Elements(parents) <= AcceptedParents(composite) {
      assert forall i :: 0 <= i < |parents| ==> parents[i] in Elements(parents);
    } else {
      var p :| p in Elements(parents) && p !in AcceptedParents(composite);
      var i :| 0 <= i < |parents| && parents[i] == p;
    }
  }

  /** Exactly which requests the plan accepts, in terms of the names alone. */
  lemma PlanGrantsAccepts(parents: seq<string>)
    ensures PlanGrants(parents).Success? <==>
      PairConsistent(Elements(parents)) &&
      Elements(parents) <= AcceptedParents(PairRequested(Elements(parents)))
  {
    var P := Elements(parents);
    if PairConsistent(P) {
      GrantEachAccepts(parents, PairRequested(P));
    }
  }

  /** For requests that name only native built-ins and custom roles (no
      internal role names), the plan succeeds exactly when the pair rule
      holds and nothing outside readAnyDatabase, readWriteAnyDatabase and
      clusterAdmin is requested: root and custom parents are refused. */
  lemma PlanGrantsNativeRequests(parents: seq<string>)
    requires Elements(parents) !! (MappedInternalRoles + {ApiAdminRole, ApiAdminRoleV2})
    ensures PlanGrants(parents).Success? <==>
      PairConsistent(Elements(parents)) &&
      Elements(parents) <= {ReadAnyDatabase, ReadWriteAnyDatabase, ClusterAdmin}
  {
    PlanGrantsAccepts(parents);
  }

  /** Requesting both halves of the pair grants the composite role exactly
      once and neither half individually, provided the composite role is
      not also requested by its internal name. */
  lemma CompositeGrantedOnce(parents: seq<string>)
    requires PlanGrants(parents).Success?
    requires PairRequested(Elements(parents))
    requires ApiAdminRoleV2 !in parents
    ensures multiset(PlanGrants(parents).value)[ApiAdminRoleV2] == 1
    ensures ApiReadWriteRole !in PlanGrants(parents).value
    ensures ApiClusterAdminRole !in PlanGrants(parents).value
  {
    var r := PlanGrants(parents).value;
    var rest := GrantEach(parents, true).value;
    assert r == [ApiAdminRoleV2] + rest;
    InternalNamesDistinct();
    assert ApiAdminRoleV2 !in Elements(rest);
    assert ApiAdminRoleV2 !in multiset(rest);
    assert ApiReadWriteRole !in Elements(r);
    assert ApiClusterAdminRole !in Elements(r);
  }

  /** Without the pair the composite role is granted only when it is
      requested by its internal name, and the grants are exactly the
      translated requests. */
  lemma NoPairNoComposite(parents: seq<string>)
    requires PlanGrants(parents).Success?
    requires !PairRequested(Elements(parents))
    ensures Elements(PlanGrants(parents).value) == set p | p in parents :: ToInternal(p)
    ensures ApiAdminRoleV2 in PlanGrants(parents).value <==> ApiAdminRoleV2 in parents
  {
    var r := PlanGrants(parents).value;
    assert r == GrantEach(parents, false).value;
    assert GrantTargets(Elements(parents), false) == set p | p in parents :: ToInternal(p);
    InternalOfComposite(parents);
    assert ApiAdminRoleV2 in r <==> ApiAdminRoleV2 in Elements(r);
  }

  /** Only the composite role's own name translates to the composite
      role. */
  lemma InternalOfComposite(parents: seq<string>)
    ensures ApiAdminRoleV2 in (set p | p in parents :: ToInternal(p)) <==> ApiAdminRoleV2 in parents
  {
  }

  /** The composite admin role is granted exactly when both halves of the
      pair are requested or it is named by its internal name. */
  lemma PlanGrantsComposite(parents: seq<string>)
    requires PlanGrants(parents).Success?
    ensures ApiAdminRoleV2 in PlanGrants(parents).value <==>
      PairRequested(Elements(parents)) || ApiAdminRoleV2 in parents
  {
    var r := PlanGrants(parents).value;
    if PairRequested(Elements(parents)) {
      assert r[0] == ApiAdminRoleV2;
    } else {
      NoPairNoComposite(parents);
    }
  }

  /** The server keeps the requested parents in a hash set and walks it in
      an unspecified order: the outcome and the set of granted roles do not
      depend on that order. */
  lemma PlanGrantsOrderIndependent(a: seq<string>, b: seq<string>)
    requires Elements(a) == Elements(b)
    ensures PlanGrants(a).Success? <==> PlanGrants(b).Success?
    ensures PlanGrants(a).Success? ==> Elements(PlanGrants(a).value) == Elements(PlanGrants(b).value)
  {
    PlanGrantsAccepts(a);
    PlanGrantsAccepts(b);
  }

  /** A composite request: one grant of the composite role. */
  lemma PairExample()
    ensures PlanGrants([ReadWriteAnyDatabase, ClusterAdmin]) == Success([ApiAdminRoleV2])
  {
    var request := [ReadWriteAnyDatabase, ClusterAdmin];
    assert GrantEach(request[1..][1..], true) == Success([]);
    assert GrantEach(request[1..], true) == Success([]);
    assert GrantEach(request, true) == Success([]);
    assert [ApiAdminRoleV2] + [] == [ApiAdminRoleV2];
  }

  /** clusterAdmin alone breaks the pair rule. */
  lemma HalfPairExample()
    ensures PlanGrants([ClusterAdmin]).Failure?
  {
  }

  /** The composite role requested by its internal name alongside the pair
      is granted twice: the test that skips the pair does not look for it. */
  lemma LiteralCompositeExample()
    ensures PlanGrants([ReadWriteAnyDatabase, ClusterAdmin, ApiAdminRoleV2]) ==
      Success([ApiAdminRoleV2, ApiAdminRoleV2])
  {
    var request := [ReadWriteAnyDatabase, ClusterAdmin, ApiAdminRoleV2];
    assert GrantEach(request[1..][1..][1..], true) == Success([]);
    assert [ApiAdminRoleV2] + [] == [ApiAdminRoleV2];
    assert GrantEach(request[1..][1..], true) == Success([ApiAdminRoleV2]);
    assert GrantEach(request[1..], true) == Success([ApiAdminRoleV2]);
    assert GrantEach(request, true) == Success([ApiAdminRoleV2]);
    assert ReadWriteAnyDatabase in request && ClusterAdmin in request;
    assert [ApiAdminRoleV2] + [ApiAdminRoleV2] == [ApiAdminRoleV2, ApiAdminRoleV2];
  }
}
