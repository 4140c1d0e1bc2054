/** The rolesInfo response: the role document written for one role
    (WriteRoleResponse with WriteRoles), and the two ways of choosing which
    roles to describe (every role in the table, or the requested names).
    BSON writing is left out: a role document is a record of the values the
    server writes. */
module RolesInfo {
  import opened Wrappers
  import opened Bson
  import opened RoleNames
  import opened RoleSpecs
  import opened RoleGraph
  import opened RoleClosure

  /** One role document. `allInheritedRoles` holds native names; the array
      the server writes lists them in the order of an internal hash set.
      `privilegeRoles` is the set of internal names whose privileges the
      server consolidates into inheritedPrivileges when privileges are shown
      (the privilege documents themselves are not modelled). */
  datatype RoleRecord = RoleRecord(
    id: string,
    role: string,
    db: string,
    isBuiltIn: bool,
    roles: seq<string>,
    allInheritedRoles: set<string>,
    privilegeRoles: Option<set<string>>)

  /** WriteRoles: the native name of each direct parent, looked up in the
      table; a parent missing from the table is an internal error. */
  function DirectParentNames(g: Graph, ps: seq<string>): (r: Result<seq<string>>)
    ensures r.Failure? ==> r.error.code == Internal
    ensures r.Success? <==> Elements(ps) <= g.Keys
    ensures r.Success? ==>
      |r.value| == |ps| && forall i :: 0 <= i < |ps| ==> ps[i] in g && r.value[i] == g[ps[i]].nativeName
  {
    if |ps| == 0 then Success([])
    else
      assert Elements(ps) == {ps[0]} + Elements(ps[1..]) by {
        assert ps == [ps[0]] + ps[1..];
      }
      if ps[0] !in g then Fail(Internal, "Parent role not found.")
      else
        var rest :- DirectParentNames(g, ps[1..]);
        Success([g[ps[0]].nativeName] + rest)
  }

  /** The allInheritedRoles loop: the native name of each inherited role;
      one missing from the table is an internal error. */
  function InheritedNativeNames(g: Graph, s: set<string>): (r: Result<set<string>>)
    ensures r.Failure? ==> r.error.code == Internal
    ensures r.Success? <==> s <= g.Keys
    ensures r.Success? ==> forall y :: y in r.value <==> exists x :: x in s && x in g && g[x].nativeName == y
  {
    if s <= g.Keys then Success(set x | x in s :: g[x].nativeName)
    else Fail(Internal, "Inherited role not found.")
  }

  /** The direct parents of a role are among the roles it inherits. */
  lemma DirectParentsInherited(g: Graph, name: string)
    requires name in g
    ensures forall p :: p in g[name].parents ==> Reachable(g, name, p)
  {
    forall p | p in g[name].parents
      ensures Reachable(g, name, p)
    {
      EdgeReachable(g, name, p);
    }
  }

  /** A role WriteRoleResponse can describe: it is in the table, and so is
      every role it reaches. */
  ghost predicate Describable(g: Graph, name: string) {
    name in g && forall y :: Reachable(g, name, y) ==> y in g
  }

  /** WriteRoleResponse: the document for one role of the table. It fails
      exactly when the role, or a role it inherits directly or transitively,
      is missing from the table (the direct parents are checked first, but
      the error is the same internal error). */
  function DescribeRole(g: Graph, name: string, showPrivileges: bool): (r: Result<RoleRecord>)
    ensures r.Failure? ==> r.error.code == Internal
    ensures r.Success? <==> Describable(g, name)
    ensures r.Success? ==>
      && r.value.role == g[name].nativeName
      && r.value.id == "admin." + r.value.role
      && r.value.db == "admin"
      && r.value.isBuiltIn == IsNativeBuiltInRole(r.value.role)
    ensures r.Success? ==>
      |r.value.roles| == |g[name].parents| &&
      forall i :: 0 <= i < |g[name].parents| ==>
        g[name].parents[i] in g && r.value.roles[i] == g[g[name].parents[i]].nativeName
    ensures r.Success? ==>
      forall y :: y in r.value.allInheritedRoles <==> exists x :: Reachable(g, name, x) && x in g && g[x].nativeName == y
    ensures r.Success? ==> (r.value.privilegeRoles.Some? <==> showPrivileges)
    ensures r.Success? && showPrivileges ==>
      forall y :: y in r.value.privilegeRoles.value <==> y == g[name].internalName || Reachable(g, name, y)
  {
    if name !in g then Fail(Internal, "Role not found.")
    else
      var e := g[name];
      DirectParentsInherited(g, name);
      var roles :- DirectParentNames(g, e.parents);
      var inherited := LookupAllInheritedRoles(g, name);
      var all :- InheritedNativeNames(g, inherited);
      Success(RoleRecord(
        "admin." + e.nativeName, e.nativeName, "admin", IsNativeBuiltInRole(e.nativeName),
        roles, all, if showPrivileges then Some({e.internalName} + inherited) else None))
  }

  /** On a table as BuildRoleInheritanceTable builds it, the document shows
      the native name of the role and of every role it inherits, and marks
      it built-in exactly when it is one of the mapped internal roles (or a
      role literally carrying a built-in native name). */
  lemma DescribeWellFormed(g: Graph, name: string, showPrivileges: bool)
    requires WellFormed(g)
    requires DescribeRole(g, name, showPrivileges).Success?
    ensures var rec := DescribeRole(g, name, showPrivileges).value;
      && rec.role == ToNative(name)
      && (rec.isBuiltIn <==> name in MappedInternalRoles || name in NativeBuiltInRoles)
      && (forall y :: y in rec.allInheritedRoles <==> exists x :: Reachable(g, name, x) && ToNative(x) == y)
      && (forall i :: 0 <= i < |rec.roles| ==> rec.roles[i] == ToNative(g[name].parents[i]))
  {
    var rec := DescribeRole(g, name, showPrivileges).value;
    BuiltInNatives(name);
    InheritedNatives(g, name, rec.allInheritedRoles);
    ParentNatives(g, name, rec.roles);
  }

  /** A native name is a built-in exactly when its internal name is one of
      the mapped internal names or already a native built-in name. */
  lemma BuiltInNatives(name: string)
    ensures IsNativeBuiltInRole(ToNative(name)) <==> name in MappedInternalRoles || name in NativeBuiltInRoles
  {
  }

  lemma InheritedNatives(g: Graph, name: string, all: set<string>)
    requires WellFormed(g)
    requires forall y :: y in all <==> exists x :: Reachable(g, name, x) && x in g && g[x].nativeName == y
    requires forall y :: Reachable(g, name, y) ==> y in g
    ensures forall y :: y in all <==> exists x :: Reachable(g, name, x) && ToNative(x) == y
  {
  }

  lemma ParentNatives(g: Graph, name: string, roles: seq<string>)
    requires WellFormed(g) && name in g
    requires |roles| == |g[name].parents|
    requires forall i :: 0 <= i < |roles| ==> g[name].parents[i] in g && roles[i] == g[g[name].parents[i]].nativeName
    ensures forall i :: 0 <= i < |roles| ==> roles[i] == ToNative(g[name].parents[i])
  {
  }

  /** Even with the missing-role walk fixed, a role that inherits a role
      outside the table cannot be described: R inherits P, P inherits Q, and
      Q is not in the table. */
  lemma MissingGrandparentDescribeFails(showPrivileges: bool)
    ensures DescribeRole(MissingGrandparentGraph(), "R", showPrivileges).Failure?
  {
    var g := MissingGrandparentGraph();
    assert Parents(g, "R") == ["P"];
    assert Parents(g, "P") == ["Q"];
    EdgeReachable(g, "R", "P");
    EdgeReachable(g, "P", "Q");
    ReachableTrans(g, "R", "P", "Q");
  }

  // ---------------------------------------------------------------------
  // Choosing the roles to describe
  // ---------------------------------------------------------------------

  /** ProcessAllRolesForRolesInfo skips native built-ins unless they are
      asked for. */
  predicate Selected(g: Graph, spec: RolesInfoSpec, k: string)
    requires k in g
  {
    spec.showBuiltInRoles || !IsNativeBuiltInRole(g[k].nativeName)
  }

  /** The roles of `order` the full listing describes, in visit order. */
  function SelectedRoles(g: Graph, spec: RolesInfoSpec, order: seq<string>): (r: seq<string>)
    requires Elements(order) <= g.Keys
    ensures forall x :: x in r <==> x in order && x in g && Selected(g, spec, x)
  {
    if |order| == 0 then []
    else
      assert Elements(order) == {order[0]} + Elements(order[1..]) by {
        assert order == [order[0]] + order[1..];
      }
      var rest := SelectedRoles(g, spec, order[1..]);
      if Selected(g, spec, order[0]) then [order[0]] + rest else rest
  }

  /** ProcessAllRolesForRolesInfo: describe every selected role of the
      table. `order` is the order in which the table's hash iteration visits
      the roles; the first failure aborts the response. */
  function ProcessAll(g: Graph, spec: RolesInfoSpec, order: seq<string>): (r: Result<seq<RoleRecord>>)
    requires Elements(order) <= g.Keys
    ensures r.Failure? ==> r.error.code == Internal
    ensures r.Success? <==>
      forall i :: 0 <= i < |order| && Selected(g, spec, order[i]) ==> Describable(g, order[i])
    ensures r.Success? ==>
      forall rec :: rec in r.value <==>
        exists i :: 0 <= i < |order| && Selected(g, spec, order[i]) &&
          DescribeRole(g, order[i], spec.showPrivileges) == Success(rec)
    ensures r.Success? ==> |r.value| == |SelectedRoles(g, spec, order)|
  {
    if |order| == 0 then Success([])
    else
      assert Elements(order) == {order[0]} + Elements(order[1..]) by {
        assert order == [order[0]] + order[1..];
      }
      assert forall i :: 1 <= i < |order| ==> order[i] == order[1..][i - 1];
      if !Selected(g, spec, order[0]) then ProcessAll(g, spec, order[1..])
      else
        var rec :- DescribeRole(g, order[0], spec.showPrivileges);
        var rest :- ProcessAll(g, spec, order[1..]);
        Success([rec] + rest)
  }

  /** The full listing holds one document per selected role, in visit
      order: the i-th document describes the i-th selected role. */
  lemma {:induction false} ProcessAllRecords(g: Graph, spec: RolesInfoSpec, order: seq<string>)
    requires Elements(order) <= g.Keys
    requires ProcessAll(g, spec, order).Success?
    ensures var recs := ProcessAll(g, spec, order).value;
      forall i :: 0 <= i < |recs| ==>
        DescribeRole(g, SelectedRoles(g, spec, order)[i], spec.showPrivileges) == Success(recs[i])
  {
    if |order| > 0 {
      assert Elements(order) == {order[0]} + Elements(order[1..]) by {
        assert order == [order[0]] + order[1..];
      }
      assert forall i :: 1 <= i < |order| ==> order[1..][i - 1] == order[i];
      ProcessAllRecords(g, spec, order[1..]);
      if Selected(g, spec, order[0]) {
        var rec := DescribeRole(g, order[0], spec.showPrivileges).value;
        var rest := ProcessAll(g, spec, order[1..]).value;
        assert ProcessAll(g, spec, order).value == [rec] + rest;
        RecordsCons(g, spec.showPrivileges, order[0], rec, SelectedRoles(g, spec, order[1..]), rest);
      }
    }
  }

  /** Over an enumeration that visits each role of the table once, the full
      listing holds exactly as many documents as the table has selected
      roles: no role is described twice. */
  lemma ProcessAllOnePerRole(g: Graph, spec: RolesInfoSpec, order: seq<string>)
    requires Elements(order) == g.Keys && NoDuplicates(order)
    requires ProcessAll(g, spec, order).Success?
    ensures |ProcessAll(g, spec, order).value| == |set k | k in g && Selected(g, spec, k)|
  {
    var sel := SelectedRoles(g, spec, order);
    SelectedRolesDistinct(g, spec, order);
    DistinctCard(sel);
    assert Elements(sel) == set k | k in g && Selected(g, spec, k);
  }

  lemma {:induction false} SelectedRolesDistinct(g: Graph, spec: RolesInfoSpec, order: seq<string>)
    requires Elements(order) <= g.Keys && NoDuplicates(order)
    ensures NoDuplicates(SelectedRoles(g, spec, order))
  {
    if |order| > 0 {
      assert Elements(order) == {order[0]} + Elements(order[1..]) by {
        assert order == [order[0]] + order[1..];
      }
      assert order == [order[0]] + order[1..];
      NoDuplicatesCons(order[0], order[1..]);
      SelectedRolesDistinct(g, spec, order[1..]);
      NoDuplicatesCons(order[0], SelectedRoles(g, spec, order[1..]));
    }
  }

  /** A sequence without repetitions has as many elements as its length. */
  lemma {:induction false} DistinctCard<T>(s: seq<T>)
    requires NoDuplicates(s)
    ensures |Elements(s)| == |s|
  {
    if |s| > 0 {
      assert s == [s[0]] + s[1..];
      NoDuplicatesCons(s[0], s[1..]);
      DistinctCard(s[1..]);
      assert Elements(s) == {s[0]} + Elements(s[1..]);
    }
  }

  /** Over an enumeration of the whole table, the full listing succeeds
      exactly when every selected role can be described, and then holds
      exactly their documents. */
  lemma ProcessAllTable(g: Graph, spec: RolesInfoSpec, order: seq<string>)
    requires Elements(order) == g.Keys
    ensures ProcessAll(g, spec, order).Success? <==>
      forall k :: k in g && Selected(g, spec, k) ==> Describable(g, k)
    ensures ProcessAll(g, spec, order).Success? ==>
      forall rec :: rec in ProcessAll(g, spec, order).value <==>
        exists k :: k in g && Selected(g, spec, k) && DescribeRole(g, k, spec.showPrivileges) == Success(rec)
  {
  }

  /** The order of the hash iteration does not change whether the response
      succeeds, nor which documents it holds. */
  lemma ProcessAllOrderIndependent(g: Graph, spec: RolesInfoSpec, a: seq<string>, b: seq<string>)
    requires Elements(a) == g.Keys && Elements(b) == g.Keys
    ensures ProcessAll(g, spec, a).Success? <==> ProcessAll(g, spec, b).Success?
    ensures ProcessAll(g, spec, a).Success? ==>
      Elements(ProcessAll(g, spec, a).value) == Elements(ProcessAll(g, spec, b).value)
  {
    ProcessAllTable(g, spec, a);
    ProcessAllTable(g, spec, b);
    if ProcessAll(g, spec, a).Success? {
      var ra, rb := ProcessAll(g, spec, a).value, ProcessAll(g, spec, b).value;
      assert forall rec :: rec in Elements(ra) <==> rec in ra;
      assert forall rec :: rec in Elements(rb) <==> rec in rb;
    }
  }

  /** Without showBuiltinRoles no document of the full listing is marked
      built-in; every role of the table that is not a native built-in is
      described. */
  lemma ProcessAllHidesBuiltIns(g: Graph, spec: RolesInfoSpec, order: seq<string>)
    requires Elements(order) == g.Keys
    requires ProcessAll(g, spec, order).Success?
    ensures !spec.showBuiltInRoles ==> forall rec :: rec in ProcessAll(g, spec, order).value ==> !rec.isBuiltIn
    ensures forall k :: k in g && !IsNativeBuiltInRole(g[k].nativeName) ==>
      exists rec :: rec in ProcessAll(g, spec, order).value && rec.role == g[k].nativeName
  {
  }

  /** The bytes of a key the role table hashes and compares: the table
      holds NAMEDATALEN-byte string keys, and only the bytes before the
      terminating NUL take part. */
  const KeyBytes: nat := NAMEDATALEN - 1

  /** hash_search on the role table. A name that is a key finds itself.
      Otherwise only its first KeyBytes bytes are compared, so a longer name
      finds the key those bytes spell; bytes that end inside a character
      spell no key, since keys are whole UTF-8 strings. */
  function TableLookup(g: Graph, name: string): (r: Option<string>)
    ensures r.Some? ==> r.value in g
    ensures name in g ==> r == Some(name)
    ensures r.Some? && r.value != name ==> Utf8Length(r.value) == KeyBytes && r.value <= name
  {
    if name in g then Some(name)
    else
      var c := Utf8Clip(name, KeyBytes);
      if Utf8Length(c) == KeyBytes && c in g then Some(c) else None
  }

  /** A name of at most KeyBytes bytes is found exactly when it is a key. */
  lemma TableLookupShortName(g: Graph, name: string)
    requires Utf8Length(name) <= KeyBytes
    ensures TableLookup(g, name).Some? <==> name in g
  {
    Utf8ClipWhole(name, KeyBytes);
  }

  /** A name that is not a key but starts with a key of KeyBytes bytes finds
      that key. */
  lemma TableLookupPrefix(g: Graph, name: string, k: string)
    requires k in g && name !in g
    requires Utf8Length(k) == KeyBytes && k <= name
    ensures TableLookup(g, name) == Some(k)
  {
    Utf8ClipExact(name, k, KeyBytes);
  }

  /** The keys the requested names find in the table, in request order. */
  function FoundNames(g: Graph, names: seq<string>): (r: seq<string>)
    ensures forall x :: x in r <==> exists i :: 0 <= i < |names| && TableLookup(g, ToInternal(names[i])) == Some(x)
  {
    if |names| == 0 then []
    else
      assert forall i :: 1 <= i < |names| ==> names[i] == names[1..][i - 1];
      var rest := FoundNames(g, names[1..]);
      var hit := TableLookup(g, ToInternal(names[0]));
      if hit.Some? then [hit.value] + rest else rest
  }

  /** ProcessSpecificRolesForRolesInfo: translate each requested name to its
      internal name, look it up, silently skip names the table does not
      find, and describe the found roles in request order; the first
      failure aborts the response. */
  function ProcessSpecific(g: Graph, names: seq<string>, showPrivileges: bool): (r: Result<seq<RoleRecord>>)
    ensures r.Failure? ==> r.error.code == Internal
    ensures r.Success? <==> RequestedDescribable(g, names)
    ensures r.Success? ==> |r.value| == |FoundNames(g, names)|
  {
    if |names| == 0 then Success([])
    else
      RequestedDescribableCons(g, names);
      var hit := TableLookup(g, ToInternal(names[0]));
      if hit.None? then ProcessSpecific(g, names[1..], showPrivileges)
      else
        var rec :- DescribeRole(g, hit.value, showPrivileges);
        var rest :- ProcessSpecific(g, names[1..], showPrivileges);
        assert |FoundNames(g, names)| == 1 + |FoundNames(g, names[1..])|;
        Success([rec] + rest)
  }

  /** Every requested name found in the table can be described. */
  ghost predicate RequestedDescribable(g: Graph, names: seq<string>) {
    forall i :: 0 <= i < |names| && TableLookup(g, ToInternal(names[i])).Some? ==>
      Describable(g, TableLookup(g, ToInternal(names[i])).value)
  }

  lemma RequestedDescribableCons(g: Graph, names: seq<string>)
    requires |names| > 0
    ensures RequestedDescribable(g, names) <==>
      (var hit := TableLookup(g, ToInternal(names[0])); hit.Some? ==> Describable(g, hit.value)) &&
      RequestedDescribable(g, names[1..])
  {
    assert forall i :: 1 <= i < |names| ==> names[i] == names[1..][i - 1];
  }

  /** The documents of the response describe the found roles, in request
      order. */
  lemma {:induction false} ProcessSpecificRecords(g: Graph, names: seq<string>, showPrivileges: bool)
    requires ProcessSpecific(g, names, showPrivileges).Success?
    ensures var recs := ProcessSpecific(g, names, showPrivileges).value;
      forall i :: 0 <= i < |recs| ==> DescribeRole(g, FoundNames(g, names)[i], showPrivileges) == Success(recs[i])
  {
    if |names| > 0 {
      RequestedDescribableCons(g, names);
      ProcessSpecificRecords(g, names[1..], showPrivileges);
      var hit := TableLookup(g, ToInternal(names[0]));
      if hit.Some? {
        var rec := DescribeRole(g, hit.value, showPrivileges).value;
        var rest := ProcessSpecific(g, names[1..], showPrivileges).value;
        assert ProcessSpecific(g, names, showPrivileges).value == [rec] + rest;
        assert FoundNames(g, names) == [hit.value] + FoundNames(g, names[1..]);
        RecordsCons(g, showPrivileges, hit.value, rec, FoundNames(g, names[1..]), rest);
      }
    }
  }

  lemma RecordsCons(g: Graph, showPrivileges: bool, x: string, rec: RoleRecord, xs: seq<string>, recs: seq<RoleRecord>)
    requires |xs| == |recs|
    requires DescribeRole(g, x, showPrivileges) == Success(rec)
    requires forall i :: 0 <= i < |recs| ==> DescribeRole(g, xs[i], showPrivileges) == Success(recs[i])
    ensures forall i :: 0 <= i < |recs| + 1 ==> DescribeRole(g, ([x] + xs)[i], showPrivileges) == Success(([rec] + recs)[i])
  {
    assert forall i :: 1 <= i < |recs| + 1 ==> ([x] + xs)[i] == xs[i - 1] && ([rec] + recs)[i] == recs[i - 1];
  }

  /** A requested custom or built-in name that is in the table is echoed:
      some document of the response carries that very name. */
  lemma ProcessSpecificEchoesName(g: Graph, names: seq<string>, showPrivileges: bool, name: string)
    requires WellFormed(g)
    requires ProcessSpecific(g, names, showPrivileges).Success?
    requires name in names && name !in MappedInternalRoles
    requires ToInternal(name) in g
    ensures exists rec :: rec in ProcessSpecific(g, names, showPrivileges).value && rec.role == name
  {
    var found := FoundNames(g, names);
    var i :| 0 <= i < |names| && names[i] == name;
    assert ToInternal(name) in found;
    var j :| 0 <= j < |found| && found[j] == ToInternal(name);
    ProcessSpecificRecords(g, names, showPrivileges);
    var rec := ProcessSpecific(g, names, showPrivileges).value[j];
    NativeRoundTrip(name);
    assert rec.role == name;
  }

  /** A requested name that is not in the table yields no document and no
      error. */
  lemma ProcessSpecificSkipsUnknown(g: Graph, names: seq<string>, showPrivileges: bool)
    requires forall i :: 0 <= i < |names| ==> TableLookup(g, ToInternal(names[i])).None?
    ensures ProcessSpecific(g, names, showPrivileges) == Success([])
  {
  }

  /** A requested name of 64 or more bytes whose first 63 bytes spell a role
      is described as that role: 70 times 'a' finds the role of 63. */
  lemma ProcessSpecificLongNameExample(showPrivileges: bool)
    ensures var a63, a70 := seq(63, _ => 'a'), seq(70, _ => 'a');
      var g := map[a63 := RoleEntry(a63, a63, [])];
      && ProcessSpecific(g, [a70], showPrivileges).Success?
      && FoundNames(g, [a70]) == [a63]
  {
    var a63, a70 := seq(63, _ => 'a'), seq(70, _ => 'a');
    var g := map[a63 := RoleEntry(a63, a63, [])];
    Utf8LengthAscii(a63);
    assert a63 == a70[..63];
    assert |a70| != |a63|;
    assert ToInternal(a70) == a70;
    TableLookupPrefix(g, a70, a63);
    forall y | Reachable(g, a63, y)
      ensures y in g
    {
      ReachableWithin(g, a63, g.Keys, y);
    }
    assert FoundNames(g, [a70]) == [a63] + FoundNames(g, []);
  }
}
