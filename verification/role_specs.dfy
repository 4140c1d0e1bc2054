/** The three request parsers of the role commands: createRole (with its
    roles, privileges, resource and actions sub-parsers), dropRole and
    rolesInfo. Every parser walks the fields of its document once, in wire
    order, and stops at the first violation. Each walk is modelled as a
    recursive function over the remaining fields carrying the parser's
    local flags; its contract relates the walk to a declarative description
    of the fields it accepts. */
module RoleSpecs {
  import opened Wrappers
  import opened Bson
  import opened RoleNames

  /** One collection-level privilege of a custom role. */
  datatype CustomPrivilege = CustomPrivilege(db: string, collection: string, actions: set<string>)

  /** The parsed createRole request. `parentRoles` is the server's hash set of
      requested parent names, held without duplicates in insertion order. */
  datatype CreateRoleSpec = CreateRoleSpec(
    roleName: string,
    parentRoles: seq<string>,
    privileges: seq<CustomPrivilege>)

  datatype DropRoleSpec = DropRoleSpec(roleName: string)

  datatype RolesInfoSpec = RolesInfoSpec(
    roleNames: seq<string>,
    showAllRoles: bool,
    showBuiltInRoles: bool,
    showPrivileges: bool)

  /** A string element whose length the server accepts as a name: non-empty
      and shorter than NAMEDATALEN, counted in bytes of its UTF-8 encoding.
      Other strings are skipped silently. */
  predicate IsKeptName(v: Value) {
    v.Str? && 0 < Utf8Length(v.s) < NAMEDATALEN
  }

  function KeptNames(elements: seq<Value>): set<string> {
    set e | e in elements && IsKeptName(e) :: e.s
  }

  predicate AllStrings(elements: seq<Value>) {
    forall i :: 0 <= i < |elements| ==> elements[i].Str?
  }

  lemma KeptNamesCons(elements: seq<Value>)
    requires |elements| > 0
    ensures KeptNames(elements) ==
      (if IsKeptName(elements[0]) then {elements[0].s} else {}) + KeptNames(elements[1..])
  {
  }

  // ---------------------------------------------------------------------
  // Actions (ParseActionsArray, IsActionSupported)
  // ---------------------------------------------------------------------

  const SupportedActions: seq<string> := ["find", "insert", "update", "remove"]

  const SupportedActionSet: set<string> := {"find", "insert", "update", "remove"}

  function SupportedFrom(action: string, i: nat): (r: bool)
    requires i <= |SupportedActions|
    ensures r <==> exists j :: i <= j < |SupportedActions| && SupportedActions[j] == action
    decreases |SupportedActions| - i
  {
    if i == |SupportedActions| then false
    else action == SupportedActions[i] || SupportedFrom(action, i + 1)
  }

  /** IsActionSupported: linear search of the supported-action table. */
  function IsActionSupported(action: string): (r: bool)
    ensures r <==> action in SupportedActionSet
  {
    SupportedFrom(action, 0)
  }

  /** The loop of ParseActionsArray: every element must be a string; kept
      names must be supported actions; the set collapses duplicates. */
  function CollectActions(elements: seq<Value>, acc: set<string>): (r: Result<set<string>>)
    ensures r.Success? <==>
      AllStrings(elements) &&
      forall i :: 0 <= i < |elements| && IsKeptName(elements[i]) ==> elements[i].s in SupportedActionSet
    ensures r.Success? ==> r.value == acc + KeptNames(elements)
    decreases |elements|
  {
    if |elements| == 0 then Success(acc)
    else
      KeptNamesCons(elements);
      SupportedCons(elements);
      var e := elements[0];
      if !e.Str? then Fail(BadValue, "Each action must be a string.")
      else if IsKeptName(e) then
        if !IsActionSupported(e.s) then Fail(BadValue, "Unsupported action.")
        else CollectActions(elements[1..], acc + {e.s})
      else CollectActions(elements[1..], acc)
  }

  lemma SupportedCons(elements: seq<Value>)
    requires |elements| > 0
    ensures (AllStrings(elements) &&
             forall i :: 0 <= i < |elements| && IsKeptName(elements[i]) ==> elements[i].s in SupportedActionSet) <==>
      && elements[0].Str? && (IsKeptName(elements[0]) ==> elements[0].s in SupportedActionSet)
      && AllStrings(elements[1..])
      && forall i :: 0 <= i < |elements[1..]| && IsKeptName(elements[1..][i]) ==> elements[1..][i].s in SupportedActionSet
  {
    assert forall i :: 1 <= i < |elements| ==> elements[1..][i - 1] == elements[i];
  }

  predicate ActionsAcceptable(elements: seq<Value>) {
    && AllStrings(elements)
    && (forall i :: 0 <= i < |elements| && IsKeptName(elements[i]) ==> elements[i].s in SupportedActionSet)
    && (exists i :: 0 <= i < |elements| && IsKeptName(elements[i]))
  }

  lemma KeptNamesWitness(elements: seq<Value>)
    ensures KeptNames(elements) != {} <==> exists i :: 0 <= i < |elements| && IsKeptName(elements[i])
    ensures forall a :: a in KeptNames(elements) ==>
      exists i :: 0 <= i < |elements| && IsKeptName(elements[i]) && elements[i].s == a
  {
    if exists i :: 0 <= i < |elements| && IsKeptName(elements[i]) {
      var i :| 0 <= i < |elements| && IsKeptName(elements[i]);
      assert elements[i].s in KeptNames(elements);
    }
    forall a | a in KeptNames(elements)
      ensures exists i :: 0 <= i < |elements| && IsKeptName(elements[i]) && elements[i].s == a
    {
      var e :| e in elements && IsKeptName(e) && e.s == a;
      var i :| 0 <= i < |elements| && elements[i] == e;
    }
  }

  lemma KeptNonEmpty(elements: seq<Value>)
    ensures KeptNames(elements) != {} <==> exists i :: 0 <= i < |elements| && IsKeptName(elements[i])
  {
    KeptNamesWitness(elements);
  }

  lemma KeptSupported(elements: seq<Value>)
    requires forall i :: 0 <= i < |elements| && IsKeptName(elements[i]) ==> elements[i].s in SupportedActionSet
    ensures KeptNames(elements) <= SupportedActionSet
  {
    KeptNamesWitness(elements);
  }

  /** ParseActionsArray: the parsed set is exactly the kept action names, it
      is non-empty and contains only supported actions. */
  function ParseActionsArray(v: Value): (r: Result<set<string>>)
    ensures r.Success? <==> v.Arr? && ActionsAcceptable(v.elements)
    ensures r.Success? ==>
      r.value == KeptNames(v.elements) && r.value != {} && r.value <= SupportedActionSet
  {
    if !v.Arr? then Fail(BadValue, "'actions' must be an array.")
    else
      var actions :- CollectActions(v.elements, {});
      KeptSupported(v.elements);
      KeptNonEmpty(v.elements);
      if |actions| == 0 then Fail(BadValue, "At least one valid action must be specified.")
      else Success(actions)
  }

  /** Duplicates collapse and empty names are skipped: ["find", "", "find"]
      parses to {find}. */
  lemma ActionsCollapseExample()
    ensures ParseActionsArray(Arr([Str("find"), Str(""), Str("find")])) == Success({"find"})
  {
  }

  /** The length limit counts bytes: an action of 32 copies of 'é' is 64
      bytes long, so it is skipped rather than rejected as unsupported,
      although it has fewer than NAMEDATALEN characters. */
  lemma WideActionSkippedExample()
    ensures var wide := seq(32, _ => 'é');
      && |wide| < NAMEDATALEN
      && ParseActionsArray(Arr([Str("find"), Str(wide)])) == Success({"find"})
  {
    var wide := seq(32, _ => 'é');
    Utf8LengthWide(wide);
    assert !IsKeptName(Str(wide));
    assert Utf8Length("find") == 4;
    KeptNamesCons([Str("find"), Str(wide)]);
    KeptNamesCons([Str(wide)]);
  }

  // ---------------------------------------------------------------------
  // Resource document (ParseResourceDocument)
  // ---------------------------------------------------------------------

  datatype ResourceState = ResourceState(db: Option<string>, collection: Option<string>)

  /** A field a resource document may carry: `db` or `collection`, holding a
      non-empty string. */
  predicate ResourceFieldAccepted(f: Field) {
    (f.key == "db" || f.key == "collection") && f.value.Str? && |f.value.s| > 0
  }

  /** The field loop of ParseResourceDocument; a repeated key overwrites. */
  function ResourceFields(fields: seq<Field>, st: ResourceState): (r: Result<ResourceState>)
    ensures r.Success? <==> forall i :: 0 <= i < |fields| ==> ResourceFieldAccepted(fields[i])
    ensures r.Success? ==>
      && (r.value.db.Some? <==> st.db.Some? || HasKey(fields, "db"))
      && (r.value.collection.Some? <==> st.collection.Some? || HasKey(fields, "collection"))
      && (HasKey(fields, "db") ==> LastValue(fields, "db") == Some(Str(r.value.db.value)))
      && (!HasKey(fields, "db") ==> r.value.db == st.db)
      && (HasKey(fields, "collection") ==> LastValue(fields, "collection") == Some(Str(r.value.collection.value)))
      && (!HasKey(fields, "collection") ==> r.value.collection == st.collection)
    decreases |fields|
  {
    if |fields| == 0 then Success(st)
    else
      var f := fields[0];
      var next :-
        if f.key == "db" then
          if !f.value.Str? then Fail(BadValue, "'db' in resource must be a string.")
          else if |f.value.s| == 0 then Fail(BadValue, "'db' in resource must not be empty.")
          else Success(st.(db := Some(f.value.s)))
        else if f.key == "collection" then
          if !f.value.Str? then Fail(BadValue, "'collection' in resource must be a string.")
          else if |f.value.s| == 0 then Fail(BadValue, "'collection' in resource must not be empty.")
          else Success(st.(collection := Some(f.value.s)))
        else Fail(BadValue, "The specified field is not supported in resource.");
      var r := ResourceFields(fields[1..], next);
      assert forall i :: 1 <= i < |fields| ==> fields[i] == fields[1..][i - 1];
      HasKeyCons(fields, "db");
      HasKeyCons(fields, "collection");
      LastValueCons(fields, "db");
      LastValueCons(fields, "collection");
      r
  }

  /** ParseResourceDocument: a document made only of non-empty string `db`
      and `collection` fields, holding both; a repeated key overwrites, so
      the pair is the value of the last field of each. */
  function ParseResourceDocument(v: Value): (r: Result<(string, string)>)
    ensures r.Success? <==>
      && v.Doc?
      && (forall i :: 0 <= i < |v.fields| ==> ResourceFieldAccepted(v.fields[i]))
      && HasKey(v.fields, "db") && HasKey(v.fields, "collection")
    ensures r.Success? ==>
      && |r.value.0| > 0 && |r.value.1| > 0
      && LastValue(v.fields, "db") == Some(Str(r.value.0))
      && LastValue(v.fields, "collection") == Some(Str(r.value.1))
  {
    if !v.Doc? then Fail(BadValue, "'resource' must be a document.")
    else
      var st :- ResourceFields(v.fields, ResourceState(None, None));
      if st.db.None? then Fail(BadValue, "'db' is required in resource.")
      else if st.collection.None? then Fail(BadValue, "'collection' is required in resource.")
      else Success((st.db.value, st.collection.value))
  }

  // ---------------------------------------------------------------------
  // Privileges (ParsePrivilegesArray)
  // ---------------------------------------------------------------------

  datatype PrivilegeState = PrivilegeState(resource: Option<(string, string)>, actions: Option<set<string>>)

  /** A field a privilege document may carry: a valid `resource` or a valid
      `actions` array. */
  predicate PrivilegeFieldAccepted(f: Field) {
    || (f.key == "resource" && ParseResourceDocument(f.value).Success?)
    || (f.key == "actions" && ParseActionsArray(f.value).Success?)
  }

  /** One field of a privilege document. */
  function PrivilegeField(f: Field, st: PrivilegeState): (r: Result<PrivilegeState>)
    ensures r.Success? <==> PrivilegeFieldAccepted(f)
    ensures r.Success? ==>
      && r.value.resource == (if f.key == "resource" then Some(ParseResourceDocument(f.value).value) else st.resource)
      && r.value.actions == (if f.key == "actions" then Some(ParseActionsArray(f.value).value) else st.actions)
  {
    if f.key == "resource" then
      var res :- ParseResourceDocument(f.value);
      Success(st.(resource := Some(res)))
    else if f.key == "actions" then
      var acts :- ParseActionsArray(f.value);
      Success(st.(actions := Some(acts)))
    else Fail(BadValue, "The specified field is not supported in privilege.")
  }

  /** The field loop over one privilege document; a repeated key overwrites. */
  function PrivilegeFields(fields: seq<Field>, st: PrivilegeState): (r: Result<PrivilegeState>)
    ensures r.Success? <==> forall i :: 0 <= i < |fields| ==> PrivilegeFieldAccepted(fields[i])
    ensures r.Success? ==>
      && (r.value.resource.Some? <==> st.resource.Some? || HasKey(fields, "resource"))
      && (r.value.actions.Some? <==> st.actions.Some? || HasKey(fields, "actions"))
    decreases |fields|
  {
    if |fields| == 0 then Success(st)
    else
      var next :- PrivilegeField(fields[0], st);
      var r := PrivilegeFields(fields[1..], next);
      assert forall i :: 1 <= i < |fields| ==> fields[i] == fields[1..][i - 1];
      HasKeyCons(fields, "resource");
      HasKeyCons(fields, "actions");
      r
  }

  /** The parse of the last `resource` field of a privilege document, if it
      has one that parses. */
  function LastResource(fields: seq<Field>): Option<(string, string)> {
    var v := LastValue(fields, "resource");
    if v.Some? && ParseResourceDocument(v.value).Success? then Some(ParseResourceDocument(v.value).value) else None
  }

  /** The parse of the last `actions` field of a privilege document, if it
      has one that parses. */
  function LastActions(fields: seq<Field>): Option<set<string>> {
    var v := LastValue(fields, "actions");
    if v.Some? && ParseActionsArray(v.value).Success? then Some(ParseActionsArray(v.value).value) else None
  }

  /** The resource and the actions a privilege document ends with are the
      parses of its last field of each key; a key it lacks leaves the
      starting value. */
  lemma {:induction false} PrivilegeFieldsRecord(fields: seq<Field>, st: PrivilegeState)
    requires PrivilegeFields(fields, st).Success?
    ensures var r := PrivilegeFields(fields, st).value;
      && r.resource == (if HasKey(fields, "resource") then LastResource(fields) else st.resource)
      && r.actions == (if HasKey(fields, "actions") then LastActions(fields) else st.actions)
    decreases |fields|
  {
    if |fields| > 0 {
      var next := PrivilegeField(fields[0], st).value;
      PrivilegeFieldsRecord(fields[1..], next);
      assert forall i :: 1 <= i < |fields| ==> fields[1..][i - 1] == fields[i];
      LastValueCons(fields, "resource");
      LastValueCons(fields, "actions");
      HasKeyCons(fields, "resource");
      HasKeyCons(fields, "actions");
    }
  }

  /** What ParsePrivilege accepts: a document whose every field is a valid
      resource or actions field, with both present. */
  predicate PrivilegeAccepted(v: Value) {
    && v.Doc?
    && (forall i :: 0 <= i < |v.fields| ==> PrivilegeFieldAccepted(v.fields[i]))
    && HasKey(v.fields, "resource") && HasKey(v.fields, "actions")
  }

  /** One element of the privileges array: a document with a valid resource
      and a valid, non-empty set of supported actions. */
  function ParsePrivilege(v: Value): (r: Result<CustomPrivilege>)
    ensures r.Success? <==> PrivilegeAccepted(v)
    ensures r.Success? ==> ValidPrivilege(r.value)
    ensures r.Success? ==>
      && LastResource(v.fields) == Some((r.value.db, r.value.collection))
      && LastActions(v.fields) == Some(r.value.actions)
  {
    if !v.Doc? then Fail(BadValue, "Each privilege entry must be a document.")
    else
      var st :- PrivilegeFields(v.fields, PrivilegeState(None, None));
      PrivilegeFieldsRecord(v.fields, PrivilegeState(None, None));
      if st.resource.None? then Fail(BadValue, "'resource' is required in privilege.")
      else if st.actions.None? then Fail(BadValue, "'actions' is required in privilege.")
      else
        var (db, collection) := st.resource.value;
        Success(CustomPrivilege(db, collection, st.actions.value))
  }

  /** The element loop of ParsePrivilegesArray. */
  function PrivilegeList(elements: seq<Value>): (r: Result<seq<CustomPrivilege>>)
    ensures r.Success? <==> forall i :: 0 <= i < |elements| ==> PrivilegeAccepted(elements[i])
    ensures r.Success? ==>
      |r.value| == |elements| && forall i :: 0 <= i < |r.value| ==> ValidPrivilege(r.value[i])
    decreases |elements|
  {
    if |elements| == 0 then Success([])
    else
      PrivilegeAcceptedCons(elements);
      var p :- ParsePrivilege(elements[0]);
      var rest :- PrivilegeList(elements[1..]);
      ValidPrivilegesCons(p, rest);
      Success([p] + rest)
  }

  lemma PrivilegeAcceptedCons(elements: seq<Value>)
    requires |elements| > 0
    ensures (forall i :: 0 <= i < |elements| ==> PrivilegeAccepted(elements[i])) <==>
      PrivilegeAccepted(elements[0]) && forall i :: 0 <= i < |elements[1..]| ==> PrivilegeAccepted(elements[1..][i])
  {
    assert forall i :: 1 <= i < |elements| ==> elements[i] == elements[1..][i - 1];
  }

  lemma ValidPrivilegesCons(p: CustomPrivilege, rest: seq<CustomPrivilege>)
    requires ValidPrivilege(p)
    requires forall i :: 0 <= i < |rest| ==> ValidPrivilege(rest[i])
    ensures forall i :: 0 <= i < |[p] + rest| ==> ValidPrivilege(([p] + rest)[i])
  {
  }

  /** The parsed privileges are the array's elements, each parsed, in order. */
  lemma {:induction false} PrivilegeListElements(elements: seq<Value>)
    requires PrivilegeList(elements).Success?
    ensures forall i :: 0 <= i < |elements| ==>
      PrivilegeList(elements).value[i] == ParsePrivilege(elements[i]).value
  {
    forall i | 0 <= i < |elements|
      ensures PrivilegeList(elements).value[i] == ParsePrivilege(elements[i]).value
    {
      PrivilegeListAt(elements, i);
    }
  }

  lemma {:induction false} PrivilegeListAt(elements: seq<Value>, i: nat)
    requires PrivilegeList(elements).Success? && i < |elements|
    ensures PrivilegeList(elements).value[i] == ParsePrivilege(elements[i]).value
    decreases i
  {
    PrivilegeAcceptedCons(elements);
    var p := ParsePrivilege(elements[0]);
    var rest := PrivilegeList(elements[1..]);
    assert p.Success? && rest.Success?;
    assert PrivilegeList(elements).value == [p.value] + rest.value;
    if i > 0 {
      PrivilegeListAt(elements[1..], i - 1);
      assert elements[1..][i - 1] == elements[i];
    }
  }

  /** ParsePrivilegesArray: an array whose every element is a valid
      privilege document, kept in order. */
  function ParsePrivilegesArray(v: Value): (r: Result<seq<CustomPrivilege>>)
    ensures r.Success? <==>
      v.Arr? && forall i :: 0 <= i < |v.elements| ==> PrivilegeAccepted(v.elements[i])
    ensures r.Success? ==>
      |r.value| == |v.elements| &&
      forall i :: 0 <= i < |r.value| ==> ValidPrivilege(r.value[i])
  {
    if !v.Arr? then Fail(BadValue, "'privileges' must be an array.")
    else PrivilegeList(v.elements)
  }

  /** A privilege as the parser guarantees it: a non-empty database and
      collection, and a non-empty set of supported actions. */
  predicate ValidPrivilege(p: CustomPrivilege) {
    |p.db| > 0 && |p.collection| > 0 && p.actions != {} && p.actions <= SupportedActionSet
  }

  // ---------------------------------------------------------------------
  // Parent roles (ParseRolesArray)
  // ---------------------------------------------------------------------

  /** The loop of ParseRolesArray: every element must be a string; kept names
      enter the parent-role set, which never holds a name twice. */
  function AddParentNames(elements: seq<Value>, acc: seq<string>): (r: Result<seq<string>>)
    requires NoDuplicates(acc)
    ensures r.Success? <==> AllStrings(elements)
    ensures r.Success? ==>
      && NoDuplicates(r.value)
      && |acc| <= |r.value| && r.value[..|acc|] == acc
      && Elements(r.value) == Elements(acc) + KeptNames(elements)
    decreases |elements|
  {
    if |elements| == 0 then Success(acc)
    else
      KeptNamesCons(elements);
      var e := elements[0];
      if !e.Str? then Fail(BadValue, "Invalid inherited from role name provided.")
      else if IsKeptName(e) && e.s !in acc then
        assert Elements(acc + [e.s]) == Elements(acc) + {e.s};
        var r := AddParentNames(elements[1..], acc + [e.s]);
        assert r.Success? ==> r.value[..|acc|] == (r.value[..|acc| + 1])[..|acc|];
        r
      else AddParentNames(elements[1..], acc)
  }

  /** ParseRolesArray: the `roles` value must be an array of strings. */
  function ParseRolesArray(v: Value, acc: seq<string>): (r: Result<seq<string>>)
    requires NoDuplicates(acc)
    ensures r.Success? <==> v.Arr? && AllStrings(v.elements)
    ensures r.Success? ==>
      && NoDuplicates(r.value) && |acc| <= |r.value| && r.value[..|acc|] == acc
      && Elements(r.value) == Elements(acc) + KeptNames(v.elements)
  {
    if !v.Arr? then Fail(BadValue, "Expected 'array' type for 'roles' parameter.")
    else AddParentNames(v.elements, acc)
  }

  // ---------------------------------------------------------------------
  // createRole (ParseCreateRoleSpec)
  // ---------------------------------------------------------------------

  /** A name a custom role may take: non-empty, free of the reserved prefix,
      and not one of the native built-in names. */
  predicate ValidCustomRoleName(cfg: ServerConfig, name: string) {
    |name| > 0 && !cfg.isReservedRoleName(name) && !IsNativeBuiltInRole(name)
  }

  /** A top-level createRole field the parser lets through. */
  predicate CreateRoleFieldAccepted(cfg: ServerConfig, f: Field) {
    if f.key == "createRole" then f.value.Str? && ValidCustomRoleName(cfg, f.value.s)
    else if f.key == "roles" then f.value.Arr? && AllStrings(f.value.elements)
    else if f.key == "privileges" then
      f.value.Arr? && forall i :: 0 <= i < |f.value.elements| ==> PrivilegeAccepted(f.value.elements[i])
    else if f.key == "$db" && cfg.enableRolesAdminDbCheck then f.value == Str("admin")
    else cfg.isCommonIgnoredField(f.key)
  }

  /** Every kept name of every `roles` field of the request. */
  function RequestedParentNames(fields: seq<Field>): set<string> {
    set i, e | 0 <= i < |fields| && fields[i].key == "roles" && fields[i].value.Arr? &&
               e in fields[i].value.elements && IsKeptName(e) :: e.s
  }

  lemma RequestedParentNamesCons(fields: seq<Field>)
    requires |fields| > 0
    ensures RequestedParentNames(fields) ==
      (if fields[0].key == "roles" && fields[0].value.Arr? then KeptNames(fields[0].value.elements) else {})
      + RequestedParentNames(fields[1..])
  {
  }

  datatype CreateRoleState = CreateRoleState(
    roleName: Option<string>,
    parentRoles: seq<string>,
    privileges: seq<CustomPrivilege>,
    dbFound: bool,
    rolesFound: bool,
    privilegesFound: bool)

  /** Appends the privileges of one `privileges` field to those already
      parsed. */
  function AppendPrivileges(acc: seq<CustomPrivilege>, v: Value): (r: Result<seq<CustomPrivilege>>)
    ensures r.Success? <==> ParsePrivilegesArray(v).Success?
    ensures r.Success? ==>
      && |acc| <= |r.value| && r.value[..|acc|] == acc
      && (forall k :: |acc| <= k < |r.value| ==> ValidPrivilege(r.value[k]))
  {
    var privileges :- ParsePrivilegesArray(v);
    assert forall k :: |acc| <= k < |acc + privileges| ==> (acc + privileges)[k] == privileges[k - |acc|];
    assert (acc + privileges)[..|acc|] == acc;
    Success(acc + privileges)
  }

  /** The `createRole` field: a non-empty string that is neither reserved
      nor a native built-in name. */
  function CreateRoleNameField(cfg: ServerConfig, v: Value, st: CreateRoleState): (r: Result<CreateRoleState>)
    ensures r.Success? <==> v.Str? && ValidCustomRoleName(cfg, v.s)
    ensures r.Success? ==> r.value == st.(roleName := Some(v.s))
  {
    if !v.Str? then Fail(TypeMismatch, "Expected 'string' type for 'createRole'.")
    else if |v.s| == 0 then Fail(BadValue, "The 'createRole' field must not be left empty.")
    else if cfg.isReservedRoleName(v.s) then
      Fail(BadValue, "Role name is reserved and can't be used as a custom role name.")
    else if IsNativeBuiltInRole(v.s) then
      Fail(BadValue, "Role name is a built-in role and can't be used as a custom role name.")
    else Success(st.(roleName := Some(v.s)))
  }

  /** A `roles` field: its kept names join the parent-role set. */
  function RolesField(v: Value, st: CreateRoleState): (r: Result<CreateRoleState>)
    requires NoDuplicates(st.parentRoles)
    ensures r.Success? <==> v.Arr? && AllStrings(v.elements)
    ensures r.Success? ==>
      && r.value == st.(rolesFound := true, parentRoles := r.value.parentRoles)
      && NoDuplicates(r.value.parentRoles)
      && Elements(r.value.parentRoles) == Elements(st.parentRoles) + KeptNames(v.elements)
  {
    var parents :- ParseRolesArray(v, st.parentRoles);
    Success(st.(rolesFound := true, parentRoles := parents))
  }

  /** A `privileges` field: its privileges are appended to those parsed. */
  function PrivilegesField(v: Value, st: CreateRoleState): (r: Result<CreateRoleState>)
    ensures r.Success? <==> ParsePrivilegesArray(v).Success?
    ensures r.Success? ==>
      && r.value == st.(privilegesFound := true, privileges := r.value.privileges)
      && |st.privileges| <= |r.value.privileges| && r.value.privileges[..|st.privileges|] == st.privileges
      && (forall k :: |st.privileges| <= k < |r.value.privileges| ==> ValidPrivilege(r.value.privileges[k]))
  {
    var privileges :- AppendPrivileges(st.privileges, v);
    Success(st.(privilegesFound := true, privileges := privileges))
  }

  /** One iteration of the field loop of ParseCreateRoleSpec. A repeated
      `createRole` overwrites the name; repeated `roles` and `privileges`
      accumulate. */
  function CreateRoleField(cfg: ServerConfig, f: Field, st: CreateRoleState): (r: Result<CreateRoleState>)
    requires NoDuplicates(st.parentRoles)
    ensures r.Success? <==> CreateRoleFieldAccepted(cfg, f)
    ensures r.Success? ==>
      && r.value.roleName == (if f.key == "createRole" then Some(f.value.s) else st.roleName)
      && r.value.rolesFound == (st.rolesFound || f.key == "roles")
      && r.value.privilegesFound == (st.privilegesFound || f.key == "privileges")
      && r.value.dbFound == (st.dbFound || (cfg.enableRolesAdminDbCheck && f.key == "$db"))
      && NoDuplicates(r.value.parentRoles)
      && Elements(r.value.parentRoles) == Elements(st.parentRoles) +
           (if f.key == "roles" && f.value.Arr? then KeptNames(f.value.elements) else {})
      && |st.privileges| <= |r.value.privileges| && r.value.privileges[..|st.privileges|] == st.privileges
      && (forall k :: |st.privileges| <= k < |r.value.privileges| ==> ValidPrivilege(r.value.privileges[k]))
  {
    if f.key == "createRole" then CreateRoleNameField(cfg, f.value, st)
    else if f.key == "roles" then RolesField(f.value, st)
    else if f.key == "privileges" then PrivilegesField(f.value, st)
    else if f.key == "$db" && cfg.enableRolesAdminDbCheck then CreateRoleDbField(f.value, st)
    else if cfg.isCommonIgnoredField(f.key) then Success(st)
    else Fail(BadValue, "The specified field is not supported.")
  }

  /** The `$db` field of createRole, when the admin-database check is on:
      it must name the admin database. */
  function CreateRoleDbField(v: Value, st: CreateRoleState): (r: Result<CreateRoleState>)
    ensures r.Success? <==> v == Str("admin")
    ensures r.Success? ==> r.value == st.(dbFound := true)
  {
    if !v.Str? then Fail(TypeMismatch, "Expected 'string' type for '$db'.")
    else if v.s != "admin" then Fail(BadValue, "CreateRole must be called from 'admin' database.")
    else Success(st.(dbFound := true))
  }

  /** The field loop of ParseCreateRoleSpec: it gets through exactly when
      every field is acceptable. */
  function CreateRoleFields(cfg: ServerConfig, fields: seq<Field>, st: CreateRoleState): (r: Result<CreateRoleState>)
    requires NoDuplicates(st.parentRoles)
    ensures r.Success? <==> forall i :: 0 <= i < |fields| ==> CreateRoleFieldAccepted(cfg, fields[i])
    ensures r.Success? ==> NoDuplicates(r.value.parentRoles)
    decreases |fields|
  {
    if |fields| == 0 then Success(st)
    else
      var next :- CreateRoleField(cfg, fields[0], st);
      var r := CreateRoleFields(cfg, fields[1..], next);
      assert forall i :: 1 <= i < |fields| ==> fields[i] == fields[1..][i - 1];
      r
  }

  /** The field loop notes each required field it meets. */
  lemma {:induction false} CreateRoleFieldsFlags(cfg: ServerConfig, fields: seq<Field>, st: CreateRoleState)
    requires NoDuplicates(st.parentRoles)
    requires CreateRoleFields(cfg, fields, st).Success?
    ensures var r := CreateRoleFields(cfg, fields, st).value;
      && (r.roleName.Some? <==> st.roleName.Some? || HasKey(fields, "createRole"))
      && (r.rolesFound <==> st.rolesFound || HasKey(fields, "roles"))
      && (r.privilegesFound <==> st.privilegesFound || HasKey(fields, "privileges"))
      && (r.dbFound <==> st.dbFound || (cfg.enableRolesAdminDbCheck && HasKey(fields, "$db")))
    decreases |fields|
  {
    if |fields| > 0 {
      var next := CreateRoleField(cfg, fields[0], st).value;
      CreateRoleFieldsFlags(cfg, fields[1..], next);
      HasKeyCons(fields, "createRole");
      HasKeyCons(fields, "roles");
      HasKeyCons(fields, "privileges");
      HasKeyCons(fields, "$db");
    }
  }

  /** The role name the field loop keeps is the value of the last
      `createRole` field; without one, the starting name survives. */
  lemma {:induction false} CreateRoleFieldsName(cfg: ServerConfig, fields: seq<Field>, st: CreateRoleState)
    requires NoDuplicates(st.parentRoles)
    requires CreateRoleFields(cfg, fields, st).Success?
    ensures var r := CreateRoleFields(cfg, fields, st).value;
      && (HasKey(fields, "createRole") ==> r.roleName.Some? && LastValue(fields, "createRole") == Some(Str(r.roleName.value)))
      && (!HasKey(fields, "createRole") ==> r.roleName == st.roleName)
    decreases |fields|
  {
    if |fields| > 0 {
      var next := CreateRoleField(cfg, fields[0], st).value;
      CreateRoleFieldsName(cfg, fields[1..], next);
      assert CreateRoleFieldAccepted(cfg, fields[0]);
      HasKeyCons(fields, "createRole");
      LastValueCons(fields, "createRole");
    }
  }

  /** The parent-role set gathers every kept name of every `roles` field. */
  lemma {:induction false} CreateRoleFieldsParents(cfg: ServerConfig, fields: seq<Field>, st: CreateRoleState)
    requires NoDuplicates(st.parentRoles)
    requires CreateRoleFields(cfg, fields, st).Success?
    ensures var r := CreateRoleFields(cfg, fields, st).value;
      Elements(r.parentRoles) == Elements(st.parentRoles) + RequestedParentNames(fields)
    decreases |fields|
  {
    if |fields| > 0 {
      var next := CreateRoleField(cfg, fields[0], st).value;
      CreateRoleFieldsParents(cfg, fields[1..], next);
      RequestedParentNamesCons(fields);
    }
  }

  /** The field loop only appends privileges, and only valid ones. */
  lemma {:induction false} CreateRoleFieldsPrivileges(cfg: ServerConfig, fields: seq<Field>, st: CreateRoleState)
    requires NoDuplicates(st.parentRoles)
    requires CreateRoleFields(cfg, fields, st).Success?
    ensures var r := CreateRoleFields(cfg, fields, st).value;
      && |st.privileges| <= |r.privileges| && r.privileges[..|st.privileges|] == st.privileges
      && (forall k :: |st.privileges| <= k < |r.privileges| ==> ValidPrivilege(r.privileges[k]))
    decreases |fields|
  {
    if |fields| > 0 {
      var next := CreateRoleField(cfg, fields[0], st).value;
      CreateRoleFieldsPrivileges(cfg, fields[1..], next);
      var r := CreateRoleFields(cfg, fields, st).value;
      var p, n, q := st.privileges, next.privileges, r.privileges;
      assert q[..|n|] == n;
      assert q[..|p|] == n[..|p|] == p;
      forall k | |p| <= k < |q| ensures ValidPrivilege(q[k]) {
        if k < |n| {
          assert q[k] == q[..|n|][k] == n[k];
        }
      }
    }
  }

  /** ParseCreateRoleSpec: the request is accepted exactly when every field is
      acceptable and `createRole`, `roles`, `privileges` (and, with the
      admin-database check on, `$db`) are present. */
  function ParseCreateRoleSpec(cfg: ServerConfig, fields: seq<Field>): (r: Result<CreateRoleSpec>)
    ensures r.Success? <==>
      && (forall i :: 0 <= i < |fields| ==> CreateRoleFieldAccepted(cfg, fields[i]))
      && HasKey(fields, "createRole") && HasKey(fields, "roles") && HasKey(fields, "privileges")
      && (cfg.enableRolesAdminDbCheck ==> HasKey(fields, "$db"))
    ensures r.Success? ==>
      && ValidCustomRoleName(cfg, r.value.roleName)
      && LastValue(fields, "createRole") == Some(Str(r.value.roleName))
      && NoDuplicates(r.value.parentRoles)
      && Elements(r.value.parentRoles) == RequestedParentNames(fields)
      && (forall k :: 0 <= k < |r.value.privileges| ==> ValidPrivilege(r.value.privileges[k]))
  {
    var st0 := CreateRoleState(None, [], [], false, false, false);
    var st :- CreateRoleFields(cfg, fields, st0);
    CreateRoleFieldsFlags(cfg, fields, st0);
    CreateRoleFieldsName(cfg, fields, st0);
    CreateRoleFieldsParents(cfg, fields, st0);
    CreateRoleFieldsPrivileges(cfg, fields, st0);
    if !st.dbFound && cfg.enableRolesAdminDbCheck then Fail(BadValue, "The required $db property is missing.")
    else if st.roleName.None? then Fail(BadValue, "'createRole' is a required field.")
    else if !st.rolesFound then Fail(BadValue, "'roles' is a required field.")
    else if !st.privilegesFound then Fail(BadValue, "'privileges' is a required field.")
    else Success(CreateRoleSpec(st.roleName.value, st.parentRoles, st.privileges))
  }

  // ---------------------------------------------------------------------
  // dropRole (ParseDropRoleSpec)
  // ---------------------------------------------------------------------

  /** A name dropRole accepts: non-empty, neither a built-in role nor a
      system login role. */
  predicate DroppableRoleName(cfg: ServerConfig, name: string) {
    |name| > 0 && !cfg.isBuiltInRole(name) && !cfg.isSystemLoginRole(name)
  }

  predicate DropRoleFieldAccepted(cfg: ServerConfig, f: Field) {
    if f.key == "dropRole" then f.value.Str? && DroppableRoleName(cfg, f.value.s)
    else if f.key == "$db" && cfg.enableRolesAdminDbCheck then f.value == Str("admin")
    else cfg.isCommonIgnoredField(f.key)
  }

  datatype DropRoleState = DropRoleState(roleName: Option<string>, dbFound: bool)

  /** One iteration of the field loop of ParseDropRoleSpec. */
  function DropRoleField(cfg: ServerConfig, f: Field, st: DropRoleState): (r: Result<DropRoleState>)
    ensures r.Success? <==> DropRoleFieldAccepted(cfg, f)
    ensures r.Success? ==>
      && r.value.roleName == (if f.key == "dropRole" then Some(f.value.s) else st.roleName)
      && r.value.dbFound == (st.dbFound || (cfg.enableRolesAdminDbCheck && f.key == "$db"))
  {
    if f.key == "dropRole" then
      if !f.value.Str? then Fail(TypeMismatch, "Expected 'string' type for 'dropRole'.")
      else if |f.value.s| == 0 then Fail(BadValue, "'dropRole' cannot be empty.")
      else if cfg.isBuiltInRole(f.value.s) || cfg.isSystemLoginRole(f.value.s) then
        Fail(BadValue, "Cannot drop built-in role.")
      else Success(st.(roleName := Some(f.value.s)))
    else if f.key == "$db" && cfg.enableRolesAdminDbCheck then
      if !f.value.Str? then Fail(TypeMismatch, "Expected 'string' type for '$db'.")
      else if f.value.s != "admin" then Fail(BadValue, "DropRole must be called from 'admin' database.")
      else Success(st.(dbFound := true))
    else if cfg.isCommonIgnoredField(f.key) then Success(st)
    else Fail(BadValue, "Unsupported field specified.")
  }

  /** The field loop of ParseDropRoleSpec; a repeated `dropRole`
      overwrites, so the last one wins. */
  function DropRoleFields(cfg: ServerConfig, fields: seq<Field>, st: DropRoleState): (r: Result<DropRoleState>)
    ensures r.Success? <==> forall i :: 0 <= i < |fields| ==> DropRoleFieldAccepted(cfg, fields[i])
    ensures r.Success? ==>
      && (r.value.roleName.Some? <==> st.roleName.Some? || HasKey(fields, "dropRole"))
      && (HasKey(fields, "dropRole") ==> LastValue(fields, "dropRole") == Some(Str(r.value.roleName.value)))
      && (!HasKey(fields, "dropRole") ==> r.value.roleName == st.roleName)
      && (r.value.dbFound <==> st.dbFound || (cfg.enableRolesAdminDbCheck && HasKey(fields, "$db")))
    decreases |fields|
  {
    if |fields| == 0 then Success(st)
    else
      var next :- DropRoleField(cfg, fields[0], st);
      var r := DropRoleFields(cfg, fields[1..], next);
      assert forall i :: 1 <= i < |fields| ==> fields[i] == fields[1..][i - 1];
      HasKeyCons(fields, "dropRole");
      HasKeyCons(fields, "$db");
      LastValueCons(fields, "dropRole");
      r
  }

  /** ParseDropRoleSpec: accepted exactly when every field is acceptable and
      `dropRole` (and, with the admin-database check on, `$db`) is present;
      the name is then droppable. */
  function ParseDropRoleSpec(cfg: ServerConfig, fields: seq<Field>): (r: Result<DropRoleSpec>)
    ensures r.Success? <==>
      && (forall i :: 0 <= i < |fields| ==> DropRoleFieldAccepted(cfg, fields[i]))
      && HasKey(fields, "dropRole")
      && (cfg.enableRolesAdminDbCheck ==> HasKey(fields, "$db"))
    ensures r.Success? ==>
      && DroppableRoleName(cfg, r.value.roleName)
      && LastValue(fields, "dropRole") == Some(Str(r.value.roleName))
  {
    var st :- DropRoleFields(cfg, fields, DropRoleState(None, false));
    if !st.dbFound && cfg.enableRolesAdminDbCheck then Fail(BadValue, "The required $db property is missing.")
    else if st.roleName.None? then Fail(BadValue, "'dropRole' is a required field.")
    else Success(DropRoleSpec(st.roleName.value))
  }

  /** A repeated `dropRole` overwrites: of ["a", "b"] the parser keeps "b". */
  lemma DropRoleLastWinsExample(cfg: ServerConfig)
    requires !cfg.enableRolesAdminDbCheck
    requires DroppableRoleName(cfg, "a") && DroppableRoleName(cfg, "b")
    ensures ParseDropRoleSpec(cfg, [Field("dropRole", Str("a")), Field("dropRole", Str("b"))]) == Success(DropRoleSpec("b"))
  {
    var fields := [Field("dropRole", Str("a")), Field("dropRole", Str("b"))];
    assert fields[..1] == [Field("dropRole", Str("a"))];
    assert LastValue(fields, "dropRole") == Some(Str("b"));
  }

  // ---------------------------------------------------------------------
  // rolesInfo (ParseRolesInfoSpec, ParseRoleDefinition, ParseRoleDocument)
  // ---------------------------------------------------------------------

  /** A field of a `{role, db}` document: a string `role`, or `db` equal to
      "admin". */
  predicate RoleDocFieldAccepted(f: Field) {
    (f.key == "role" && f.value.Str?) || (f.key == "db" && f.value == Str("admin"))
  }

  predicate RoleDocumentAccepted(fields: seq<Field>) {
    && (forall i :: 0 <= i < |fields| ==> RoleDocFieldAccepted(fields[i]))
    && HasKey(fields, "role") && HasKey(fields, "db")
  }

  datatype RoleDocState = RoleDocState(role: Option<string>, db: Option<string>)

  /** The field loop of ParseRoleDocument; a repeated key overwrites. */
  function RoleDocFields(fields: seq<Field>, st: RoleDocState): (r: Result<RoleDocState>)
    ensures r.Success? <==> forall i :: 0 <= i < |fields| ==> RoleDocFieldAccepted(fields[i])
    ensures r.Success? ==>
      && (r.value.role.Some? <==> st.role.Some? || HasKey(fields, "role"))
      && (r.value.db.Some? <==> st.db.Some? || HasKey(fields, "db"))
      && (r.value.role.Some? ==> (r.value.role == st.role ||
            exists i :: 0 <= i < |fields| && fields[i] == Field("role", Str(r.value.role.value))))
    decreases |fields|
  {
    if |fields| == 0 then Success(st)
    else
      var f := fields[0];
      var next :-
        if f.key == "role" then
          if !f.value.Str? then Fail(BadValue, "'role' field must be a string.")
          else Success(st.(role := Some(f.value.s)))
        else if f.key == "db" then
          if !f.value.Str? then Fail(BadValue, "'db' field must be a string.")
          else if f.value.s != "admin" then
            Fail(BadValue, "Unsupported value specified for db. Only 'admin' is allowed.")
          else Success(st.(db := Some(f.value.s)))
        else Fail(BadValue, "Unknown property in role document.");
      var r := RoleDocFields(fields[1..], next);
      assert forall i :: 1 <= i < |fields| ==> fields[i] == fields[1..][i - 1];
      HasKeyCons(fields, "role");
      HasKeyCons(fields, "db");
      r
  }

  /** The role a `{role, db}` document names: the string of its last `role`
      field. */
  function DocumentRole(fields: seq<Field>): Option<string> {
    var v := LastValue(fields, "role");
    if v.Some? && v.value.Str? then Some(v.value.s) else None
  }

  /** The field loop ends with the last `role` of the document and, once a
      `db` field got through, the admin database. */
  lemma {:induction false} RoleDocFieldsRecord(fields: seq<Field>, st: RoleDocState)
    requires RoleDocFields(fields, st).Success?
    ensures var r := RoleDocFields(fields, st).value;
      && r.role == (if HasKey(fields, "role") then DocumentRole(fields) else st.role)
      && r.db == (if HasKey(fields, "db") then Some("admin") else st.db)
    decreases |fields|
  {
    if |fields| > 0 {
      var f := fields[0];
      var next := if f.key == "role" then st.(role := Some(f.value.s)) else st.(db := Some(f.value.s));
      assert RoleDocFields(fields, st) == RoleDocFields(fields[1..], next);
      RoleDocFieldsRecord(fields[1..], next);
      LastValueCons(fields, "role");
      HasKeyCons(fields, "role");
      HasKeyCons(fields, "db");
    }
  }

  /** The names a role document asks for: its role, when that is non-empty. */
  function DocumentNames(fields: seq<Field>): seq<string> {
    var role := DocumentRole(fields);
    if role.Some? && |role.value| > 0 then [role.value] else []
  }

  /** ParseRoleDocument: a `{role, db: "admin"}` document appends its role
      name when that name is non-empty. */
  function ParseRoleDocument(fields: seq<Field>, names: seq<string>): (r: Result<seq<string>>)
    ensures r.Success? <==> RoleDocumentAccepted(fields)
    ensures r.Success? ==> r.value == names + DocumentNames(fields)
  {
    var st :- RoleDocFields(fields, RoleDocState(None, None));
    RoleDocFieldsRecord(fields, RoleDocState(None, None));
    if st.role.None? || st.db.None? then Fail(BadValue, "'role' and 'db' are required fields.")
    else if |st.role.value| > 0 && |st.db.value| > 0 then Success(names + [st.role.value])
    else Success(names)
  }

  /** A role definition rolesInfo accepts: any string, or a valid role
      document. */
  predicate RoleDefinitionAccepted(v: Value) {
    v.Str? || (v.Doc? && RoleDocumentAccepted(v.fields))
  }

  /** The names one role definition asks for: a non-empty string names
      itself, a role document names its non-empty role, and nothing else
      names anything. */
  function DefinitionNames(v: Value): seq<string> {
    if v.Str? then (if |v.s| > 0 then [v.s] else [])
    else if v.Doc? then DocumentNames(v.fields)
    else []
  }

  /** The names an array of role definitions asks for, element by element. */
  function DefinitionListNames(elements: seq<Value>): seq<string>
    decreases |elements|
  {
    if |elements| == 0 then [] else DefinitionNames(elements[0]) + DefinitionListNames(elements[1..])
  }

  /** The names one `rolesInfo` value asks for: none for the integer 1, those
      of each element for an array, those of the definition otherwise. */
  function ValueNames(v: Value): seq<string> {
    if v.Int32? then [] else if v.Arr? then DefinitionListNames(v.elements) else DefinitionNames(v)
  }

  /** The names one top-level field asks for: those of its value when it is
      a `rolesInfo` field. */
  function FieldNames(f: Field): seq<string> {
    if f.key == "rolesInfo" then ValueNames(f.value) else []
  }

  /** Every name a rolesInfo request asks for, across all its `rolesInfo`
      fields, in wire order. */
  function RequestedNames(fields: seq<Field>): seq<string>
    decreases |fields|
  {
    if |fields| == 0 then [] else FieldNames(fields[0]) + RequestedNames(fields[1..])
  }

  /** One more field of the loop: the names gathered so far, then those of
      the rest of the request. */
  lemma RequestedNamesStep(before: seq<string>, fields: seq<Field>)
    requires |fields| > 0
    ensures before + FieldNames(fields[0]) + RequestedNames(fields[1..]) == before + RequestedNames(fields)
  {
  }

  /** A string and a role document in one array ask for both names, in
      order. */
  lemma RolesInfoNamesExample(cfg: ServerConfig)
    requires !cfg.enableRolesAdminDbCheck
    ensures var fields := [Field("rolesInfo", Arr([Str("a"), Doc([Field("role", Str("b")), Field("db", Str("admin"))])]))];
      ParseRolesInfoSpec(cfg, fields).Success? && ParseRolesInfoSpec(cfg, fields).value.roleNames == ["a", "b"]
  {
    var doc := [Field("role", Str("b")), Field("db", Str("admin"))];
    var fields := [Field("rolesInfo", Arr([Str("a"), Doc(doc)]))];
    assert HasKey(doc, "role") by { assert doc[0].key == "role"; }
    assert HasKey(doc, "db") by { assert doc[1].key == "db"; }
    assert HasKey(fields, "rolesInfo") by { assert fields[0].key == "rolesInfo"; }
    assert LastValue(doc, "role") == Some(Str("b")) by {
      assert doc[..1] == [Field("role", Str("b"))];
    }
    assert DocumentNames(doc) == ["b"];
    assert DefinitionListNames([Doc(doc)]) == ["b"];
    assert DefinitionListNames([Str("a"), Doc(doc)]) == ["a", "b"] by {
      assert [Str("a"), Doc(doc)][1..] == [Doc(doc)];
    }
    assert RequestedNames(fields) == ["a", "b"];
  }

  /** True when no name of `s` is empty. */
  predicate NonEmptyNames(s: seq<string>) {
    forall k :: 0 <= k < |s| ==> |s[k]| > 0
  }

  lemma NonEmptyNamesAppend(a: seq<string>, b: seq<string>)
    requires NonEmptyNames(a) && NonEmptyNames(b)
    ensures NonEmptyNames(a + b)
  {
    assert forall k :: |a| <= k < |a + b| ==> (a + b)[k] == b[k - |a|];
  }

  /** An array of role definitions asks only for non-empty names. */
  lemma {:induction false} DefinitionListNamesNonEmpty(elements: seq<Value>)
    ensures NonEmptyNames(DefinitionListNames(elements))
    decreases |elements|
  {
    if |elements| > 0 {
      DefinitionListNamesNonEmpty(elements[1..]);
      NonEmptyNamesAppend(DefinitionNames(elements[0]), DefinitionListNames(elements[1..]));
    }
  }

  /** A rolesInfo request asks only for non-empty names: empty strings and
      empty document roles are skipped. */
  lemma {:induction false} RequestedNamesNonEmpty(fields: seq<Field>)
    ensures NonEmptyNames(RequestedNames(fields))
    decreases |fields|
  {
    if |fields| > 0 {
      RequestedNamesNonEmpty(fields[1..]);
      if fields[0].value.Arr? {
        DefinitionListNamesNonEmpty(fields[0].value.elements);
      }
      NonEmptyNamesAppend(FieldNames(fields[0]), RequestedNames(fields[1..]));
    }
  }

  /** ParseRoleDefinition: a non-empty string is appended, an empty one is
      skipped, a document goes through ParseRoleDocument, anything else is
      rejected. */
  function ParseRoleDefinition(v: Value, names: seq<string>): (r: Result<seq<string>>)
    ensures r.Success? <==> RoleDefinitionAccepted(v)
    ensures v.Str? ==> r == Success(if |v.s| > 0 then names + [v.s] else names)
    ensures r.Success? ==> r.value == names + DefinitionNames(v)
  {
    if v.Str? then
      if |v.s| > 0 then Success(names + [v.s]) else Success(names)
    else if v.Doc? then ParseRoleDocument(v.fields, names)
    else Fail(BadValue, "'rolesInfo' must be 1, a string, a document, or an array.")
  }

  /** The array form of rolesInfo: each element is one role definition. */
  function RoleDefinitionList(elements: seq<Value>, names: seq<string>): (r: Result<seq<string>>)
    ensures r.Success? <==> forall i :: 0 <= i < |elements| ==> RoleDefinitionAccepted(elements[i])
    ensures r.Success? ==> r.value == names + DefinitionListNames(elements)
    decreases |elements|
  {
    if |elements| == 0 then Success(names)
    else
      DefinitionsAcceptedCons(elements);
      var next :- ParseRoleDefinition(elements[0], names);
      var r := RoleDefinitionList(elements[1..], next);
      assert names + DefinitionNames(elements[0]) + DefinitionListNames(elements[1..]) ==
        names + DefinitionListNames(elements);
      r
  }

  lemma DefinitionsAcceptedCons(elements: seq<Value>)
    requires |elements| > 0
    ensures (forall i :: 0 <= i < |elements| ==> RoleDefinitionAccepted(elements[i])) <==>
      RoleDefinitionAccepted(elements[0]) &&
      forall i :: 0 <= i < |elements[1..]| ==> RoleDefinitionAccepted(elements[1..][i])
  {
    assert forall i :: 1 <= i < |elements| ==> elements[1..][i - 1] == elements[i];
  }

  /** The accepted shapes of the `rolesInfo` value: the integer 1, an array
      of role definitions, or a single role definition. */
  predicate RolesInfoValueAccepted(v: Value) {
    if v.Int32? then v.i == 1
    else if v.Arr? then forall i :: 0 <= i < |v.elements| ==> RoleDefinitionAccepted(v.elements[i])
    else RoleDefinitionAccepted(v)
  }

  predicate RolesInfoFieldAccepted(cfg: ServerConfig, f: Field) {
    if f.key == "rolesInfo" then RolesInfoValueAccepted(f.value)
    else if f.key == "showBuiltInRoles" || f.key == "showPrivileges" then f.value.Bool?
    else if f.key == "$db" && cfg.enableRolesAdminDbCheck then f.value == Str("admin")
    else cfg.isCommonIgnoredField(f.key)
  }

  datatype RolesInfoState = RolesInfoState(
    roleNames: seq<string>,
    showAllRoles: bool,
    showBuiltInRoles: bool,
    showPrivileges: bool,
    rolesInfoFound: bool,
    dbFound: bool)

  /** The `rolesInfo` field itself. */
  function RolesInfoValue(v: Value, st: RolesInfoState): (r: Result<RolesInfoState>)
    ensures r.Success? <==> RolesInfoValueAccepted(v)
    ensures r.Success? ==>
      && r.value == st.(roleNames := r.value.roleNames, showAllRoles := r.value.showAllRoles, rolesInfoFound := true)
      && r.value.showAllRoles == (st.showAllRoles || v == Int32(1))
      && r.value.roleNames == st.roleNames + ValueNames(v)
  {
    if v.Int32? then
      if v.i == 1 then Success(st.(showAllRoles := true, rolesInfoFound := true))
      else Fail(BadValue, "'rolesInfo' must be 1, a string, a document, or an array.")
    else if v.Arr? then
      var names :- RoleDefinitionList(v.elements, st.roleNames);
      Success(st.(roleNames := names, rolesInfoFound := true))
    else
      var names :- ParseRoleDefinition(v, st.roleNames);
      Success(st.(roleNames := names, rolesInfoFound := true))
  }

  /** One iteration of the field loop of ParseRolesInfoSpec. */
  function RolesInfoField(cfg: ServerConfig, f: Field, st: RolesInfoState): (r: Result<RolesInfoState>)
    ensures r.Success? <==> RolesInfoFieldAccepted(cfg, f)
    ensures r.Success? ==>
      && r.value.showAllRoles == (st.showAllRoles || f == Field("rolesInfo", Int32(1)))
      && r.value.rolesInfoFound == (st.rolesInfoFound || f.key == "rolesInfo")
      && r.value.showBuiltInRoles == (if f.key == "showBuiltInRoles" then f.value.b else st.showBuiltInRoles)
      && r.value.showPrivileges == (if f.key == "showPrivileges" then f.value.b else st.showPrivileges)
      && r.value.dbFound == (st.dbFound || (cfg.enableRolesAdminDbCheck && f.key == "$db"))
      && r.value.roleNames == st.roleNames + FieldNames(f)
  {
    if f.key == "rolesInfo" then RolesInfoValue(f.value, st)
    else if f.key == "showBuiltInRoles" then
      if f.value.Bool? then Success(st.(showBuiltInRoles := f.value.b))
      else Fail(BadValue, "'showBuiltInRoles' must be a boolean value")
    else if f.key == "showPrivileges" then
      if f.value.Bool? then Success(st.(showPrivileges := f.value.b))
      else Fail(BadValue, "'showPrivileges' must be a boolean value")
    else if f.key == "$db" && cfg.enableRolesAdminDbCheck then
      if !f.value.Str? then Fail(TypeMismatch, "Expected 'string' type for '$db'.")
      else if f.value.s != "admin" then Fail(BadValue, "RolesInfo must be called from 'admin' database.")
      else Success(st.(dbFound := true))
    else if cfg.isCommonIgnoredField(f.key) then Success(st)
    else Fail(BadValue, "Unsupported field specified.")
  }

  /** The field loop of ParseRolesInfoSpec. */
  function RolesInfoFields(cfg: ServerConfig, fields: seq<Field>, st: RolesInfoState): (r: Result<RolesInfoState>)
    ensures r.Success? <==> forall i :: 0 <= i < |fields| ==> RolesInfoFieldAccepted(cfg, fields[i])
    ensures r.Success? ==> r.value.roleNames == st.roleNames + RequestedNames(fields)
    decreases |fields|
  {
    if |fields| == 0 then Success(st)
    else
      RolesInfoAcceptedCons(cfg, fields);
      var next :- RolesInfoField(cfg, fields[0], st);
      var r := RolesInfoFields(cfg, fields[1..], next);
      RequestedNamesStep(st.roleNames, fields);
      r
  }

  lemma RolesInfoAcceptedCons(cfg: ServerConfig, fields: seq<Field>)
    requires |fields| > 0
    ensures (forall i :: 0 <= i < |fields| ==> RolesInfoFieldAccepted(cfg, fields[i])) <==>
      RolesInfoFieldAccepted(cfg, fields[0]) &&
      forall i :: 0 <= i < |fields[1..]| ==> RolesInfoFieldAccepted(cfg, fields[1..][i])
  {
    assert forall i :: 1 <= i < |fields| ==> fields[1..][i - 1] == fields[i];
  }

  /** The value a boolean option ends up with: that of the last field with
      that key, or `default` when there is none. Read from the end of the
      document, independently of the forward field loop. */
  function LastFlag(fields: seq<Field>, key: string, default: bool): bool
    decreases |fields|
  {
    if |fields| == 0 then default
    else if fields[|fields| - 1].key == key && fields[|fields| - 1].value.Bool? then fields[|fields| - 1].value.b
    else LastFlag(fields[..|fields| - 1], key, default)
  }

  lemma {:induction false} LastFlagCons(fields: seq<Field>, key: string, default: bool)
    requires |fields| > 0
    ensures LastFlag(fields, key, default) ==
      LastFlag(fields[1..], key, if fields[0].key == key && fields[0].value.Bool? then fields[0].value.b else default)
    decreases |fields|
  {
    if |fields| > 1 {
      assert fields[..|fields| - 1][1..] == fields[1..][..|fields[1..]| - 1];
      LastFlagCons(fields[..|fields| - 1], key, default);
    }
  }

  /** What the rolesInfo field loop records: "all roles" mode exactly when
      some `rolesInfo` field is the integer 1, and each boolean option from
      its last occurrence. */
  lemma {:induction false} RolesInfoFieldsRecord(cfg: ServerConfig, fields: seq<Field>, st: RolesInfoState)
    requires RolesInfoFields(cfg, fields, st).Success?
    ensures var r := RolesInfoFields(cfg, fields, st).value;
      && (r.showAllRoles <==> (st.showAllRoles ||
            exists i :: 0 <= i < |fields| && fields[i] == Field("rolesInfo", Int32(1))))
      && (r.rolesInfoFound <==> st.rolesInfoFound || HasKey(fields, "rolesInfo"))
      && (r.dbFound <==> st.dbFound || (cfg.enableRolesAdminDbCheck && HasKey(fields, "$db")))
      && r.showBuiltInRoles == LastFlag(fields, "showBuiltInRoles", st.showBuiltInRoles)
      && r.showPrivileges == LastFlag(fields, "showPrivileges", st.showPrivileges)
    decreases |fields|
  {
    if |fields| > 0 {
      var next := RolesInfoField(cfg, fields[0], st).value;
      RolesInfoFieldsRecord(cfg, fields[1..], next);
      HasKeyCons(fields, "rolesInfo");
      HasKeyCons(fields, "$db");
      LastFlagCons(fields, "showBuiltInRoles", st.showBuiltInRoles);
      LastFlagCons(fields, "showPrivileges", st.showPrivileges);
      if exists i :: 0 <= i < |fields[1..]| && fields[1..][i] == Field("rolesInfo", Int32(1)) {
        var i :| 0 <= i < |fields[1..]| && fields[1..][i] == Field("rolesInfo", Int32(1));
        assert fields[i + 1] == fields[1..][i];
      }
      if exists i :: 0 <= i < |fields| && fields[i] == Field("rolesInfo", Int32(1)) {
        var i :| 0 <= i < |fields| && fields[i] == Field("rolesInfo", Int32(1));
        if i > 0 {
          assert fields[1..][i - 1] == fields[i];
        }
      }
    }
  }

  /** ParseRolesInfoSpec: accepted exactly when every field is acceptable and
      `rolesInfo` (and, with the admin-database check on, `$db`) is present.
      "All roles" mode is chosen by the integer 1; the two options default to
      false; every requested name is non-empty. */
  function ParseRolesInfoSpec(cfg: ServerConfig, fields: seq<Field>): (r: Result<RolesInfoSpec>)
    ensures r.Success? <==>
      && (forall i :: 0 <= i < |fields| ==> RolesInfoFieldAccepted(cfg, fields[i]))
      && HasKey(fields, "rolesInfo")
      && (cfg.enableRolesAdminDbCheck ==> HasKey(fields, "$db"))
    ensures r.Success? ==>
      && (r.value.showAllRoles <==> exists i :: 0 <= i < |fields| && fields[i] == Field("rolesInfo", Int32(1)))
      && r.value.showBuiltInRoles == LastFlag(fields, "showBuiltInRoles", false)
      && r.value.showPrivileges == LastFlag(fields, "showPrivileges", false)
      && r.value.roleNames == RequestedNames(fields)
      && NonEmptyNames(r.value.roleNames)
  {
    var st0 := RolesInfoState([], false, false, false, false, false);
    var st :- RolesInfoFields(cfg, fields, st0);
    RolesInfoFieldsRecord(cfg, fields, st0);
    RequestedNamesNonEmpty(fields);
    if !st.dbFound && cfg.enableRolesAdminDbCheck then Fail(BadValue, "The required $db property is missing.")
    else if !st.rolesInfoFound then Fail(BadValue, "'rolesInfo' is a required field.")
    else Success(RolesInfoSpec(st.roleNames, st.showAllRoles, st.showBuiltInRoles, st.showPrivileges))
  }
}
