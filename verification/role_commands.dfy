/** The four role commands as the metadata coordinator runs them:
    createRole, dropRole, rolesInfo and updateRole. A command either fails
    with an error, in which case the transaction aborts and nothing it did
    is kept, or succeeds with the catalog statements it issued (createRole,
    dropRole) or the role documents it answers (rolesInfo). */
module RoleCommands {
  import opened Wrappers
  import opened Bson
  import opened RoleNames
  import opened RoleSpecs
  import opened RoleGrants
  import opened RoleGraph
  import opened RolesInfo

  /** A catalog statement: CREATE ROLE, GRANT parent TO child, DROP ROLE. */
  datatype StoreOp =
    | CreateRoleOp(name: string)
    | GrantRoleOp(parent: string, child: string)
    | DropRoleOp(name: string)

  /** One GRANT per planned parent, in plan order. */
  function GrantOps(parents: seq<string>, child: string): (r: seq<StoreOp>)
    ensures |r| == |parents|
    ensures forall i :: 0 <= i < |r| ==> r[i] == GrantRoleOp(parents[i], child)
  {
    if |parents| == 0 then []
    else [GrantRoleOp(parents[0], child)] + GrantOps(parents[1..], child)
  }

  /** create_role: refused unless role management is enabled; otherwise the
      request is parsed, the role is created and its parents are granted.
      The parsed privileges are validated but not stored. */
  function CreateRole(cfg: ServerConfig, fields: seq<Field>): (r: Result<seq<StoreOp>>)
    ensures !cfg.enableRoleCrud ==> r.Failure? && r.error.code == CommandNotSupported
    ensures r.Success? <==>
      cfg.enableRoleCrud && ParseCreateRoleSpec(cfg, fields).Success? &&
      PlanGrants(ParseCreateRoleSpec(cfg, fields).value.parentRoles).Success?
    ensures r.Success? ==>
      var spec := ParseCreateRoleSpec(cfg, fields).value;
      && |r.value| >= 1
      && r.value[0] == CreateRoleOp(spec.roleName)
      && ValidCustomRoleName(cfg, spec.roleName)
      && (forall i :: 1 <= i < |r.value| ==>
            r.value[i].GrantRoleOp? && r.value[i].child == spec.roleName &&
            r.value[i].parent in InheritableRoles)
      && |r.value| == 1 + |PlanGrants(spec.parentRoles).value|
      && (forall i :: 1 <= i < |r.value| ==> r.value[i].parent == PlanGrants(spec.parentRoles).value[i - 1])
  {
    if !cfg.enableRoleCrud then Fail(CommandNotSupported, "The CreateRole command is currently unsupported.")
    else
      var spec :- ParseCreateRoleSpec(cfg, fields);
      var grants :- PlanGrants(spec.parentRoles);
      CreateOpsShape(spec.roleName, grants);
      Success([CreateRoleOp(spec.roleName)] + GrantOps(grants, spec.roleName))
  }

  /** The statements of a role creation: the role, then one grant of each
      planned parent to it, in plan order. */
  lemma CreateOpsShape(name: string, plan: seq<string>)
    requires Elements(plan) <= InheritableRoles
    ensures var ops := [CreateRoleOp(name)] + GrantOps(plan, name);
      && |ops| == 1 + |plan|
      && ops[0] == CreateRoleOp(name)
      && (forall i :: 1 <= i < |ops| ==>
            ops[i].GrantRoleOp? && ops[i].child == name && ops[i].parent in InheritableRoles)
      && (forall i :: 1 <= i < |ops| ==> ops[i].parent == plan[i - 1])
  {
  }

  /** A created role inherits, directly, only read-only access or the
      composite admin role, and the composite role exactly when both halves
      of the pair were requested or it was named literally. */
  lemma CreateRoleParents(cfg: ServerConfig, fields: seq<Field>)
    requires CreateRole(cfg, fields).Success?
    ensures var ops := CreateRole(cfg, fields).value;
      var spec := ParseCreateRoleSpec(cfg, fields).value;
      && (forall i :: 1 <= i < |ops| ==> ops[i].parent == ApiReadOnlyRole || ops[i].parent == ApiAdminRoleV2)
      && ((exists i :: 1 <= i < |ops| && ops[i].parent == ApiAdminRoleV2) <==>
            PairRequested(Elements(spec.parentRoles)) || ApiAdminRoleV2 in spec.parentRoles)
  {
    var spec := ParseCreateRoleSpec(cfg, fields).value;
    GrantedParents(CreateRole(cfg, fields).value, PlanGrants(spec.parentRoles).value, spec.parentRoles);
  }

  lemma GrantedParents(ops: seq<StoreOp>, plan: seq<string>, parents: seq<string>)
    requires PlanGrants(parents) == Success(plan)
    requires |ops| == 1 + |plan|
    requires forall i :: 1 <= i < |ops| ==> ops[i].GrantRoleOp? && ops[i].parent == plan[i - 1]
    ensures forall i :: 1 <= i < |ops| ==> ops[i].parent == ApiReadOnlyRole || ops[i].parent == ApiAdminRoleV2
    ensures (exists i :: 1 <= i < |ops| && ops[i].parent == ApiAdminRoleV2) <==>
      PairRequested(Elements(parents)) || ApiAdminRoleV2 in parents
  {
    PlanGrantsComposite(parents);
    assert forall j :: 0 <= j < |plan| ==> plan[j] in Elements(plan);
    if ApiAdminRoleV2 in plan {
      var j :| 0 <= j < |plan| && plan[j] == ApiAdminRoleV2;
      assert ops[j + 1].parent == ApiAdminRoleV2;
    }
  }

  /** drop_role: refused unless role management is enabled; otherwise the
      role named by the last `dropRole` field is dropped. */
  function DropRole(cfg: ServerConfig, fields: seq<Field>): (r: Result<seq<StoreOp>>)
    ensures !cfg.enableRoleCrud ==> r.Failure? && r.error.code == CommandNotSupported
    ensures r.Success? <==> cfg.enableRoleCrud && ParseDropRoleSpec(cfg, fields).Success?
    ensures r.Success? ==>
      exists name :: r.value == [DropRoleOp(name)] && DroppableRoleName(cfg, name) &&
        LastValue(fields, "dropRole") == Some(Str(name))
  {
    if !cfg.enableRoleCrud then Fail(CommandNotSupported, "DropRole command is not supported.")
    else
      var spec :- ParseDropRoleSpec(cfg, fields);
      Success([DropRoleOp(spec.roleName)])
  }

  /** update_role: not supported, whatever the request. */
  function UpdateRole(fields: seq<Field>): (r: Result<seq<StoreOp>>)
    ensures r.Failure? && r.error.code == CommandNotSupported
  {
    Fail(CommandNotSupported, "UpdateRole command is not supported in preview.")
  }

  /** The order in which a hash iteration visits the roles of the table: some
      enumeration of the keys, each once, left unspecified. */
  method IterationOrder(g: Graph) returns (order: seq<string>)
    ensures Elements(order) == g.Keys
    ensures NoDuplicates(order)
  {
    order := [];
    var left := g.Keys;
    while left != {}
      invariant left <= g.Keys
      invariant Elements(order) == g.Keys - left
      invariant NoDuplicates(order)
      decreases |left|
    {
      var k :| k in left;
      NoDuplicatesCons(k, []);
      assert forall i :: 0 <= i < |order| ==> order[i] in Elements(order);
      assert NoDuplicates(order + [k]) by {
        assert forall i :: 0 <= i < |order| ==> (order + [k])[i] == order[i];
      }
      assert Elements(order + [k]) == Elements(order) + {k};
      order := order + [k];
      left := left - {k};
    }
  }

  /** roles_info: refused unless role management is enabled; otherwise the
      request is parsed, the inheritance table is built from the query
      result once, and either every selected role of the table or every
      requested role found in it is described. */
  method RolesInfoCommand(cfg: ServerConfig, fields: seq<Field>, queryResult: Option<seq<Option<seq<Field>>>>)
    returns (r: Result<seq<RoleRecord>>)
    ensures !cfg.enableRoleCrud ==> r.Failure? && r.error.code == CommandNotSupported
    ensures cfg.enableRoleCrud && ParseRolesInfoSpec(cfg, fields).Failure? ==>
      r == ParseRolesInfoSpec(cfg, fields).PropagateFailure()
    ensures (cfg.enableRoleCrud && ParseRolesInfoSpec(cfg, fields).Success? &&
             BuildRoleInheritanceTable(cfg, queryResult).Failure?) ==> r.Failure? && r.error.code == Internal
    ensures (cfg.enableRoleCrud && ParseRolesInfoSpec(cfg, fields).Success? &&
             BuildRoleInheritanceTable(cfg, queryResult).Success?) ==>
        var spec := ParseRolesInfoSpec(cfg, fields).value;
        var g := BuildRoleInheritanceTable(cfg, queryResult).value;
        && (spec.showAllRoles ==>
              && (exists order :: Elements(order) == g.Keys && NoDuplicates(order) && r == ProcessAll(g, spec, order))
              && (r.Success? <==> forall k :: k in g && Selected(g, spec, k) ==> Describable(g, k))
              && (r.Success? ==> forall rec :: rec in r.value <==>
                    exists k :: k in g && Selected(g, spec, k) && DescribeRole(g, k, spec.showPrivileges) == Success(rec)))
        && (!spec.showAllRoles ==> r == ProcessSpecific(g, RequestedNames(fields), spec.showPrivileges))
  {
    if !cfg.enableRoleCrud {
      return Fail(CommandNotSupported, "RolesInfo command is not supported.");
    }
    var parsed := ParseRolesInfoSpec(cfg, fields);
    if parsed.Failure? {
      return parsed.PropagateFailure();
    }
    var spec := parsed.value;
    var built := BuildRoleInheritanceTable(cfg, queryResult);
    if built.Failure? {
      return built.PropagateFailure();
    }
    var g := built.value;
    if spec.showAllRoles {
      var order := IterationOrder(g);
      r := ProcessAll(g, spec, order);
      ProcessAllTable(g, spec, order);
    } else {
      r := ProcessSpecific(g, spec.roleNames, spec.showPrivileges);
    }
  }
}
