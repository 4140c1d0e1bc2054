/** Role identifiers: the four native built-in role names callers use, the
    internal names under which the server stores them, the translation
    between the two, and the server-side switches and helper predicates that
    the role commands consult. */
module RoleNames {

  /** Length limit of a PostgreSQL identifier (NAMEDATALEN); a name must be
      strictly shorter to be kept. */
  const NAMEDATALEN: nat := 64

  // Native built-in role names, as callers write them.
  const ReadAnyDatabase: string := "readAnyDatabase"
  const ReadWriteAnyDatabase: string := "readWriteAnyDatabase"
  const ClusterAdmin: string := "clusterAdmin"
  const Root: string := "root"

  // Internal role names. Their real spellings are defined outside the
  // modelled file; these stand-ins only need to be pairwise distinct and
  // distinct from the native names (see InternalNamesDistinct).
  const ApiReadOnlyRole: string := "documentdb_readonly_role"
  const ApiReadWriteRole: string := "documentdb_readwrite_role"
  const ApiClusterAdminRole: string := "documentdb_cluster_admin_role"
  const ApiRootInternalRole: string := "documentdb_root_role"
  const ApiAdminRole: string := "documentdb_admin_role"
  const ApiAdminRoleV2: string := "documentdb_admin_role_v2"

  const NativeBuiltInRoles: set<string> :=
    {ReadAnyDatabase, ReadWriteAnyDatabase, ClusterAdmin, Root}

  /** Internal names that the name mapping translates. */
  const MappedInternalRoles: set<string> :=
    {ApiReadOnlyRole, ApiReadWriteRole, ApiClusterAdminRole, ApiRootInternalRole}

  /** The only internal roles a custom role may inherit from directly. */
  const InheritableRoles: set<string> := {ApiReadOnlyRole, ApiAdminRoleV2}

  /** IS_NATIVE_BUILTIN_ROLE */
  predicate IsNativeBuiltInRole(name: string) {
    name == ReadAnyDatabase || name == ReadWriteAnyDatabase ||
    name == ClusterAdmin || name == Root
  }

  /** IS_INHERITABLE_ROLE */
  predicate IsInheritableRole(internalName: string) {
    internalName == ApiReadOnlyRole || internalName == ApiAdminRoleV2
  }

  /** GetInternalRoleName: the four built-ins map to their internal names,
      every other name is its own internal name. */
  function ToInternal(nativeName: string): (r: string)
    ensures nativeName in NativeBuiltInRoles ==> r in MappedInternalRoles
    ensures nativeName !in NativeBuiltInRoles ==> r == nativeName
  {
    if nativeName == ClusterAdmin then ApiClusterAdminRole
    else if nativeName == ReadAnyDatabase then ApiReadOnlyRole
    else if nativeName == ReadWriteAnyDatabase then ApiReadWriteRole
    else if nativeName == Root then ApiRootInternalRole
    else nativeName
  }

  /** GetNativeRoleName: the inverse translation, with the same identity
      fallback. */
  function ToNative(internalName: string): (r: string)
    ensures internalName in MappedInternalRoles ==> r in NativeBuiltInRoles && ToInternal(r) == internalName
    ensures internalName !in MappedInternalRoles ==> r == internalName
  {
    if internalName == ApiClusterAdminRole then ClusterAdmin
    else if internalName == ApiReadOnlyRole then ReadAnyDatabase
    else if internalName == ApiReadWriteRole then ReadWriteAnyDatabase
    else if internalName == ApiRootInternalRole then Root
    else internalName
  }

  lemma InternalNamesDistinct()
    ensures |MappedInternalRoles + {ApiAdminRole, ApiAdminRoleV2}| == 6
    ensures (MappedInternalRoles + {ApiAdminRole, ApiAdminRoleV2}) !! NativeBuiltInRoles
  {
  }

  /** Native -> internal -> native is the identity on every name that is not
      itself one of the mapped internal names, in particular on all four
      built-ins and on every custom role name. */
  lemma NativeRoundTrip(name: string)
    requires name !in MappedInternalRoles
    ensures ToNative(ToInternal(name)) == name
  {
  }

  /** Internal -> native -> internal is the identity on every name that is
      not itself a native built-in name. */
  lemma InternalRoundTrip(name: string)
    requires name !in NativeBuiltInRoles
    ensures ToInternal(ToNative(name)) == name
  {
  }

  /** The server-side context of a role command: the two feature switches
      and the helpers the role commands call but that live in other files.
      Those helpers are left uninterpreted: any predicate may be supplied. */
  datatype ServerConfig = ServerConfig(
    enableRoleCrud: bool,              // EnableRoleCrud
    enableRolesAdminDbCheck: bool,     // EnableRolesAdminDBCheck
    isReservedRoleName: string -> bool,    // ContainsReservedPgRoleNamePrefix
    isCommonIgnoredField: string -> bool,  // IsCommonSpecIgnoredField
    isBuiltInRole: string -> bool,         // IS_BUILTIN_ROLE
    isSystemLoginRole: string -> bool)     // IS_SYSTEM_LOGIN_ROLE
}
