# Role engine, binary heap and cursor store

This project is a Dafny model of three sequential components of a document
database built on PostgreSQL, with proofs about each of them.

1. **The role engine of the role commands.** It covers createRole, dropRole,
   rolesInfo and updateRole. It models:
   - the translation between the four native built-in role names and their
     internal names;
   - the three request parsers, which walk a BSON document once in wire order
     and stop at the first violation;
   - grant planning for a new custom role: the readWriteAnyDatabase and
     clusterAdmin pair rule, the composite admin grant, and the whitelist of
     inheritable roles;
   - the role inheritance table built from the rows of the inheritance query;
   - the depth-first walk that computes the roles a role inherits;
   - the role documents rolesInfo answers.
2. **The generic binary heap.** A fixed-capacity variant and a growable and
   shrinkable variant share sift-up and sift-down. The comparator is a
   parameter, and it is required to be a strict weak order.
3. **The gateway's cursor store.** It is a map keyed by (cursor id, user),
   with insert, take, three invalidations and the kill of a list of ids.

Every operation of the role engine is a pure function returning a
`Result`. On failure it carries the error code the server reports:
- `BadValue`, `TypeMismatch` or `CommandNotSupported` for a rejected request;
- `Internal` for a malformed query result.

The heap is modelled as a value:
- `nodes` is the live prefix of the node array, so `heapSize` is `|nodes|`;
- `heapSpace` and `maximumHeapSpace` are integers;
- sift-up and sift-down are methods with loop invariants over `seq`.

Inputs from outside the modelled code become parameters:
- the rows of the inheritance query;
- the order in which a hash table is iterated;
- the helper predicates defined in other files (`ServerConfig`).

Files, one module each:
- `wrappers.dfy`: `Result`, `Option`, error codes.
- `bson.dfy`: the BSON values the parsers read, the last value of a repeated key, the UTF-8 byte length of a string and its longest prefix within a byte budget.
- `role_names.dfy`: role names and their translation.
- `role_specs.dfy`: the request parsers.
- `role_grants.dfy`: grant planning.
- `role_graph.dfy`: the inheritance table.
- `role_closure.dfy`: the inheritance walk.
- `roles_info.dfy`: role documents and role selection.
- `role_commands.dfy`: the four commands.
- `heap.dfy`: the binary heap.
- `cursor_store.dfy`: the cursor store.

Some behaviour of the source surfaces in the proofs:
- A createRole request may name an internal role name directly, such as the
  read-only role or the composite admin role. The whitelist accepts it, because
  the whitelist checks the translated name (`RoleGrants.PlanGrantsAccepts`).
  If the composite role is named literally next to the readWriteAnyDatabase and
  clusterAdmin pair, it is granted twice (`RoleGrants.LiteralCompositeExample`).
- The corrected walk treats a role missing from the table as a dead end.
  Even so, rolesInfo still cannot describe a role that inherits, through some
  parent, a role outside the table. The document writer looks up the native
  name of every inherited role and reports an internal error for a missing one
  (`RolesInfo.MissingGrandparentDescribeFails`).
- `kill_cursors` removes a repeated id once and then reports it missing
  (`CursorStore.KillRepeatedExample`).

## Model

| member | source | states |
|---|---|---|
| RoleNames.ToInternal | pg_documentdb/src/commands/roles.c:1795-1818 | each of the four native built-ins maps to one of the mapped internal names, and every other name is its own internal name |
| RoleNames.ToNative | pg_documentdb/src/commands/roles.c:1821-1844 | each mapped internal name maps to a native built-in whose internal name it is, and every other name passes through unchanged |
| RoleNames.NativeRoundTrip | pg_documentdb/src/commands/roles.c:1795-1844 | native to internal to native is the identity on every name that is not itself a mapped internal name, so on all four built-ins and on every custom role name |
| RoleNames.InternalRoundTrip | pg_documentdb/src/commands/roles.c:1795-1844 | internal to native to internal is the identity on every name that is not a native built-in name |
| RoleSpecs.IsActionSupported | pg_documentdb/src/commands/roles.c:1878-1889 | the linear search over the action table answers true exactly for find, insert, update and remove |
| RoleSpecs.CollectActions | pg_documentdb/src/commands/roles.c:630-654 | the action loop fails on a non-string element and on a kept name that is not a supported action; otherwise it adds exactly the kept names, skipping empty ones and those of NAMEDATALEN or more UTF-8 bytes |
| RoleSpecs.ParseActionsArray | pg_documentdb/src/commands/roles.c:612-664 | accepted exactly when the value is an array of strings whose kept names are supported and at least one name is kept; the result is the set of kept names, non-empty and within the supported actions |
| RoleSpecs.WideActionSkippedExample | pg_documentdb/src/commands/roles.c:639-654 | an action of 32 copies of 'é' has fewer than NAMEDATALEN characters but 64 bytes, so it is skipped rather than rejected, and ["find", it] parses to {find} |
| RoleSpecs.ActionsCollapseExample | pg_documentdb/src/commands/roles.c:612-664 | duplicates collapse and empty names are skipped: ["find", "", "find"] parses to {find} |
| RoleSpecs.ResourceFields | pg_documentdb/src/commands/roles.c:541-591 | the resource field loop accepts only non-empty string `db` and `collection` fields; a repeated key overwrites, so when the key occurs the value kept is that of its last field, and otherwise the starting value survives |
| RoleSpecs.ParseResourceDocument | pg_documentdb/src/commands/roles.c:525-604 | accepted exactly when the value is a document made only of non-empty string `db` and `collection` fields and holding both; the pair returned is the value of the last `db` field and that of the last `collection` field |
| RoleSpecs.PrivilegeFields | pg_documentdb/src/commands/roles.c:464-485 | a privilege document's field loop accepts exactly valid `resource` and `actions` fields, and notes which of the two it met |
| RoleSpecs.PrivilegeFieldsRecord | pg_documentdb/src/commands/roles.c:464-485 | the resource and actions a privilege document ends with are the parses of its last `resource` and last `actions` field; a key it lacks leaves the starting value |
| RoleSpecs.ParsePrivilege | pg_documentdb/src/commands/roles.c:448-512 | one privilege is accepted exactly when it is a document of valid resource and actions fields holding both; the result's database and collection are the parse of the last `resource` field, its actions the parse of the last `actions` field, and they are non-empty and supported |
| RoleSpecs.PrivilegeList | pg_documentdb/src/commands/roles.c:446-514 | the element loop succeeds exactly when every element is an acceptable privilege and yields one valid privilege per element |
| RoleSpecs.PrivilegeListElements | pg_documentdb/src/commands/roles.c:446-514 | the i-th parsed privilege is the parse of the i-th element, so order is kept |
| RoleSpecs.ParsePrivilegesArray | pg_documentdb/src/commands/roles.c:434-516 | accepted exactly when the value is an array of acceptable privilege documents; one valid privilege per element |
| RoleSpecs.AddParentNames | pg_documentdb/src/commands/roles.c:408-426 | fails exactly when some element is not a string; otherwise it extends the parent set, without duplicates, by exactly the names of 1 to NAMEDATALEN-1 UTF-8 bytes |
| RoleSpecs.ParseRolesArray | pg_documentdb/src/commands/roles.c:395-427 | accepted exactly when `roles` is an array of strings; the parent set gains exactly its kept names and never holds a name twice |
| RoleSpecs.CreateRoleField | pg_documentdb/src/commands/roles.c:298-361 | one createRole field is accepted exactly when it is a valid role name, a string array of parents, a valid privileges array, `$db` equal to "admin" under the admin-database check, or a common ignored field; it updates only the state its key owns |
| RoleSpecs.CreateRoleFieldsFlags | pg_documentdb/src/commands/roles.c:296-362 | after the field loop each required-field flag is set exactly when a field with that key occurs |
| RoleSpecs.CreateRoleFieldsName | pg_documentdb/src/commands/roles.c:296-304 | after the field loop the role name is that of the last `createRole` field; without one the starting name survives |
| RoleSpecs.CreateRoleFieldsParents | pg_documentdb/src/commands/roles.c:329-333 | the parent set gathers exactly the kept names of every `roles` field |
| RoleSpecs.ParseCreateRoleSpec | pg_documentdb/src/commands/roles.c:289-387 | accepted exactly when every field is acceptable and `createRole`, `roles`, `privileges` (and `$db` under the admin-database check) are present; the name is that of the last `createRole` field and is non-empty, unreserved and not a native built-in; the parents are exactly the requested kept names |
| RoleSpecs.DropRoleFields | pg_documentdb/src/commands/roles.c:749-798 | the dropRole field loop accepts exactly droppable names, `$db` "admin" under the admin-database check, and ignored fields, and records whether each required field was met; the kept name is that of the last `dropRole` field, the starting one surviving only when there is none |
| RoleSpecs.ParseDropRoleSpec | pg_documentdb/src/commands/roles.c:744-811 | accepted exactly when every field is acceptable and `dropRole` (and `$db` under the admin-database check) is present; the name is a non-empty role that is neither built-in nor a system login role, taken from the last `dropRole` field |
| RoleSpecs.DropRoleLastWinsExample | pg_documentdb/src/commands/roles.c:749-773 | with two `dropRole` fields "a" then "b", the role to drop is "b" |
| RoleSpecs.RoleDocFields | pg_documentdb/src/commands/roles.c:1030-1068 | a role document's fields must be a string `role` or `db` equal to "admin"; presence of each is recorded and the role kept comes from the document |
| RoleSpecs.RoleDocFieldsRecord | pg_documentdb/src/commands/roles.c:1030-1068 | the field loop ends with the string of the document's last `role` field and, once a `db` field got through, the admin database |
| RoleSpecs.ParseRoleDocument | pg_documentdb/src/commands/roles.c:1020-1081 | accepted exactly when every field is acceptable and both `role` and `db` are present; the names then grow by exactly the last `role` value when it is non-empty, and by nothing otherwise |
| RoleSpecs.ParseRoleDefinition | pg_documentdb/src/commands/roles.c:1088-1112 | a string is appended when non-empty and skipped when empty, a document appends the names the role-document parser gives it, and anything else is rejected |
| RoleSpecs.RoleDefinitionList | pg_documentdb/src/commands/roles.c:936-945 | the array form succeeds exactly when every element is an acceptable role definition, and then appends the names of each element in array order |
| RoleSpecs.RolesInfoValue | pg_documentdb/src/commands/roles.c:919-950 | the `rolesInfo` value is accepted exactly when it is the integer 1 (all roles), an array of role definitions or one role definition; the names grow by exactly those the value asks for |
| RoleSpecs.RolesInfoFieldsRecord | pg_documentdb/src/commands/roles.c:915-1000 | after the field loop, all-roles mode holds exactly when some `rolesInfo` field is the integer 1, and each boolean option is the value of its last occurrence |
| RoleSpecs.ParseRolesInfoSpec | pg_documentdb/src/commands/roles.c:904-1013 | accepted exactly when every field is acceptable and `rolesInfo` (and `$db` under the admin-database check) is present; the options default to false; the requested names are exactly those of every `rolesInfo` field in wire order, none of them empty |
| RoleSpecs.RequestedNamesNonEmpty | pg_documentdb/src/commands/roles.c:1075-1099 | empty strings and empty document roles are never requested |
| RoleSpecs.RolesInfoNamesExample | pg_documentdb/src/commands/roles.c:936-949 | `rolesInfo: ["a", {role: "b", db: "admin"}]` asks for a and then b |
| RoleGrants.GrantRoleInheritance | pg_documentdb/src/commands/roles.c:1851-1870 | only the read-only role and the composite admin role may be inherited; anything else is a BadValue error |
| RoleGrants.GrantEach | pg_documentdb/src/commands/roles.c:1753-1771 | the second grant loop succeeds exactly when every parent it does not skip translates to an inheritable role, and grants exactly those translations |
| RoleGrants.PlanGrants | pg_documentdb/src/commands/roles.c:1711-1772 | grant planning fails when exactly one of readWriteAnyDatabase and clusterAdmin is requested; otherwise it grants the composite role first when both are requested, followed by the translations of the parents not covered by it, all inheritable |
| RoleGrants.PlanGrantsAccepts | pg_documentdb/src/commands/roles.c:1711-1772 | the plan succeeds exactly when the pair rule holds and every requested name is an accepted parent (read-only or composite by any name, the pair only together) |
| RoleGrants.PlanGrantsNativeRequests | pg_documentdb/src/commands/roles.c:1711-1772 | for requests of native and custom names only, the plan succeeds exactly when the pair rule holds and nothing outside readAnyDatabase, readWriteAnyDatabase and clusterAdmin is requested; root and custom parents are refused |
| RoleGrants.CompositeGrantedOnce | pg_documentdb/src/commands/roles.c:1742-1771 | with both halves requested, the composite role is granted exactly once and neither half individually |
| RoleGrants.NoPairNoComposite | pg_documentdb/src/commands/roles.c:1753-1771 | without the pair the grants are exactly the translated requests, and the composite role appears only when named literally |
| RoleGrants.PlanGrantsComposite | pg_documentdb/src/commands/roles.c:1711-1772 | the composite role is granted exactly when the pair is requested or it is named literally |
| RoleGrants.PlanGrantsOrderIndependent | pg_documentdb/src/commands/roles.c:1711-1772 | the outcome and the set of granted roles do not depend on the order in which the hash set of parents is walked |
| RoleGrants.PairExample | pg_documentdb/src/commands/roles.c:1733-1771 | requesting readWriteAnyDatabase and clusterAdmin plans exactly one grant of the composite role |
| RoleGrants.HalfPairExample | pg_documentdb/src/commands/roles.c:1718-1740 | clusterAdmin alone breaks the pair rule |
| RoleGrants.LiteralCompositeExample | pg_documentdb/src/commands/roles.c:1742-1771 | naming the composite role literally next to the pair grants it twice |
| RoleGraph.ParseRoleInheritanceResult | pg_documentdb/src/commands/roles.c:1622-1677 | a row is accepted exactly when every field is a string `child_role` or an array of strings `parent_roles`; anything else is an internal error |
| RoleGraph.ParseRoleInheritanceResultRecord | pg_documentdb/src/commands/roles.c:1622-1677 | the last `child_role` wins, and the parents appended are the string elements of every `parent_roles` array, in field order and array order, repeats kept |
| RoleGraph.ReadRow | pg_documentdb/src/commands/roles.c:1498-1524 | a NULL row, a malformed row and a row without a child are internal errors; otherwise the child is the last `child_role` and the parents are the row's listed parents in order, repeats kept |
| RoleGraph.ExpandParents | pg_documentdb/src/commands/roles.c:1566-1588 | the composite role never remains in a parent list; the names are the list's with the composite traded for both halves; each occurrence adds one entry; a list without it is unchanged |
| RoleGraph.ExpandParentsAppend | pg_documentdb/src/commands/roles.c:1568-1588 | expansion distributes over concatenation, since each parent is handled on its own, in order |
| RoleGraph.ExpandParentsInPlace | pg_documentdb/src/commands/roles.c:1576-1587 | a composite between two stretches of a list becomes readWrite then clusterAdmin at the same place; any other name stays where it is |
| RoleGraph.ExpandParentsExample | pg_documentdb/src/commands/roles.c:1576-1587 | [composite, x] expands to [readWrite, clusterAdmin, x] |
| RoleGraph.InsertRow | pg_documentdb/src/commands/roles.c:1526-1590 | a skipped child (system login, composite or legacy admin role) leaves the table alone; a repeated kept child is an internal error; otherwise exactly its entry is added |
| RoleGraph.InsertRowsKeys | pg_documentdb/src/commands/roles.c:1498-1591 | the row loop adds exactly the kept children as keys and leaves the existing entries alone |
| RoleGraph.InsertRowsContents | pg_documentdb/src/commands/roles.c:1498-1591 | every kept row's entry (native name, expanded parents) ends up in the table |
| RoleGraph.AddSynthesizedEntries | pg_documentdb/src/commands/roles.c:1593-1611 | the two halves of the composite role are always in the table; when synthesized they have their native names and no parents |
| RoleGraph.SynthesizedTable | pg_documentdb/src/commands/roles.c:1498-1611 | the finished table is well formed and holds exactly the kept children and the two halves, each kept child with its row's parents expanded |
| RoleGraph.BuildRoleInheritanceTable | pg_documentdb/src/commands/roles.c:1441-1614 | a NULL result or any bad row is an internal error; otherwise the table is well formed, has exactly the kept children and the two halves as keys, and gives each kept child its listed parents with the composite role expanded |
| RoleClosure.Collect | pg_documentdb/src/commands/roles.c:1181-1221 | the walk only adds to its set, adds only names that are parents somewhere, contains every parent of the start, and is closed under parents for every name it added |
| RoleClosure.CollectSound | pg_documentdb/src/commands/roles.c:1181-1221 | every name the walk adds is reachable from the start by parent edges |
| RoleClosure.LookupAllInheritedRoles | pg_documentdb/src/commands/roles.c:1233-1256 | on every graph, cycles included, the inherited roles are exactly the names reachable by one or more parent edges |
| RoleClosure.AcyclicExcludesStart | pg_documentdb/src/commands/roles.c:1233-1256 | on an acyclic graph a role does not inherit itself |
| RoleClosure.ClosureOrderIndependent | pg_documentdb/src/commands/roles.c:1181-1256 | the closure depends only on which parents each role has, not on their order or repetition |
| RoleClosure.DiamondExample | pg_documentdb/src/commands/roles.c:1224-1256 | for the diamond A→{B,C}, B→D, C→D the inherited roles of A are exactly {B, C, D} |
| RoleClosure.LookupAllAsWritten | pg_documentdb/src/commands/roles.c:1181-1256 | the walk as written, which reads the entry of a missing name, has a result only when the start is in the table, and then only reachable names |
| RoleClosure.AsWrittenVersusIntended | pg_documentdb/src/commands/roles.c:1181-1221 | the walk as written agrees with the intended walk exactly when every name it visits is in the table, and has no result otherwise |
| RoleClosure.AsWrittenFailsOnMissingRole | pg_documentdb/src/commands/roles.c:1181-1256 | the walk as written has a result exactly when the start and every role it inherits are in the table, and then equals the intended closure |
| RoleClosure.MissingGrandparentExample | pg_documentdb/src/commands/roles.c:1193-1201 | R→P→Q with Q outside the table: the intended walk yields {P, Q}, the walk as written dereferences the missing entry |
| RolesInfo.DirectParentNames | pg_documentdb/src/commands/roles.c:1265-1291 | the direct parents are written as native names, in order; a parent missing from the table is an internal error |
| RolesInfo.DescribeRole | pg_documentdb/src/commands/roles.c:1302-1415 | a role document is written exactly when the role and every role it inherits are in the table; it carries id "admin.<role>", db "admin", the built-in flag, the native names of the direct parents in order, the native names of every inherited role, and, with privileges shown, the role and all it inherits as privilege sources |
| RolesInfo.DescribeWellFormed | pg_documentdb/src/commands/roles.c:1302-1415 | on a built table the document shows the native names of the role, its parents and everything it inherits, and marks the role built-in exactly when it is a mapped internal role or carries a built-in name |
| RolesInfo.MissingGrandparentDescribeFails | pg_documentdb/src/commands/roles.c:1346-1366 | a role inheriting a role outside the table cannot be described |
| RolesInfo.ProcessAll | pg_documentdb/src/commands/roles.c:1120-1143 | the full listing succeeds exactly when every selected role visited can be described; it then holds exactly their documents, one per selected visit |
| RolesInfo.ProcessAllRecords | pg_documentdb/src/commands/roles.c:1127-1142 | the i-th document describes the i-th selected role in visit order |
| RolesInfo.ProcessAllOnePerRole | pg_documentdb/src/commands/roles.c:1127-1142 | over an iteration that visits each role once there are exactly as many documents as selected roles in the table |
| RolesInfo.ProcessAllTable | pg_documentdb/src/commands/roles.c:1120-1143 | over an enumeration of the whole table the full listing succeeds exactly when every selected role can be described, and then holds exactly their documents |
| RolesInfo.ProcessAllOrderIndependent | pg_documentdb/src/commands/roles.c:1120-1143 | the hash iteration order changes neither the outcome nor the set of documents |
| RolesInfo.ProcessAllHidesBuiltIns | pg_documentdb/src/commands/roles.c:1127-1142 | without showBuiltInRoles no document is marked built-in, and every role that is not a native built-in is described |
| RolesInfo.TableLookup | pg_documentdb/src/commands/roles.c:1443-1452 | the role table's string lookup: a key finds itself, a found key is in the table, and a key found for another name is that name's first 63 bytes |
| RolesInfo.TableLookupShortName | pg_documentdb/src/commands/roles.c:1443-1452 | a name of at most 63 bytes is found exactly when it is a key |
| RolesInfo.TableLookupPrefix | pg_documentdb/src/commands/roles.c:1160-1166 | a longer name that is not a key finds the 63-byte key it starts with |
| RolesInfo.ProcessSpecific | pg_documentdb/src/commands/roles.c:1150-1173 | the named listing succeeds exactly when every role the requested names find can be described, with one document per found role |
| RolesInfo.ProcessSpecificRecords | pg_documentdb/src/commands/roles.c:1150-1173 | the documents describe the found names in request order |
| RolesInfo.ProcessSpecificEchoesName | pg_documentdb/src/commands/roles.c:1150-1173 | a requested native or custom name found in the table is echoed by some document |
| RolesInfo.ProcessSpecificSkipsUnknown | pg_documentdb/src/commands/roles.c:1155-1172 | names the table lookup does not find, by exact key or by 63-byte prefix, are skipped without error |
| RolesInfo.ProcessSpecificLongNameExample | pg_documentdb/src/commands/roles.c:1150-1173 | a requested name of 70 'a's finds and describes the role named by 63 'a's |
| RoleCommands.CreateRole | pg_documentdb/src/commands/roles.c:208-282 | refused unless role management is enabled; succeeds exactly when the request parses and the grant plan succeeds, and then creates the role and grants it each planned parent, all inheritable, in plan order |
| RoleCommands.CreateRoleParents | pg_documentdb/src/commands/roles.c:245-268 | a created role directly inherits only the read-only or composite role, and the composite one exactly when the pair was requested or it was named literally |
| RoleCommands.DropRole | pg_documentdb/src/commands/roles.c:684-737 | refused unless role management is enabled; succeeds exactly when the request parses, and drops the droppable role named by the request's last `dropRole` field |
| RoleCommands.UpdateRole | pg_documentdb/src/commands/roles.c:672-677 | always refused as not supported |
| RoleCommands.IterationOrder | pg_documentdb/src/commands/roles.c:1127-1128 | the hash iteration visits every role of the table exactly once |
| RoleCommands.RolesInfoCommand | pg_documentdb/src/commands/roles.c:818-897 | refused unless role management is enabled; a parse error is returned as is; a bad query result is an internal error; otherwise all-roles mode is the full listing over some iteration that visits every role once, and named mode describes the found roles among exactly the names the request asks for |
| Heap.Swap | pg_documentdb/src/utils/heap_utils.c:262-268 | exchanges two nodes, leaves all others and the multiset unchanged |
| Heap.RootIsBest | pg_documentdb/include/utils/heap_utils.h:24-29 | in a heap-ordered array no node is strictly preferred to the root |
| Heap.SiftUp | pg_documentdb/src/utils/heap_utils.c:240-256 | sift-up adds exactly the new value to the multiset, grows the heap by one and restores heap order |
| Heap.Heapify | pg_documentdb/src/utils/heap_utils.c:274-297 | sift-down keeps the multiset and, when both subtrees of the index are ordered, restores heap order for the whole array |
| Heap.RemoveRoot | pg_documentdb/src/utils/heap_utils.c:62-80 | removing the root returns the old root, removes exactly it from the multiset, keeps heap order, and leaves nothing strictly preferred to it |
| Heap.AllocateHeap | pg_documentdb/src/utils/heap_utils.c:32-38 | a fixed heap starts empty with heap space and maximum space both equal to the capacity |
| Heap.PushToHeap | pg_documentdb/src/utils/heap_utils.c:44-56 | a push fails exactly when the heap is full; otherwise the heap grows by one, gains exactly the value and stays valid |
| Heap.PopFromHeap | pg_documentdb/src/utils/heap_utils.c:62-80 | a pop returns the old root, nothing remaining is strictly preferred to it, and exactly it leaves the multiset |
| Heap.TopHeap | pg_documentdb/src/utils/heap_utils.c:86-92 | the top is a stored node that no node is strictly preferred to |
| Heap.TopIsBest | pg_documentdb/src/utils/heap_utils.c:86-92 | no stored node is strictly preferred to the root of a heap-ordered array |
| Heap.AllocateDynamicHeap | pg_documentdb/src/utils/heap_utils.c:121-129 | a dynamic heap starts empty with the initial capacity as heap space and the maximum capacity as ceiling |
| Heap.GrownSpace | pg_documentdb/src/utils/heap_utils.c:155-158 | the space grows only when the heap is full, and then to twice its size capped at the ceiling |
| Heap.ZeroSpaceNeverGrows | pg_documentdb/src/utils/heap_utils.c:155-158 | a zero heap space doubles to zero, so a dynamic heap needs a capacity of at least one |
| Heap.PushToDynamicHeap | pg_documentdb/src/utils/heap_utils.c:143-165 | a push fails exactly when the heap holds the maximum; otherwise the space grows as needed and the heap gains exactly the value |
| Heap.ShrunkSpace | pg_documentdb/src/utils/heap_utils.c:191-204 | the space shrinks exactly when it exceeds one and the heap uses less than half of it, never below one or below the heap size |
| Heap.PopFromDynamicHeap | pg_documentdb/src/utils/heap_utils.c:173-207 | a pop returns the old root and removes exactly it; the space shrinks as above, and never on a pop from one node |
| CursorStore.AddCursor | pg_documentdb_gw/src/context/cursor.rs:73-75 | the key maps to the new entry, overwriting any old one; other keys are unchanged |
| CursorStore.GetCursor | pg_documentdb_gw/src/context/cursor.rs:77-79 | returns the entry exactly when present and removes only that key |
| CursorStore.GetCursorTwice | pg_documentdb_gw/src/context/cursor.rs:77-79 | a second take of the same key finds nothing |
| CursorStore.AddThenGet | pg_documentdb_gw/src/context/cursor.rs:73-79 | taking what was just added returns it and restores the store without that key |
| CursorStore.GetCursorIsolatesUsers | pg_documentdb_gw/src/context/cursor.rs:36-40 | the same cursor id under another user is an independent entry |
| CursorStore.InvalidateByCollection | pg_documentdb_gw/src/context/cursor.rs:81-84 | removes exactly the entries whose database and collection both match |
| CursorStore.InvalidateByDatabase | pg_documentdb_gw/src/context/cursor.rs:86-88 | removes exactly the entries of that database |
| CursorStore.InvalidateBySession | pg_documentdb_gw/src/context/cursor.rs:90-93 | removes exactly the entries of that session; entries without a session stay |
| CursorStore.InvalidationIdempotent | pg_documentdb_gw/src/context/cursor.rs:81-93 | each invalidation applied twice is the same as once |
| CursorStore.DatabaseCoversCollections | pg_documentdb_gw/src/context/cursor.rs:81-88 | invalidating a database subsumes invalidating any of its collections |
| CursorStore.KillCursors | pg_documentdb_gw/src/context/cursor.rs:95-107 | the loop yields the removed and the missing ids in input order and the store without the user's listed cursors |
| CursorStore.SelectPartition | pg_documentdb_gw/src/context/cursor.rs:95-107 | every input id lands in exactly one of removed and missing |
| CursorStore.KillCursorsRemoved | pg_documentdb_gw/src/context/cursor.rs:95-107 | the removed ids are exactly the listed ids whose key was in the store, each reported once |
| CursorStore.KillCursorsAgain | pg_documentdb_gw/src/context/cursor.rs:95-107 | killing the same list again removes nothing and reports every id missing |
| CursorStore.KillRepeatedExample | pg_documentdb_gw/src/context/cursor.rs:95-107 | a repeated id is removed once and then reported missing |

## Left out

- Coordinator forwarding (pg_documentdb/src/commands/roles.c:220-246, 693-719, 827-853) is a remote call to another node; only the coordinator path is modelled.
- The SQL the commands issue (CREATE ROLE, GRANT, DROP ROLE, the inheritance query) is store I/O. createRole and dropRole return the list of catalog statements, and the query rows are an input.
- The BSON writers and the privilege documents of rolesInfo are left out. The privilege writers are defined in other files; a role document records which roles' privileges would be consolidated.
- The helpers defined in other files are left uninterpreted predicates in `ServerConfig`. They are the reserved-prefix check, the common ignored fields, the built-in role check and the system login role check. The internal role names are stand-in strings that are proved distinct.
- Memory management (pfree, hash_destroy, FreeHeap) and feature-usage telemetry have no observable effect to state.
- RolesInfo.TableLookup: the table's keys are taken to be at most 63 bytes long, as PostgreSQL role names are. The server would also cut a longer key to 63 bytes when inserting it; the model keeps such a key whole.
- BSON strings are sequences of Unicode characters, and a name's length is the byte length of its UTF-8 encoding. Invalid UTF-8 and embedded NUL bytes are not modelled.
- RoleGrants.PlanGrants: the server's hash set of parents is modelled as a duplicate-free list in insertion order. The GRANT order is therefore one possible hash order; PlanGrantsOrderIndependent shows nothing else depends on it.
- RolesInfo.DescribeRole: allInheritedRoles is a set. The server writes it in the order of an internal hash set, which is left unspecified.
- RolesInfo.ProcessAll: the order of the hash iteration over the table is a parameter. IterationOrder only promises that it visits every role once.
- RoleCommands.CreateRole: the parsed privileges are validated but not stored, exactly as in the command.
- Heap.PushToDynamicHeap: requires a heap space of at least one. From zero the doubling never makes room (ZeroSpaceNeverGrows), and the server would write past the array.
- Heap.GrownSpace: the 64-bit overflow of doubling the space is not modelled; integers are unbounded.
- Heap.AllocateHeap: a negative capacity is not rejected, as in the source, but only a non-negative one yields a valid heap.
- Asserts in the heap source (non-empty heap on pop, heap type on push and pop) are preconditions of the modelled operations.
- The cursor reaper task and its timeouts (pg_documentdb_gw/src/context/cursor.rs:46-62) and the concurrency of the shared map involve clocks and threads. The store is modelled as a sequential map.
- pg_documentdb_gw/src/requests/request_tracker.rs keeps timing counters fed by the wall clock. pg_documentdb_gw/src/processor/roles.rs forwards requests unchanged. Neither is modelled.
- The gateway tests run against a live server; they are not modelled.

## Findings

| source | as written | input that shows it | evidently intended | confidence | as-written member | corrected member |
|---|---|---|---|---|---|---|
| pg_documentdb/src/commands/roles.c:1193-1201 | when a role is missing from the inheritance table, the walk logs a warning and then reads the parent list of the missing (NULL) entry | a table where R inherits P, P inherits Q, and Q is not a key (for example a legacy admin role or a login role the table leaves out): walking R reaches Q | the comment says such roles are skipped: a missing role is a dead end with no parents, and R inherits {P, Q} | high (not executed) | RoleClosure.LookupAllAsWritten | RoleClosure.LookupAllInheritedRoles |
