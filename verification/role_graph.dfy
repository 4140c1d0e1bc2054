/** The in-memory role inheritance graph of rolesInfo: the rows of the
    inheritance query (one document per child role with its direct parent
    roles), their parsing, and the table built from them. The query itself
    is store I/O; its result is the input here, `None` standing for a NULL
    result and a `None` row for a NULL array element. */
module RoleGraph {
  import opened Wrappers
  import opened Bson
  import opened RoleNames
  import opened RoleSpecs

  /** One node of the graph: its internal name (the key), the native name
      shown to callers, and its direct parents by internal name. */
  datatype RoleEntry = RoleEntry(internalName: string, nativeName: string, parents: seq<string>)

  type Graph = map<string, RoleEntry>

  /** What ParseRoleInheritanceResult extracts from one query row. */
  datatype InheritanceRow = InheritanceRow(child: Option<string>, parents: seq<string>)

  // ---------------------------------------------------------------------
  // ParseRoleInheritanceResult
  // ---------------------------------------------------------------------

  /** A row field the parser accepts: a string `child_role` or an array of
      strings `parent_roles`. Any other key, type or element is an internal
      error. */
  predicate RowFieldAccepted(f: Field) {
    || (f.key == "child_role" && f.value.Str?)
    || (f.key == "parent_roles" && f.value.Arr? && AllStrings(f.value.elements))
  }

  /** The parent names a row lists, over all its `parent_roles` fields. */
  function ListedParents(fields: seq<Field>): set<string> {
    set f, e | f in fields && f.key == "parent_roles" && f.value.Arr? && e in f.value.elements && e.Str? :: e.s
  }

  lemma ListedParentsCons(fields: seq<Field>)
    requires |fields| > 0
    ensures ListedParents(fields) ==
      (if fields[0].key == "parent_roles" && fields[0].value.Arr?
       then set e | e in fields[0].value.elements && e.Str? :: e.s else {}) +
      ListedParents(fields[1..])
  {
  }

  /** The string elements of an all-string array, in order. */
  function StringsOf(elements: seq<Value>): (r: seq<string>)
    requires AllStrings(elements)
    ensures |r| == |elements|
    ensures forall i :: 0 <= i < |r| ==> elements[i] == Str(r[i])
    ensures Elements(r) == set e | e in elements && e.Str? :: e.s
  {
    if |elements| == 0 then []
    else
      var rest := StringsOf(elements[1..]);
      assert elements == [elements[0]] + elements[1..];
      assert Elements([elements[0].s] + rest) == {elements[0].s} + Elements(rest);
      [elements[0].s] + rest
  }

  /** The parent names a row lists, in order and with repeats: the string
      elements of each `parent_roles` array, one field after another. */
  function ListedParentSeq(fields: seq<Field>): seq<string>
    decreases |fields|
  {
    if |fields| == 0 then []
    else
      var f := fields[0];
      (if f.key == "parent_roles" && f.value.Arr? && AllStrings(f.value.elements)
       then StringsOf(f.value.elements) else []) + ListedParentSeq(fields[1..])
  }

  /** On a row the parser accepts, the ordered listing holds exactly the
      listed parent names. */
  lemma {:induction false} ListedParentSeqElements(fields: seq<Field>)
    requires forall i :: 0 <= i < |fields| ==> RowFieldAccepted(fields[i])
    ensures Elements(ListedParentSeq(fields)) == ListedParents(fields)
    decreases |fields|
  {
    if |fields| > 0 {
      assert forall i :: 1 <= i < |fields[1..]| + 1 ==> fields[1..][i - 1] == fields[i];
      ListedParentSeqElements(fields[1..]);
      ListedParentsCons(fields);
      var f := fields[0];
      var head := if f.key == "parent_roles" && f.value.Arr? && AllStrings(f.value.elements)
        then StringsOf(f.value.elements) else [];
      ElementsAppend(head, ListedParentSeq(fields[1..]));
    }
  }

  /** One field of a query row. */
  function ParseRowField(f: Field, acc: InheritanceRow): (r: Result<InheritanceRow>)
    ensures r.Success? <==> RowFieldAccepted(f)
    ensures r.Failure? ==> r.error.code == Internal
    ensures r.Success? ==>
      && r.value.child == (if f.key == "child_role" then Some(f.value.s) else acc.child)
      && r.value.parents == acc.parents + (if f.key == "parent_roles" then StringsOf(f.value.elements) else [])
  {
    if f.key == "child_role" then
      if f.value.Str? then Success(acc.(child := Some(f.value.s)))
      else Fail(Internal, "Invalid type for 'child_role' in role inheritance query result.")
    else if f.key == "parent_roles" then ParentRolesField(f.value, acc)
    else Fail(Internal, "Unknown field in role inheritance query result.")
  }

  /** A `parent_roles` field: an array of strings, appended in order. */
  function ParentRolesField(v: Value, acc: InheritanceRow): (r: Result<InheritanceRow>)
    ensures r.Success? <==> v.Arr? && AllStrings(v.elements)
    ensures r.Failure? ==> r.error.code == Internal
    ensures r.Success? ==> r.value.child == acc.child && r.value.parents == acc.parents + StringsOf(v.elements)
  {
    if !v.Arr? then Fail(Internal, "Invalid type for 'parent_roles' in role inheritance query result.")
    else if !AllStrings(v.elements) then
      Fail(Internal, "Invalid type for element in 'parent_roles' array in role inheritance query result.")
    else Success(acc.(parents := acc.parents + StringsOf(v.elements)))
  }

  /** The fields loop of ParseRoleInheritanceResult. A repeated `child_role`
      overwrites, a repeated `parent_roles` appends. */
  function ParseRoleInheritanceResult(fields: seq<Field>, acc: InheritanceRow): (r: Result<InheritanceRow>)
    ensures r.Success? <==> forall i :: 0 <= i < |fields| ==> RowFieldAccepted(fields[i])
    ensures r.Failure? ==> r.error.code == Internal
    decreases |fields|
  {
    if |fields| == 0 then Success(acc)
    else
      var next :- ParseRowField(fields[0], acc);
      var r := ParseRoleInheritanceResult(fields[1..], next);
      assert forall i :: 1 <= i < |fields| ==> fields[i] == fields[1..][i - 1];
      r
  }

  /** The child a row names: the last string `child_role`, read from the
      end of the row independently of the forward loop. */
  function LastChild(fields: seq<Field>): Option<string>
    decreases |fields|
  {
    if |fields| == 0 then None
    else if fields[|fields| - 1].key == "child_role" && fields[|fields| - 1].value.Str? then
      Some(fields[|fields| - 1].value.s)
    else LastChild(fields[..|fields| - 1])
  }

  lemma {:induction false} LastChildCons(fields: seq<Field>, acc: Option<string>)
    requires |fields| > 0
    ensures (if LastChild(fields).Some? then LastChild(fields) else acc) ==
      (var next := if fields[0].key == "child_role" && fields[0].value.Str? then Some(fields[0].value.s) else acc;
       if LastChild(fields[1..]).Some? then LastChild(fields[1..]) else next)
    decreases |fields|
  {
    if |fields| > 1 {
      assert fields[..|fields| - 1][1..] == fields[1..][..|fields[1..]| - 1];
      LastChildCons(fields[..|fields| - 1], acc);
    }
  }

  /** What the row parser records: the last `child_role` wins (the initial
      child survives only when there is none), and the parent names are
      appended in the order listed. */
  lemma {:induction false} ParseRoleInheritanceResultRecord(fields: seq<Field>, acc: InheritanceRow)
    requires ParseRoleInheritanceResult(fields, acc).Success?
    ensures var r := ParseRoleInheritanceResult(fields, acc).value;
      && r.child == (if LastChild(fields).Some? then LastChild(fields) else acc.child)
      && r.parents == acc.parents + ListedParentSeq(fields)
  {
    ParseRowChild(fields, acc);
    ParseRowParents(fields, acc);
  }

  lemma {:induction false} ParseRowChild(fields: seq<Field>, acc: InheritanceRow)
    requires ParseRoleInheritanceResult(fields, acc).Success?
    ensures ParseRoleInheritanceResult(fields, acc).value.child ==
      (if LastChild(fields).Some? then LastChild(fields) else acc.child)
    decreases |fields|
  {
    if |fields| > 0 {
      var next := ParseRowField(fields[0], acc).value;
      assert ParseRoleInheritanceResult(fields, acc) == ParseRoleInheritanceResult(fields[1..], next);
      ParseRowChild(fields[1..], next);
      LastChildCons(fields, acc.child);
    }
  }

  lemma {:induction false} ParseRowParents(fields: seq<Field>, acc: InheritanceRow)
    requires ParseRoleInheritanceResult(fields, acc).Success?
    ensures ParseRoleInheritanceResult(fields, acc).value.parents == acc.parents + ListedParentSeq(fields)
    decreases |fields|
  {
    if |fields| > 0 {
      var next := ParseRowField(fields[0], acc).value;
      assert ParseRoleInheritanceResult(fields, acc) == ParseRoleInheritanceResult(fields[1..], next);
      ParseRowParents(fields[1..], next);
      var head := ListedParentSeqCons(fields);
      assert next.parents == acc.parents + head;
      var a, t := acc.parents, ListedParentSeq(fields[1..]);
      assert (a + head) + t == a + (head + t);
    }
  }

  /** The first field of an accepted row contributes its array's strings,
      if it is a `parent_roles` field, ahead of the rest of the row. */
  lemma ListedParentSeqCons(fields: seq<Field>) returns (head: seq<string>)
    requires |fields| > 0 && RowFieldAccepted(fields[0])
    ensures head == (if fields[0].key == "parent_roles" then StringsOf(fields[0].value.elements) else [])
    ensures ListedParentSeq(fields) == head + ListedParentSeq(fields[1..])
  {
    head := if fields[0].key == "parent_roles" then StringsOf(fields[0].value.elements) else [];
  }

  /** A query row as the table loop reads it: a non-NULL row that parses
      and names its child, reduced to (child, parents). */
  datatype ParsedRow = ParsedRow(child: string, parents: seq<string>)

  function ReadRow(row: Option<seq<Field>>): (r: Result<ParsedRow>)
    ensures r.Failure? ==> r.error.code == Internal
    ensures r.Success? <==>
      row.Some? && (forall i :: 0 <= i < |row.value| ==> RowFieldAccepted(row.value[i])) &&
      LastChild(row.value).Some?
    ensures r.Success? ==> Some(r.value.child) == LastChild(row.value)
    ensures r.Success? ==> r.value.parents == ListedParentSeq(row.value)
    ensures r.Success? ==> Elements(r.value.parents) == ListedParents(row.value)
  {
    if row.None? then Fail(Internal, "Unexpected NULL element in role inheritance query result.")
    else
      var acc := InheritanceRow(None, []);
      var parsed :- ParseRoleInheritanceResult(row.value, acc);
      ParseRoleInheritanceResultRecord(row.value, acc);
      ListedParentSeqElements(row.value);
      assert parsed.parents == ListedParentSeq(row.value);
      if parsed.child.None? then Fail(Internal, "Missing 'child_role' field in role inheritance query result.")
      else Success(ParsedRow(parsed.child.value, parsed.parents))
  }

  /** A row the table loop accepts on its own (duplicates aside). */
  predicate RowReadable(row: Option<seq<Field>>) {
    ReadRow(row).Success?
  }

  function ChildOf(row: Option<seq<Field>>): string
    requires RowReadable(row)
  {
    ReadRow(row).value.child
  }

  function ParentsOf(row: Option<seq<Field>>): seq<string>
    requires RowReadable(row)
  {
    ReadRow(row).value.parents
  }

  /** Children the table keeps: not a system login role, not the composite
      admin role (represented by its two halves instead) and not the legacy
      admin role. */
  predicate KeptChild(cfg: ServerConfig, child: string) {
    !cfg.isSystemLoginRole(child) && child != ApiAdminRoleV2 && child != ApiAdminRole
  }

  /** A parent list with the composite admin role replaced, in place, by
      its two halves. */
  function ExpandParents(parents: seq<string>): (r: seq<string>)
    ensures ApiAdminRoleV2 !in r
    ensures Elements(r) ==
      (Elements(parents) - {ApiAdminRoleV2}) +
      (if ApiAdminRoleV2 in parents then {ApiReadWriteRole, ApiClusterAdminRole} else {})
    ensures |r| == |parents| + multiset(parents)[ApiAdminRoleV2]
    ensures ApiAdminRoleV2 !in parents ==> r == parents
  {
    if |parents| == 0 then []
    else
      var rest := ExpandParents(parents[1..]);
      assert parents == [parents[0]] + parents[1..];
      assert multiset(parents) == multiset{parents[0]} + multiset(parents[1..]);
      ElementsAppend([parents[0]], parents[1..]);
      if parents[0] == ApiAdminRoleV2 then
        ElementsAppend([ApiReadWriteRole, ApiClusterAdminRole], rest);
        [ApiReadWriteRole, ApiClusterAdminRole] + rest
      else
        ElementsAppend([parents[0]], rest);
        [parents[0]] + rest
  }

  /** What one parent name expands to. */
  function ExpandHead(p: string): seq<string> {
    if p == ApiAdminRoleV2 then [ApiReadWriteRole, ApiClusterAdminRole] else [p]
  }

  /** The recursion of ExpandParents without its postconditions, so that
      inductions over it stay small. */
  function ExpandAll(parents: seq<string>): seq<string>
    decreases |parents|
  {
    if |parents| == 0 then [] else ExpandHead(parents[0]) + ExpandAll(parents[1..])
  }

  lemma {:induction false} ExpandParentsIsExpandAll(parents: seq<string>)
    ensures ExpandParents(parents) == ExpandAll(parents)
    decreases |parents|
  {
    if |parents| > 0 {
      ExpandParentsIsExpandAll(parents[1..]);
    }
  }

  lemma {:induction false} ExpandAllAppend(a: seq<string>, b: seq<string>)
    ensures ExpandAll(a + b) == ExpandAll(a) + ExpandAll(b)
    decreases |a|
  {
    if |a| > 0 {
      assert (a + b)[0] == a[0];
      assert (a + b)[1..] == a[1..] + b;
      ExpandAllAppend(a[1..], b);
      var h, t, e := ExpandHead(a[0]), ExpandAll(a[1..]), ExpandAll(b);
      assert h + (t + e) == (h + t) + e;
    } else {
      assert a + b == b;
    }
  }

  /** Expansion works element by element: it distributes over
      concatenation. */
  lemma ExpandParentsAppend(a: seq<string>, b: seq<string>)
    ensures ExpandParents(a + b) == ExpandParents(a) + ExpandParents(b)
  {
    ExpandParentsIsExpandAll(a + b);
    ExpandParentsIsExpandAll(a);
    ExpandParentsIsExpandAll(b);
    ExpandAllAppend(a, b);
  }

  /** The composite admin role is replaced where it stands by readWrite
      followed by clusterAdmin; every other name stays where it is. */
  lemma ExpandParentsInPlace(a: seq<string>, p: string, b: seq<string>)
    ensures ExpandParents(a + [p] + b) ==
      ExpandParents(a) + (if p == ApiAdminRoleV2 then [ApiReadWriteRole, ApiClusterAdminRole] else [p]) + ExpandParents(b)
  {
    ExpandParentsAppend(a + [p], b);
    ExpandParentsAppend(a, [p]);
    ExpandParentsSingle(p);
  }

  lemma ExpandParentsSingle(p: string)
    ensures ExpandParents([p]) == ExpandHead(p)
  {
    assert [p][1..] == [];
  }

  /** The composite role listed first expands in front of the other
      parents: [composite, x] becomes [readWrite, clusterAdmin, x]. */
  lemma ExpandParentsExample(x: string)
    requires x != ApiAdminRoleV2
    ensures ExpandParents([ApiAdminRoleV2, x]) == [ApiReadWriteRole, ApiClusterAdminRole, x]
  {
    ExpandParentsInPlace([], ApiAdminRoleV2, [x]);
    assert [] + [ApiAdminRoleV2] + [x] == [ApiAdminRoleV2, x];
  }

  /** The entry a kept row contributes. */
  function EntryFor(child: string, parents: seq<string>): RoleEntry {
    RoleEntry(child, ToNative(child), ExpandParents(parents))
  }

  /** One row of the loop of BuildRoleInheritanceTable, once read. */
  function InsertRow(cfg: ServerConfig, row: ParsedRow, g: Graph): (r: Result<Graph>)
    ensures r.Failure? ==> r.error.code == Internal
    ensures r.Success? <==> (KeptChild(cfg, row.child) ==> row.child !in g)
    ensures r.Success? && !KeptChild(cfg, row.child) ==> r.value == g
    ensures r.Success? && KeptChild(cfg, row.child) ==>
      r.value == g[row.child := EntryFor(row.child, row.parents)]
  {
    if !KeptChild(cfg, row.child) then Success(g)
    else if row.child in g then Fail(Internal, "Duplicate 'child_role' found in role inheritance query result.")
    else Success(g[row.child := EntryFor(row.child, row.parents)])
  }

  /** The kept children of readable rows, in row order. */
  function KeptChildSeq(cfg: ServerConfig, rows: seq<Option<seq<Field>>>): (r: seq<string>)
    requires forall i :: 0 <= i < |rows| ==> RowReadable(rows[i])
    ensures forall x :: x in r <==>
      exists i :: 0 <= i < |rows| && ChildOf(rows[i]) == x && KeptChild(cfg, x)
    decreases |rows|
  {
    if |rows| == 0 then []
    else
      var rest := KeptChildSeq(cfg, rows[1..]);
      assert forall i :: 1 <= i < |rows| ==> rows[i] == rows[1..][i - 1];
      var c := ChildOf(rows[0]);
      if KeptChild(cfg, c) then [c] + rest else rest
  }

  /** The rows a build accepts: every row is readable, and the kept
      children are pairwise distinct and absent from `g`. */
  predicate RowsAccepted(cfg: ServerConfig, rows: seq<Option<seq<Field>>>, g: Graph) {
    && (forall i :: 0 <= i < |rows| ==> RowReadable(rows[i]))
    && NoDuplicates(KeptChildSeq(cfg, rows))
    && (forall x :: x in KeptChildSeq(cfg, rows) ==> x !in g)
  }

  lemma RowsAcceptedCons(cfg: ServerConfig, rows: seq<Option<seq<Field>>>, g: Graph)
    requires |rows| > 0 && RowReadable(rows[0])
    ensures var c := ReadRow(rows[0]).value;
      RowsAccepted(cfg, rows, g) <==>
        (KeptChild(cfg, c.child) ==> c.child !in g) &&
        RowsAccepted(cfg, rows[1..], if KeptChild(cfg, c.child) then g[c.child := EntryFor(c.child, c.parents)] else g)
  {
    ReadableCons(rows);
    if forall i :: 0 <= i < |rows| ==> RowReadable(rows[i]) {
      var t := KeptChildSeq(cfg, rows[1..]);
      var c := ReadRow(rows[0]).value.child;
      assert KeptChildSeq(cfg, rows) == if KeptChild(cfg, c) then [c] + t else t;
      if KeptChild(cfg, c) {
        FreshStep(c, t, g, EntryFor(c, ReadRow(rows[0]).value.parents));
      }
    }
  }

  lemma ReadableCons(rows: seq<Option<seq<Field>>>)
    requires |rows| > 0
    ensures (forall i :: 0 <= i < |rows| ==> RowReadable(rows[i])) <==>
      RowReadable(rows[0]) && forall i :: 0 <= i < |rows[1..]| ==> RowReadable(rows[1..][i])
  {
    assert forall i :: 1 <= i < |rows| ==> rows[i] == rows[1..][i - 1];
  }

  /** Inserting a new child keeps the remaining children new exactly when
      it is itself new and not among them. */
  lemma FreshStep(c: string, t: seq<string>, g: Graph, e: RoleEntry)
    ensures (NoDuplicates([c] + t) && forall x :: x in [c] + t ==> x !in g) <==>
      c !in g && NoDuplicates(t) && forall x :: x in t ==> x !in g[c := e]
  {
    NoDuplicatesCons(c, t);
  }

  /** The row loop: rows are read and inserted in order, and the first bad
      row aborts the build. */
  function InsertRows(cfg: ServerConfig, rows: seq<Option<seq<Field>>>, g: Graph): (r: Result<Graph>)
    ensures r.Failure? ==> r.error.code == Internal
    ensures r.Success? <==> RowsAccepted(cfg, rows, g)
    decreases |rows|
  {
    if |rows| == 0 then Success(g)
    else
      var row :- ReadRow(rows[0]);
      var next :- InsertRow(cfg, row, g);
      RowsAcceptedCons(cfg, rows, g);
      InsertRows(cfg, rows[1..], next)
  }

  /** The row loop adds exactly the kept children to the keys of `g` and
      leaves the entries of `g` alone. */
  lemma {:induction false} InsertRowsKeys(cfg: ServerConfig, rows: seq<Option<seq<Field>>>, g: Graph)
    requires InsertRows(cfg, rows, g).Success?
    ensures RowsAccepted(cfg, rows, g)
    ensures InsertRows(cfg, rows, g).value.Keys == g.Keys + Elements(KeptChildSeq(cfg, rows))
    ensures forall k :: k in g ==> InsertRows(cfg, rows, g).value[k] == g[k]
    decreases |rows|
  {
    if |rows| > 0 {
      var row := ReadRow(rows[0]).value;
      var next := InsertRow(cfg, row, g).value;
      RowsAcceptedCons(cfg, rows, g);
      InsertRowsKeys(cfg, rows[1..], next);
      assert InsertRows(cfg, rows, g) == InsertRows(cfg, rows[1..], next);
      assert KeptChildSeq(cfg, rows) == if KeptChild(cfg, row.child) then [row.child] + KeptChildSeq(cfg, rows[1..])
        else KeptChildSeq(cfg, rows[1..]);
    }
  }

  /** Each kept row's entry ends up in the table built by the row loop. */
  lemma {:induction false} InsertRowsContents(cfg: ServerConfig, rows: seq<Option<seq<Field>>>, g: Graph)
    requires InsertRows(cfg, rows, g).Success?
    ensures RowsAccepted(cfg, rows, g)
    ensures var r := InsertRows(cfg, rows, g).value;
      forall i :: 0 <= i < |rows| && KeptChild(cfg, ChildOf(rows[i])) ==>
        ChildOf(rows[i]) in r && r[ChildOf(rows[i])] == EntryFor(ChildOf(rows[i]), ParentsOf(rows[i]))
    decreases |rows|
  {
    InsertRowsKeys(cfg, rows, g);
    if |rows| > 0 {
      var row := ReadRow(rows[0]).value;
      var next := InsertRow(cfg, row, g).value;
      RowsAcceptedCons(cfg, rows, g);
      InsertRowsContents(cfg, rows[1..], next);
      InsertRowsKeys(cfg, rows[1..], next);
      var r := InsertRows(cfg, rows, g).value;
      assert r == InsertRows(cfg, rows[1..], next).value;
      forall i | 0 <= i < |rows| && KeptChild(cfg, ChildOf(rows[i]))
        ensures r[ChildOf(rows[i])] == EntryFor(ChildOf(rows[i]), ParentsOf(rows[i]))
      {
        if i == 0 {
          assert row.child in next;
        } else {
          assert rows[i] == rows[1..][i - 1];
        }
      }
    }
  }

  /** The table always holds entries for the two halves of the composite
      admin role; when the query did not produce them they are added with
      their native names and no parents. */
  function AddSynthesizedEntries(g: Graph): (r: Graph)
    ensures r.Keys == g.Keys + {ApiReadWriteRole, ApiClusterAdminRole}
    ensures forall k :: k in g ==> r[k] == g[k]
    ensures ApiReadWriteRole !in g ==> r[ApiReadWriteRole] == RoleEntry(ApiReadWriteRole, ReadWriteAnyDatabase, [])
    ensures ApiClusterAdminRole !in g ==> r[ApiClusterAdminRole] == RoleEntry(ApiClusterAdminRole, ClusterAdmin, [])
  {
    var g1 := if ApiReadWriteRole in g then g
              else g[ApiReadWriteRole := RoleEntry(ApiReadWriteRole, ReadWriteAnyDatabase, [])];
    if ApiClusterAdminRole in g1 then g1
    else g1[ApiClusterAdminRole := RoleEntry(ApiClusterAdminRole, ClusterAdmin, [])]
  }

  /** The shape every built table has: each entry is keyed by its internal
      name and shows the native name of that key; the composite admin role
      never appears, neither as a node nor as a parent; the legacy admin
      role is not a node; both halves of the composite role are nodes. */
  predicate WellFormed(g: Graph) {
    && ApiReadWriteRole in g && ApiClusterAdminRole in g
    && ApiAdminRoleV2 !in g && ApiAdminRole !in g
    && forall k :: k in g ==>
         g[k].internalName == k && g[k].nativeName == ToNative(k) && ApiAdminRoleV2 !in g[k].parents
  }

  /** Every entry of a table built from `rows` is keyed by its internal
      name, shows the native name of that key and is a kept child. */
  lemma InsertRowsEntries(cfg: ServerConfig, rows: seq<Option<seq<Field>>>)
    requires InsertRows(cfg, rows, map[]).Success?
    ensures var g := InsertRows(cfg, rows, map[]).value;
      forall k :: k in g ==>
        g[k].internalName == k && g[k].nativeName == ToNative(k) && KeptChild(cfg, k) &&
        ApiAdminRoleV2 !in g[k].parents
  {
    InsertRowsKeys(cfg, rows, map[]);
    InsertRowsContents(cfg, rows, map[]);
    var g := InsertRows(cfg, rows, map[]).value;
    forall k | k in g
      ensures g[k].internalName == k && g[k].nativeName == ToNative(k) && KeptChild(cfg, k) &&
        ApiAdminRoleV2 !in g[k].parents
    {
      assert k in KeptChildSeq(cfg, rows);
      var i :| 0 <= i < |rows| && ChildOf(rows[i]) == k && KeptChild(cfg, k);
    }
  }

  /** The table the rows and the synthesized entries make together. */
  lemma {:induction false} SynthesizedTable(cfg: ServerConfig, rows: seq<Option<seq<Field>>>)
    requires InsertRows(cfg, rows, map[]).Success?
    ensures var r := AddSynthesizedEntries(InsertRows(cfg, rows, map[]).value);
      && WellFormed(r)
      && r.Keys == Elements(KeptChildSeq(cfg, rows)) + {ApiReadWriteRole, ApiClusterAdminRole}
      && (forall i :: 0 <= i < |rows| && KeptChild(cfg, ChildOf(rows[i])) ==>
            r[ChildOf(rows[i])].parents == ExpandParents(ParentsOf(rows[i])))
      && (ApiReadWriteRole !in KeptChildSeq(cfg, rows) ==> r[ApiReadWriteRole].parents == [])
      && (ApiClusterAdminRole !in KeptChildSeq(cfg, rows) ==> r[ApiClusterAdminRole].parents == [])
  {
    var g := InsertRows(cfg, rows, map[]).value;
    InsertRowsKeys(cfg, rows, map[]);
    InsertRowsContents(cfg, rows, map[]);
    InsertRowsEntries(cfg, rows);
    SynthesizedOver(cfg, rows, g);
  }

  lemma SynthesizedOver(cfg: ServerConfig, rows: seq<Option<seq<Field>>>, g: Graph)
    requires forall i :: 0 <= i < |rows| ==> RowReadable(rows[i])
    requires g.Keys == Elements(KeptChildSeq(cfg, rows))
    requires forall i :: 0 <= i < |rows| && KeptChild(cfg, ChildOf(rows[i])) ==>
      ChildOf(rows[i]) in g && g[ChildOf(rows[i])] == EntryFor(ChildOf(rows[i]), ParentsOf(rows[i]))
    requires forall k :: k in g ==>
      g[k].internalName == k && g[k].nativeName == ToNative(k) && KeptChild(cfg, k) &&
      ApiAdminRoleV2 !in g[k].parents
    ensures var r := AddSynthesizedEntries(g);
      && WellFormed(r)
      && r.Keys == Elements(KeptChildSeq(cfg, rows)) + {ApiReadWriteRole, ApiClusterAdminRole}
      && (forall i :: 0 <= i < |rows| && KeptChild(cfg, ChildOf(rows[i])) ==>
            r[ChildOf(rows[i])].parents == ExpandParents(ParentsOf(rows[i])))
      && (ApiReadWriteRole !in KeptChildSeq(cfg, rows) ==> r[ApiReadWriteRole].parents == [])
      && (ApiClusterAdminRole !in KeptChildSeq(cfg, rows) ==> r[ApiClusterAdminRole].parents == [])
  {
    SynthesizedWellFormed(g);
  }

  /** Adding the two halves of the composite role to a table of kept
      children whose entries are keyed and named consistently makes a
      well-formed table. */
  lemma SynthesizedWellFormed(g: Graph)
    requires forall k :: k in g ==>
      g[k].internalName == k && g[k].nativeName == ToNative(k) && k != ApiAdminRoleV2 && k != ApiAdminRole &&
      ApiAdminRoleV2 !in g[k].parents
    ensures WellFormed(AddSynthesizedEntries(g))
  {
  }

  /** BuildRoleInheritanceTable, after the query: a NULL result, a NULL
      row, a malformed row, a row without child and a duplicate kept child
      are internal errors; otherwise the table holds exactly the kept
      children and the two halves of the composite role, and each kept
      child's parents are those its row lists, composite role expanded. */
  function BuildRoleInheritanceTable(cfg: ServerConfig, result: Option<seq<Option<seq<Field>>>>): (r: Result<Graph>)
    ensures r.Failure? ==> r.error.code == Internal
    ensures r.Success? <==> result.Some? && RowsAccepted(cfg, result.value, map[])
    ensures r.Success? ==> WellFormed(r.value)
    ensures r.Success? ==>
      r.value.Keys == Elements(KeptChildSeq(cfg, result.value)) + {ApiReadWriteRole, ApiClusterAdminRole}
    ensures r.Success? ==>
      forall i :: 0 <= i < |result.value| && KeptChild(cfg, ChildOf(result.value[i])) ==>
        r.value[ChildOf(result.value[i])].parents == ExpandParents(ParentsOf(result.value[i]))
    ensures r.Success? ==>
      (ApiReadWriteRole !in KeptChildSeq(cfg, result.value) ==> r.value[ApiReadWriteRole].parents == []) &&
      (ApiClusterAdminRole !in KeptChildSeq(cfg, result.value) ==> r.value[ApiClusterAdminRole].parents == [])
  {
    if result.None? then Fail(Internal, "Role inheritance query returned NULL result.")
    else
      var g :- InsertRows(cfg, result.value, map[]);
      SynthesizedTable(cfg, result.value);
      Success(AddSynthesizedEntries(g))
  }
}
