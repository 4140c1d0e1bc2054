/** The gateway's cursor store: open cursors keyed by (cursor id, user
    name), with insertion, take-once retrieval, bulk invalidation by
    collection, database or session, and killCursors. The concurrent map is
    modelled as an immutable map; each operation returns the new store. */
module CursorStore {
  import opened Wrappers

  /** Cursor: the continuation document (raw BSON bytes) and the id. */
  datatype Cursor = Cursor(continuation: seq<bv8>, cursorId: int)

  /** CursorStoreEntry. The connection is an opaque handle; the timestamp
      and timeout serve only the expiry task. */
  datatype CursorStoreEntry = CursorStoreEntry(
    conn: Option<nat>,
    cursor: Cursor,
    db: string,
    collection: string,
    timestamp: int,
    cursorTimeout: int,
    sessionId: Option<seq<bv8>>)

  /** The key: cursor id and user name. The same id under two users names
      two independent cursors. */
  type Key = (int, string)

  type Store = map<Key, CursorStoreEntry>

  /** add_cursor: the key now maps to the entry, replacing any earlier one;
      every other key is untouched. */
  function AddCursor(s: Store, k: Key, v: CursorStoreEntry): (r: Store)
    ensures k in r && r[k] == v
    ensures r.Keys == s.Keys + {k}
    ensures forall k2 :: k2 in s && k2 != k ==> r[k2] == s[k2]
  {
    s[k := v]
  }

  /** get_cursor: a cursor can be taken once; taking removes it. */
  function GetCursor(s: Store, k: Key): (r: (Option<CursorStoreEntry>, Store))
    ensures r.0.Some? <==> k in s
    ensures r.0.Some? ==> r.0.value == s[k]
    ensures r.1.Keys == s.Keys - {k}
    ensures forall k2 :: k2 in r.1 ==> r.1[k2] == s[k2]
  {
    if k in s then (Some(s[k]), s - {k}) else (None, s)
  }

  /** A second take of the same key finds nothing. */
  lemma GetCursorTwice(s: Store, k: Key)
    ensures GetCursor(GetCursor(s, k).1, k).0 == None
  {
  }

  /** Taking what was just added returns it and leaves the store as it was
      without that key. */
  lemma AddThenGet(s: Store, k: Key, v: CursorStoreEntry)
    ensures GetCursor(AddCursor(s, k, v), k) == (Some(v), s - {k})
  {
    assert AddCursor(s, k, v) - {k} == s - {k};
  }

  /** Cursors of another user with the same id are not affected by a take. */
  lemma GetCursorIsolatesUsers(s: Store, id: int, user: string, other: string)
    requires user != other && (id, other) in s
    ensures var r := GetCursor(s, (id, user)).1; (id, other) in r && r[(id, other)] == s[(id, other)]
  {
  }

  // ---------------------------------------------------------------------
  // Invalidation
  // ---------------------------------------------------------------------

  /** Keep exactly the entries a predicate keeps; nothing else changes. */
  function Retain(s: Store, keep: CursorStoreEntry -> bool): (r: Store)
    ensures forall k :: k in r <==> k in s && keep(s[k])
    ensures forall k :: k in r ==> r[k] == s[k]
  {
    map k | k in s && keep(s[k]) :: s[k]
  }

  /** invalidate_cursors_by_collection: drop the cursors open on that
      collection of that database. */
  function InvalidateByCollection(s: Store, db: string, collection: string): (r: Store)
    ensures forall k :: k in r <==> k in s && !(s[k].collection == collection && s[k].db == db)
    ensures forall k :: k in r ==> r[k] == s[k]
  {
    Retain(s, (v: CursorStoreEntry) => !(v.collection == collection && v.db == db))
  }

  /** invalidate_cursors_by_database: drop the cursors open on that
      database. */
  function InvalidateByDatabase(s: Store, db: string): (r: Store)
    ensures forall k :: k in r <==> k in s && s[k].db != db
    ensures forall k :: k in r ==> r[k] == s[k]
  {
    Retain(s, (v: CursorStoreEntry) => v.db != db)
  }

  /** invalidate_cursors_by_session: drop the cursors of that session;
      cursors opened outside a session are kept. */
  function InvalidateBySession(s: Store, session: seq<bv8>): (r: Store)
    ensures forall k :: k in r <==> k in s && s[k].sessionId != Some(session)
    ensures forall k :: k in r ==> r[k] == s[k]
    ensures forall k :: k in s && s[k].sessionId.None? ==> k in r
  {
    Retain(s, (v: CursorStoreEntry) => v.sessionId != Some(session))
  }

  /** Invalidating twice is invalidating once. */
  lemma InvalidationIdempotent(s: Store, db: string, collection: string, session: seq<bv8>)
    ensures InvalidateByCollection(InvalidateByCollection(s, db, collection), db, collection) ==
      InvalidateByCollection(s, db, collection)
    ensures InvalidateByDatabase(InvalidateByDatabase(s, db), db) == InvalidateByDatabase(s, db)
    ensures InvalidateBySession(InvalidateBySession(s, session), session) == InvalidateBySession(s, session)
  {
  }

  /** Dropping a database's cursors also drops those of each of its
      collections: the database invalidation is at least as strong, and
      the two commute. */
  lemma DatabaseCoversCollections(s: Store, db: string, collection: string)
    ensures InvalidateByCollection(InvalidateByDatabase(s, db), db, collection) == InvalidateByDatabase(s, db)
    ensures InvalidateByDatabase(InvalidateByCollection(s, db, collection), db) == InvalidateByDatabase(s, db)
    ensures InvalidateByDatabase(s, db).Keys <= InvalidateByCollection(s, db, collection).Keys
  {
  }

  // ---------------------------------------------------------------------
  // killCursors
  // ---------------------------------------------------------------------

  /** The ids at the positions where `mask` equals `want`, in order. */
  function Select(ids: seq<int>, mask: seq<bool>, want: bool): (r: seq<int>)
    requires |mask| == |ids|
    ensures |r| <= |ids|
    ensures forall x :: x in r ==> x in ids
  {
    if |ids| == 0 then []
    else
      var n := |ids| - 1;
      Select(ids[..n], mask[..n], want) + (if mask[n] == want then [ids[n]] else [])
  }

  /** Which requested ids kill_cursors removes: those the user has a cursor
      for, at their first occurrence in the request. */
  function KillMask(s: Store, user: string, ids: seq<int>): (mask: seq<bool>)
    ensures |mask| == |ids|
    ensures forall i :: 0 <= i < |ids| ==> (mask[i] <==> (ids[i], user) in s && ids[i] !in ids[..i])
  {
    seq(|ids|, i requires 0 <= i < |ids| => (ids[i], user) in s && ids[i] !in ids[..i])
  }

  /** The store after kill_cursors: the user's cursors with a requested id
      are gone; everything else is untouched. */
  function Killed(s: Store, user: string, ids: seq<int>): (r: Store)
    ensures forall k :: k in r <==> k in s && !(k.1 == user && k.0 in ids)
    ensures forall k :: k in r ==> r[k] == s[k]
  {
    map k | k in s && !(k.1 == user && k.0 in ids) :: s[k]
  }

  /** kill_cursors: remove the user's cursor of each requested id in turn,
      reporting each id as removed (it was there) or missing (it was not,
      or an earlier occurrence of the id already removed it). */
  method KillCursors(s: Store, user: string, ids: seq<int>) returns (removed: seq<int>, missing: seq<int>, r: Store)
    ensures removed == Select(ids, KillMask(s, user, ids), true)
    ensures missing == Select(ids, KillMask(s, user, ids), false)
    ensures r == Killed(s, user, ids)
  {
    ghost var mask := KillMask(s, user, ids);
    removed, missing, r := [], [], s;
    var i := 0;
    while i < |ids|
      invariant 0 <= i <= |ids|
      invariant removed == Select(ids[..i], mask[..i], true)
      invariant missing == Select(ids[..i], mask[..i], false)
      invariant r == Killed(s, user, ids[..i])
    {
      var id := ids[i];
      SelectStep(ids, mask, i);
      KillStep(s, user, ids, i);
      if (id, user) in r {
        r := r - {(id, user)};
        removed := removed + [id];
      } else {
        missing := missing + [id];
      }
      i := i + 1;
    }
    assert ids[..i] == ids && mask[..i] == mask;
  }

  /** Selecting from one more element of the request. */
  lemma SelectStep(ids: seq<int>, mask: seq<bool>, i: int)
    requires |mask| == |ids| && 0 <= i < |ids|
    ensures forall want: bool ::
      (Select(ids[..i + 1], mask[..i + 1], want) ==
       Select(ids[..i], mask[..i], want) + (if mask[i] == want then [ids[i]] else []))
  {
    assert ids[..i + 1][..i] == ids[..i] && mask[..i + 1][..i] == mask[..i];
  }

  /** Killing one more requested id: its cursor goes exactly when the mask
      says it is removed. */
  lemma KillStep(s: Store, user: string, ids: seq<int>, i: int)
    requires 0 <= i < |ids|
    ensures var r := Killed(s, user, ids[..i]);
      && (KillMask(s, user, ids)[i] <==> (ids[i], user) in r)
      && Killed(s, user, ids[..i + 1]) == if (ids[i], user) in r then r - {(ids[i], user)} else r
  {
  }

  /** Every requested id is reported exactly once, as removed or as
      missing. */
  lemma {:induction false} SelectPartition(ids: seq<int>, mask: seq<bool>)
    requires |mask| == |ids|
    ensures multiset(Select(ids, mask, true)) + multiset(Select(ids, mask, false)) == multiset(ids)
  {
    if |ids| > 0 {
      var n := |ids| - 1;
      SelectPartition(ids[..n], mask[..n]);
      assert ids == ids[..n] + [ids[n]];
      PartitionStep(Select(ids[..n], mask[..n], true), Select(ids[..n], mask[..n], false), ids[..n], ids[n], mask[n]);
    }
  }

  lemma PartitionStep(t: seq<int>, f: seq<int>, prefix: seq<int>, x: int, b: bool)
    requires multiset(t) + multiset(f) == multiset(prefix)
    ensures multiset(t + (if b then [x] else [])) + multiset(f + (if b then [] else [x])) == multiset(prefix + [x])
  {
  }

  /** The removed ids are distinct, each named a cursor of the user, and
      together they are all the requested ids the user had a cursor for. */
  lemma KillCursorsRemoved(s: Store, user: string, ids: seq<int>)
    ensures var removed := Select(ids, KillMask(s, user, ids), true);
      && (forall x :: x in removed <==> x in ids && (x, user) in s)
      && NoDuplicates(removed)
  {
    var mask := KillMask(s, user, ids);
    SelectFirstDistinct(ids, mask);
    SelectMembers(ids, mask, true);
    forall x | x in ids && (x, user) in s
      ensures exists i :: 0 <= i < |ids| && mask[i] && ids[i] == x
    {
      var i := FirstIndex(ids, x);
      assert mask[i];
    }
  }

  /** The position of the first occurrence of `x`. */
  function FirstIndex(ids: seq<int>, x: int): (i: nat)
    requires x in ids
    ensures i < |ids| && ids[i] == x && x !in ids[..i]
  {
    if ids[0] == x then 0
    else
      var j := FirstIndex(ids[1..], x);
      assert ids[..j + 1] == [ids[0]] + ids[1..][..j];
      j + 1
  }

  /** Selecting only first occurrences selects no id twice. */
  lemma {:induction false} SelectFirstDistinct(ids: seq<int>, mask: seq<bool>)
    requires |mask| == |ids|
    requires forall i :: 0 <= i < |ids| && mask[i] ==> ids[i] !in ids[..i]
    ensures NoDuplicates(Select(ids, mask, true))
  {
    if |ids| > 0 {
      var n := |ids| - 1;
      assert forall i :: 0 <= i < n ==> ids[..n][i] == ids[i] && mask[..n][i] == mask[i] && ids[..n][..i] == ids[..i];
      SelectFirstDistinct(ids[..n], mask[..n]);
      var prefix := Select(ids[..n], mask[..n], true);
      if mask[n] {
        var sel := prefix + [ids[n]];
        assert Select(ids, mask, true) == sel;
        forall i, j | 0 <= i < j < |sel|
          ensures sel[i] != sel[j]
        {
          if j < |prefix| {
            assert sel[i] == prefix[i] && sel[j] == prefix[j];
            assert prefix[i] != prefix[j];
          } else {
            assert sel[i] == prefix[i] && sel[j] == ids[n];
            assert prefix[i] in prefix;
            assert prefix[i] in ids[..n];
            assert ids[n] !in ids[..n];
          }
        }
      }
    }
  }

  /** Membership in a selection. */
  lemma {:induction false} SelectMembers(ids: seq<int>, mask: seq<bool>, want: bool)
    requires |mask| == |ids|
    ensures forall x :: x in Select(ids, mask, want) <==> exists i :: 0 <= i < |ids| && mask[i] == want && ids[i] == x
  {
    if |ids| > 0 {
      var n := |ids| - 1;
      SelectMembers(ids[..n], mask[..n], want);
      assert forall i :: 0 <= i < n ==> ids[..n][i] == ids[i] && mask[..n][i] == mask[i];
    }
  }

  /** A second kill of the same ids removes nothing and reports all of them
      missing. */
  lemma KillCursorsAgain(s: Store, user: string, ids: seq<int>)
    ensures var r := Killed(s, user, ids);
      Select(ids, KillMask(r, user, ids), true) == [] &&
      Select(ids, KillMask(r, user, ids), false) == ids
  {
    var r := Killed(s, user, ids);
    var mask := KillMask(r, user, ids);
    assert forall i :: 0 <= i < |ids| ==> !mask[i];
    SelectNone(ids, mask);
  }

  lemma {:induction false} SelectNone(ids: seq<int>, mask: seq<bool>)
    requires |mask| == |ids| && forall i :: 0 <= i < |ids| ==> !mask[i]
    ensures Select(ids, mask, true) == [] && Select(ids, mask, false) == ids
  {
    if |ids| > 0 {
      var n := |ids| - 1;
      SelectNone(ids[..n], mask[..n]);
      assert ids == ids[..n] + [ids[n]];
    }
  }

  /** The same id requested twice, with a cursor present: removed at the
      first occurrence, missing at the second. */
  lemma KillRepeatedExample(s: Store, user: string, id: int)
    requires (id, user) in s
    ensures Select([id, id], KillMask(s, user, [id, id]), true) == [id]
    ensures Select([id, id], KillMask(s, user, [id, id]), false) == [id]
  {
  }
}
