/** The rows of the alias table as the writers change them: edited in place, appended, deleted.

    The rows are a list with ascending ids and no key twice. What a change does to the list
    is stated beside what it does to the map the list is read as. */
module Table {
  import opened Strings
  import opened Aliases
  import opened Repoint

  /** The id the next row gets: past every id there is. */
  function NextId(rows: seq<Alias>): nat
  {
    if rows == [] then 1 else rows[|rows| - 1].id + 1
  }

  /** The position of the row for a key, or the length where there is none. */
  function RowFor(rows: seq<Alias>, key: string): (i: nat)
    ensures i <= |rows|
  {
    if rows == [] || rows[0].key == key then 0 else 1 + RowFor(rows[1..], key)
  }

  lemma {:induction false} RowForFinds(rows: seq<Alias>, key: string)
    ensures RowFor(rows, key) < |rows| ==> rows[RowFor(rows, key)].key == key
    ensures RowFor(rows, key) == |rows| <==> forall i :: 0 <= i < |rows| ==> rows[i].key != key
  {
    if rows != [] && rows[0].key != key {
      RowForFinds(rows[1..], key);
    }
  }

  lemma RowForIsLookup(rows: seq<Alias>, key: string)
    requires WellKeyed(rows)
    ensures RowFor(rows, key) < |rows| <==> key in AsMap(rows)
  {
    RowForFinds(rows, key);
    if RowFor(rows, key) < |rows| { AsMapReads(rows, RowFor(rows, key)); }
    if key in AsMap(rows) { var i := AsMapFinds(rows, key); }
  }

  /** Rows that keep their ids and keys and change their names read off as the changed names. */
  lemma EditedRows(rows: seq<Alias>, edited: seq<Alias>, m: map<string, string>)
    requires WellKeyed(rows) && |edited| == |rows| && m.Keys == AsMap(rows).Keys
    requires forall i :: 0 <= i < |rows| ==> edited[i].key == rows[i].key && edited[i].id == rows[i].id
    requires forall i :: 0 <= i < |rows| ==> rows[i].key in m && m[rows[i].key] == edited[i].canonical
    ensures WellKeyed(edited) && AsMap(edited) == m
  {
    forall k | k in m ensures k in AsMap(edited) && AsMap(edited)[k] == m[k] {
      var i := AsMapFinds(rows, k);
      AsMapReads(edited, i);
    }
    forall k | k in AsMap(edited) ensures k in m {
      var i := AsMapFinds(edited, k);
    }
  }

  lemma AppendedRow(rows: seq<Alias>, key: string, name: string)
    requires WellKeyed(rows) && key !in AsMap(rows)
    ensures WellKeyed(rows + [Alias(NextId(rows), key, name)])
    ensures AsMap(rows + [Alias(NextId(rows), key, name)]) == AsMap(rows)[key := name]
  {
    var more := rows + [Alias(NextId(rows), key, name)];
    assert more[..|more| - 1] == rows;
    RowForIsLookup(rows, key);
    RowForFinds(rows, key);
  }

  /** The row for a key says this name now; a key with no row gets one at the end. */
  function SetRow(rows: seq<Alias>, key: string, name: string): seq<Alias>
  {
    var i := RowFor(rows, key);
    if i < |rows| then rows[i := rows[i].(canonical := name)] else rows + [Alias(NextId(rows), key, name)]
  }

  /** A key with no row gets one; a key with one is left as it is. */
  function AddRow(rows: seq<Alias>, key: string, name: string): seq<Alias>
  {
    if RowFor(rows, key) < |rows| then rows else rows + [Alias(NextId(rows), key, name)]
  }

  lemma SetRowSets(rows: seq<Alias>, key: string, name: string)
    requires WellKeyed(rows)
    ensures WellKeyed(SetRow(rows, key, name))
    ensures AsMap(SetRow(rows, key, name)) == AsMap(rows)[key := name]
  {
    RowForIsLookup(rows, key);
    RowForFinds(rows, key);
    if RowFor(rows, key) < |rows| {
      RenamedRow(rows, RowFor(rows, key), name);
    } else {
      AppendedRow(rows, key, name);
    }
  }

  lemma RenamedRow(rows: seq<Alias>, i: nat, name: string)
    requires WellKeyed(rows) && i < |rows|
    ensures WellKeyed(rows[i := rows[i].(canonical := name)])
    ensures AsMap(rows[i := rows[i].(canonical := name)]) == AsMap(rows)[rows[i].key := name]
  {
    var edited, m := rows[i := rows[i].(canonical := name)], AsMap(rows)[rows[i].key := name];
    AsMapReads(rows, i);
    assert m.Keys == AsMap(rows).Keys;
    forall j | 0 <= j < |rows| ensures rows[j].key in m && m[rows[j].key] == edited[j].canonical {
      AsMapReads(rows, j);
    }
    EditedRows(rows, edited, m);
  }

  lemma AddRowAdds(rows: seq<Alias>, key: string, name: string)
    requires WellKeyed(rows)
    ensures WellKeyed(AddRow(rows, key, name)) && rows <= AddRow(rows, key, name)
    ensures AsMap(AddRow(rows, key, name)) == if key in AsMap(rows) then AsMap(rows) else AsMap(rows)[key := name]
  {
    RowForIsLookup(rows, key);
    if key !in AsMap(rows) {
      AppendedRow(rows, key, name);
    }
  }

  function SetRows(rows: seq<Alias>, keys: seq<string>, name: string): seq<Alias>
    decreases keys
  {
    if keys == [] then rows else SetRows(SetRow(rows, keys[0], name), keys[1..], name)
  }

  function AddRows(rows: seq<Alias>, keys: seq<string>, name: string): seq<Alias>
    decreases keys
  {
    if keys == [] then rows else AddRows(AddRow(rows, keys[0], name), keys[1..], name)
  }

  lemma {:induction false} SetRowsSet(rows: seq<Alias>, keys: seq<string>, name: string)
    requires WellKeyed(rows)
    ensures WellKeyed(SetRows(rows, keys, name))
    ensures AsMap(SetRows(rows, keys, name)).Keys == AsMap(rows).Keys + (set k | k in keys)
    ensures forall k :: k in AsMap(SetRows(rows, keys, name)) ==>
              AsMap(SetRows(rows, keys, name))[k] == if k in keys then name else AsMap(rows)[k]
    decreases keys
  {
    if keys != [] {
      SetRowSets(rows, keys[0], name);
      SetRowsSet(SetRow(rows, keys[0], name), keys[1..], name);
      assert forall k :: k in keys <==> k == keys[0] || k in keys[1..];
    }
  }

  lemma {:induction false} AddRowsAdd(rows: seq<Alias>, keys: seq<string>, name: string)
    requires WellKeyed(rows)
    ensures WellKeyed(AddRows(rows, keys, name)) && rows <= AddRows(rows, keys, name)
    ensures AsMap(AddRows(rows, keys, name)) == AddedMap(AsMap(rows), (set k | k in keys), name)
    decreases keys
  {
    if keys != [] {
      AddRowAdds(rows, keys[0], name);
      AddRowsAdd(AddRow(rows, keys[0], name), keys[1..], name);
      AddedOneByOne(AsMap(rows), keys, name);
    } else {
      assert AddedMap(AsMap(rows), {}, name) == AsMap(rows);
    }
  }

  lemma AddedOneByOne(m: map<string, string>, keys: seq<string>, name: string)
    requires keys != []
    ensures AddedMap(if keys[0] in m then m else m[keys[0] := name], (set k | k in keys[1..]), name)
         == AddedMap(m, (set k | k in keys), name)
  {
    assert forall k :: k in keys <==> k == keys[0] || k in keys[1..];
  }

  /** `merge`'s first pass: rows at a name being folded away come along. */
  function Followed(ak: string -> string, rows: seq<Alias>, requested: set<string>, keep: string): (followed: seq<Alias>)
    ensures |followed| == |rows|
  {
    seq(|rows|, i requires 0 <= i < |rows| =>
      if ak(rows[i].canonical) in requested && rows[i].key != ak(keep) then rows[i].(canonical := keep) else rows[i])
  }

  function FollowedMap(ak: string -> string, m: map<string, string>, requested: set<string>, keep: string): map<string, string>
  {
    map k | k in m :: if ak(m[k]) in requested && k != ak(keep) then keep else m[k]
  }

  lemma FollowedIsKeyed(ak: string -> string, rows: seq<Alias>, requested: set<string>, keep: string)
    requires WellKeyed(rows)
    ensures WellKeyed(Followed(ak, rows, requested, keep))
  {
  }

  lemma FollowedFollows(ak: string -> string, rows: seq<Alias>, requested: set<string>, keep: string)
    requires WellKeyed(rows)
    ensures WellKeyed(Followed(ak, rows, requested, keep))
    ensures AsMap(Followed(ak, rows, requested, keep)) == FollowedMap(ak, AsMap(rows), requested, keep)
  {
    var followed, m := Followed(ak, rows, requested, keep), FollowedMap(ak, AsMap(rows), requested, keep);
    assert m.Keys == AsMap(rows).Keys;
    forall i | 0 <= i < |rows| ensures rows[i].key in m && m[rows[i].key] == followed[i].canonical {
      AsMapReads(rows, i);
    }
    EditedRows(rows, followed, m);
  }

  /** What `merge` leaves in the table: the first pass, then a row for every requested key in order. */
  function MergedRows(ak: string -> string, rows: seq<Alias>, keys: seq<string>, keep: string): seq<Alias>
  {
    SetRows(Followed(ak, rows, (set k | k in keys), keep), keys, keep)
  }

  /** It is the map the theory of who each key means speaks of. */
  lemma MergedRowsMap(ak: string -> string, rows: seq<Alias>, keys: seq<string>, keep: string)
    requires WellKeyed(rows)
    ensures WellKeyed(MergedRows(ak, rows, keys, keep))
    ensures AsMap(MergedRows(ak, rows, keys, keep)) == MergedMap(ak, AsMap(rows), (set k | k in keys), keep)
  {
    var requested := set k | k in keys;
    FollowedFollows(ak, rows, requested, keep);
    SetRowsSet(Followed(ak, rows, requested, keep), keys, keep);
    PassesMerge(ak, AsMap(rows), requested, keep, AsMap(MergedRows(ak, rows, keys, keep)));
  }

  lemma PassesMerge(ak: string -> string, m: map<string, string>, requested: set<string>, keep: string, after: map<string, string>)
    requires after.Keys == FollowedMap(ak, m, requested, keep).Keys + requested
    requires forall k :: k in after ==> after[k] == if k in requested then keep else FollowedMap(ak, m, requested, keep)[k]
    ensures after == MergedMap(ak, m, requested, keep)
  {
    assert after.Keys == MergedMap(ak, m, requested, keep).Keys;
  }

  // ── Deleting ──────────────────────────────────────────────────────────────

  function WithoutAll(rows: seq<Alias>, ids: set<nat>): seq<Alias>
  {
    if rows == [] then []
    else if rows[0].id in ids then WithoutAll(rows[1..], ids)
    else [rows[0]] + WithoutAll(rows[1..], ids)
  }

  lemma {:induction false} WithoutKeepsTheRest(rows: seq<Alias>, ids: set<nat>)
    requires WellKeyed(rows)
    ensures WellKeyed(WithoutAll(rows, ids))
    ensures forall row :: row in WithoutAll(rows, ids) <==> row in rows && row.id !in ids
  {
    WithoutHas(rows, ids);
    if rows != [] {
      TailIsAfter(rows, rows[1..]);
      WithoutKeepsTheRest(rows[1..], ids);
      KeyedByOneMore(rows[0], WithoutAll(rows[1..], ids));
    }
  }

  /** This row is before all of those, by id, and no other has its key. */
  ghost predicate IsBeforeAll(row: Alias, rows: seq<Alias>)
  {
    forall other :: other in rows ==> other.key != row.key && row.id < other.id
  }

  lemma TailIsAfter(rows: seq<Alias>, tail: seq<Alias>)
    requires WellKeyed(rows) && rows != [] && tail == rows[1..]
    ensures WellKeyed(tail) && IsBeforeAll(rows[0], tail)
  {
    forall other | other in tail ensures other.key != rows[0].key && rows[0].id < other.id {
      var k :| 0 <= k < |tail| && tail[k] == other;
      assert rows[k + 1] == other;
    }
  }

  lemma KeyedByOneMore(row: Alias, rest: seq<Alias>)
    requires WellKeyed(rest) && IsBeforeAll(row, rest)
    ensures WellKeyed([row] + rest)
  {
    forall j | 0 <= j < |rest| ensures rest[j].key != row.key && row.id < rest[j].id {
      assert rest[j] in rest;
    }
  }

  lemma {:induction false} WithoutHas(rows: seq<Alias>, ids: set<nat>)
    ensures forall row :: row in WithoutAll(rows, ids) <==> row in rows && row.id !in ids
  {
    if rows != [] {
      WithoutHas(rows[1..], ids);
      assert forall row :: row in rows <==> row == rows[0] || row in rows[1..];
    }
  }

  lemma {:induction false} WithoutOfTail(rows: seq<Alias>, n: nat, ids: set<nat>)
    requires n <= |rows|
    requires forall i :: 0 <= i < |rows| ==> (rows[i].id in ids <==> n <= i)
    ensures WithoutAll(rows, ids) == rows[..n]
  {
    if rows != [] {
      WithoutOfTail(rows[1..], if n == 0 then 0 else n - 1, ids);
      if n > 0 {
        assert [rows[0]] + rows[1..][..n - 1] == rows[..n];
      }
    }
  }

  /** A row is in the table exactly where the map has its key at its name. */
  lemma LookupOfRow(rows: seq<Alias>, row: Alias)
    requires WellKeyed(rows) && row in rows
    ensures row.key in AsMap(rows) && AsMap(rows)[row.key] == row.canonical
  {
    var i :| 0 <= i < |rows| && rows[i] == row;
    AsMapReads(rows, i);
  }

  lemma DistinctRows(rows: seq<Alias>, i: nat, j: nat)
    requires WellKeyed(rows) && i < |rows| && j < |rows| && i != j
    ensures rows[i].id != rows[j].id && rows[i].key != rows[j].key
  {
    if j < i { assert rows[j].id < rows[i].id; }
  }

  /** Deleting one row takes its key out of the map and leaves everything else. */
  lemma WithoutMap(rows: seq<Alias>, i: nat)
    requires WellKeyed(rows) && i < |rows|
    ensures WellKeyed(WithoutAll(rows, {rows[i].id}))
    ensures AsMap(WithoutAll(rows, {rows[i].id})) == AsMap(rows) - {rows[i].key}
  {
    WithoutKeepsTheRest(rows, {rows[i].id});
    RestMap(rows, i, WithoutAll(rows, {rows[i].id}));
  }

  lemma RestMap(rows: seq<Alias>, i: nat, rest: seq<Alias>)
    requires WellKeyed(rows) && WellKeyed(rest) && i < |rows|
    requires forall row :: row in rest <==> row in rows && row.id != rows[i].id
    ensures AsMap(rest) == AsMap(rows) - {rows[i].key}
  {
    var was, now := AsMap(rows), AsMap(rest);
    forall k | k in now ensures k != rows[i].key && k in was && was[k] == now[k] {
      WithoutLookup(rows, i, rest, k);
    }
    forall k | k in was && k != rows[i].key ensures k in now {
      OtherLookup(rows, i, rest, k);
    }
    LessOneKey(was, now, rows[i].key);
  }

  lemma LessOneKey(was: map<string, string>, now: map<string, string>, key: string)
    requires forall k :: k in now ==> k != key && k in was && was[k] == now[k]
    requires forall k :: k in was && k != key ==> k in now
    ensures now == was - {key}
  {
  }

  lemma WithoutLookup(rows: seq<Alias>, i: nat, rest: seq<Alias>, k: string)
    requires WellKeyed(rows) && i < |rows| && k in AsMap(rest)
    requires forall row :: row in rest ==> row in rows && row.id != rows[i].id
    ensures k != rows[i].key && k in AsMap(rows) && AsMap(rows)[k] == AsMap(rest)[k]
  {
    var j := AsMapFinds(rest, k);
    assert rest[j] in rest;
    var h :| 0 <= h < |rows| && rows[h] == rest[j];
    DistinctRows(rows, i, h);
    AsMapReads(rows, h);
  }

  lemma OtherLookup(rows: seq<Alias>, i: nat, rest: seq<Alias>, k: string)
    requires WellKeyed(rows) && WellKeyed(rest) && i < |rows| && k in AsMap(rows) && k != rows[i].key
    requires forall row :: row in rows && row.id != rows[i].id ==> row in rest
    ensures k in AsMap(rest)
  {
    var j := AsMapFinds(rows, k);
    DistinctRows(rows, i, j);
    assert rows[j] in rows;
    LookupOfRow(rest, rows[j]);
  }
}
