/** What merging does to the alias map, at the level of who each key means:
    the effect of `merge`'s two passes, `_resolved_keep_name`, `_AliasIndex` and `_would_repoint`. */
module Repoint {
  import opened Strings
  import opened Aliases

  /** The keys a request names, compared the way the rows are keyed. */
  function Requested(ak: string -> string, keys: seq<string>): set<string>
  {
    set k | k in keys :: ak(k)
  }

  /** The name to keep, followed one hop where it is itself folded by a row outside the request. */
  function KeepName(ak: string -> string, m: map<string, string>, requested: set<string>, name: string): string
  {
    if ak(name) in m && ak(name) !in requested then m[ak(name)] else name
  }

  /** The map after a merge: rows at a requested key come along, and every requested key gets a row. */
  function MergedMap(ak: string -> string, m: map<string, string>, requested: set<string>, keep: string): map<string, string>
  {
    map k | k in m.Keys + requested ::
      if k in requested || (ak(m[k]) in requested && k != ak(keep)) then keep else m[k]
  }

  /** The map after one group of a batch: rows are added where there was none, and none is changed. */
  function AddedMap(m: map<string, string>, requested: set<string>, keep: string): map<string, string>
  {
    map k | k in m.Keys + requested :: if k in m then m[k] else keep
  }

  /** Merging keeps one lookup enough. */
  lemma MergeKeepsFlat(ak: string -> string, m: map<string, string>, requested: set<string>, name: string)
    requires Flat(ak, m)
    ensures Flat(ak, MergedMap(ak, m, requested, KeepName(ak, m, requested, name)))
  {
    var keep := KeepName(ak, m, requested, name);
    var after := MergedMap(ak, m, requested, keep);
    if ak(name) in m {
      assert Stops(ak, m, m[ak(name)]);
    }
    assert Stops(ak, after, keep);
    forall k | k in after ensures Stops(ak, after, after[k]) {
      if after[k] != keep {
        assert Stops(ak, m, m[k]);
      }
    }
  }

  /** A merge moves exactly the requested people, and everybody who meant one of them: to the person
      named where they are one of those, whatever row there is for them, and otherwise to whom the
      name meant. Nobody else's meaning changes. */
  lemma MergeMovesExactly(ak: string -> string, m: map<string, string>, requested: set<string>, name: string, k: string)
    requires Flat(ak, m)
    ensures Person(ak, MergedMap(ak, m, requested, KeepName(ak, m, requested, name)), k)
         == if k in requested || Person(ak, m, k) in requested
            then if ak(name) in requested then ak(name) else Person(ak, m, ak(name))
            else Person(ak, m, k)
  {
    if ak(name) in m {
      assert Stops(ak, m, m[ak(name)]);
    }
  }

  /** Every requested key then carries the name as it was given where it names one of them or nobody
      with a row, and otherwise the name of that row. */
  lemma MergeStores(ak: string -> string, m: map<string, string>, requested: set<string>, name: string, k: string)
    requires k in requested
    ensures var after := MergedMap(ak, m, requested, KeepName(ak, m, requested, name));
            && k in after
            && (ak(name) in requested || ak(name) !in m ==> after[k] == name)
            && (ak(name) !in requested && ak(name) in m ==> after[k] == m[ak(name)])
  {
  }

  /** Merging the same people again under another of them turns the merge round. */
  lemma MergeIsReversed(ak: string -> string, m: map<string, string>, requested: set<string>, name: string, other: string, k: string)
    requires Flat(ak, m) && ak(name) in requested && ak(other) in requested && (k in requested || Person(ak, m, k) in requested)
    ensures var once := MergedMap(ak, m, requested, KeepName(ak, m, requested, name));
            Person(ak, MergedMap(ak, once, requested, KeepName(ak, once, requested, other)), k) == ak(other)
  {
    var once := MergedMap(ak, m, requested, KeepName(ak, m, requested, name));
    MergeKeepsFlat(ak, m, requested, name);
    MergeMovesExactly(ak, m, requested, name, k);
    MergeMovesExactly(ak, once, requested, other, k);
  }

  // ── The alias index ───────────────────────────────────────────────────────

  /** The alias table keyed both ways: who each spelling means, and which spellings mean each person. */
  datatype AliasIndex = AliasIndex(byAlias: map<string, string>, byTarget: map<string, seq<string>>)
  {
    function Meaning(person: string): seq<string>
    {
      if person in byTarget then byTarget[person] else []
    }

    /** Every key a row already says something about: both of its ends. */
    function Decided(): set<string>
    {
      byAlias.Keys + byTarget.Keys
    }
  }

  ghost predicate IndexesAliases(ak: string -> string, m: map<string, string>, index: AliasIndex)
  {
    && index.byAlias.Keys == m.Keys
    && (forall k :: k in m ==> index.byAlias[k] == ak(m[k]))
    && (forall t, a :: a in index.Meaning(t) <==> a in m && ak(m[a]) == t)
    && (forall t :: t in index.byTarget ==> index.byTarget[t] != [])
  }

  method IndexAliases(ak: string -> string, rows: seq<Alias>) returns (index: AliasIndex)
    requires WellKeyed(rows)
    ensures IndexesAliases(ak, AsMap(rows), index)
  {
    var byAlias: map<string, string>, byTarget: map<string, seq<string>> := map[], map[];
    for i := 0 to |rows|
      invariant IndexesAliases(ak, AsMap(rows[..i]), AliasIndex(byAlias, byTarget))
    {
      ghost var was := AliasIndex(byAlias, byTarget);
      var target := ak(rows[i].canonical);
      byAlias := byAlias[rows[i].key := target];
      byTarget := byTarget[target := (if target in byTarget then byTarget[target] else []) + [rows[i].key]];
      assert rows[..i + 1][..i] == rows[..i];
      NewKeyIsNew(rows, i);
      IndexOneMore(ak, AsMap(rows[..i]), was, rows[i].key, rows[i].canonical);
    }
    assert rows[..|rows|] == rows;
    index := AliasIndex(byAlias, byTarget);
  }

  lemma NewKeyIsNew(rows: seq<Alias>, i: nat)
    requires WellKeyed(rows) && i < |rows|
    ensures rows[i].key !in AsMap(rows[..i])
  {
    if rows[i].key in AsMap(rows[..i]) {
      var j := AsMapFinds(rows[..i], rows[i].key);
    }
  }

  lemma IndexOneMore(ak: string -> string, m: map<string, string>, index: AliasIndex, key: string, name: string)
    requires IndexesAliases(ak, m, index) && key !in m
    ensures var target := ak(name);
            IndexesAliases(ak, m[key := name], AliasIndex(index.byAlias[key := target],
              index.byTarget[target := (if target in index.byTarget then index.byTarget[target] else []) + [key]]))
  {
    var target := ak(name);
    var more := AliasIndex(index.byAlias[key := target], index.byTarget[target := index.Meaning(target) + [key]]);
    forall t, a ensures a in more.Meaning(t) <==> a in m[key := name] && ak(m[key := name][a]) == t {
      assert a in index.Meaning(t) <==> a in m && ak(m[a]) == t;
      if t == target {
        assert a in more.Meaning(t) <==> a in index.Meaning(t) || a == key;
      }
    }
  }

  /** Both ends of every row, and nothing else. */
  lemma DecidedIsBothEnds(ak: string -> string, m: map<string, string>, index: AliasIndex, k: string)
    requires IndexesAliases(ak, m, index)
    ensures k in index.Decided() <==> k in m || exists a :: a in m && ak(m[a]) == k
  {
    if k in index.byTarget {
      var a := index.byTarget[k][0];
      assert a in index.Meaning(k);
      assert a in m && ak(m[a]) == k;
    }
    if a :| a in m && ak(m[a]) == k {
      assert a in index.Meaning(k);
    }
  }

  /** `_would_repoint`: a row for one of these keys means somebody else, or another row means one of them. */
  predicate WouldRepoint(index: AliasIndex, requested: set<string>, keepKey: string)
  {
    || (exists key :: key in requested && key in index.byAlias && index.byAlias[key] != keepKey)
    || (exists key :: key in requested && key != keepKey && exists alias :: alias in index.Meaning(key) && alias != keepKey)
  }

  /** The rule is exact: it holds if and only if the two passes of a merge would change whom
      some existing row means. */
  lemma WouldRepointIsExact(ak: string -> string, m: map<string, string>, index: AliasIndex, requested: set<string>, keep: string)
    requires IndexesAliases(ak, m, index)
    ensures WouldRepoint(index, requested, ak(keep))
       <==> exists k :: k in m && ak(MergedMap(ak, m, requested, keep)[k]) != ak(m[k])
  {
    var after := MergedMap(ak, m, requested, keep);
    if WouldRepoint(index, requested, ak(keep)) {
      if key :| key in requested && key in index.byAlias && index.byAlias[key] != ak(keep) {
        assert ak(after[key]) != ak(m[key]);
      } else {
        var key :| key in requested && key != ak(keep) && exists alias :: alias in index.Meaning(key) && alias != ak(keep);
        var alias :| alias in index.Meaning(key) && alias != ak(keep);
        assert ak(after[alias]) != ak(m[alias]);
      }
    }
    if k :| k in m && ak(after[k]) != ak(m[k]) {
      if k in requested {
        assert index.byAlias[k] != ak(keep);
      } else {
        assert ak(m[k]) in requested && k in index.Meaning(ak(m[k]));
      }
    }
  }

  // ── A group that repoints nothing ─────────────────────────────────────────

  /** The same rule read off the map: no requested key's row means anybody but the kept
      person, and no row outside the kept key's own means another requested person. */
  ghost predicate Unrepointed(ak: string -> string, m: map<string, string>, requested: set<string>, keepKey: string)
  {
    && (forall k :: k in requested && k in m ==> ak(m[k]) == keepKey)
    && (forall a :: a in m && ak(m[a]) in requested && a != keepKey ==> ak(m[a]) == keepKey)
  }

  lemma UnrepointedIsTheRule(ak: string -> string, m: map<string, string>, index: AliasIndex, requested: set<string>, keepKey: string)
    requires IndexesAliases(ak, m, index)
    ensures WouldRepoint(index, requested, keepKey) <==> !Unrepointed(ak, m, requested, keepKey)
  {
    if WouldRepoint(index, requested, keepKey) {
      if key :| key in requested && key in index.byAlias && index.byAlias[key] != keepKey {
        assert key in m && ak(m[key]) != keepKey;
      } else {
        var key :| key in requested && key != keepKey && exists alias :: alias in index.Meaning(key) && alias != keepKey;
        var alias :| alias in index.Meaning(key) && alias != keepKey;
        assert alias in m && ak(m[alias]) == key;
      }
    } else {
      forall a | a in m && ak(m[a]) in requested && a != keepKey ensures ak(m[a]) == keepKey {
        assert a in index.Meaning(ak(m[a]));
      }
    }
  }

  /** Who each key a row is for means. */
  function KeyMap(ak: string -> string, m: map<string, string>): map<string, string>
  {
    map k | k in m :: ak(m[k])
  }

  /** Where a group repoints nothing, adding its missing rows is the whole of what merging it does. */
  lemma AddingIsMerging(ak: string -> string, m: map<string, string>, n: map<string, string>, requested: set<string>, keep: string)
    requires ak(keep) in requested && Unrepointed(ak, m, requested, ak(keep))
    requires KeyMap(ak, m) == KeyMap(ak, n)
    ensures KeyMap(ak, AddedMap(m, requested, keep)) == KeyMap(ak, MergedMap(ak, n, requested, KeepName(ak, n, requested, keep)))
  {
    assert forall k :: k in KeyMap(ak, m) <==> k in m;
    assert forall k :: k in KeyMap(ak, n) <==> k in n;
    var a, b := KeyMap(ak, AddedMap(m, requested, keep)), KeyMap(ak, MergedMap(ak, n, requested, keep));
    assert a.Keys == b.Keys;
    forall k | k in a ensures a[k] == b[k] {
      if k in m {
        assert KeyMap(ak, m)[k] == KeyMap(ak, n)[k];
      }
    }
  }

  /** Whether a group repoints anything depends on the map only through whom its keys mean. */
  lemma UnrepointedReadsKeys(ak: string -> string, m: map<string, string>, n: map<string, string>, requested: set<string>, keepKey: string)
    requires KeyMap(ak, m) == KeyMap(ak, n)
    ensures Unrepointed(ak, m, requested, keepKey) <==> Unrepointed(ak, n, requested, keepKey)
  {
    assert forall k :: k in KeyMap(ak, m) <==> k in m;
    assert forall k :: k in KeyMap(ak, n) <==> k in n;
    assert forall k :: k in m ==> ak(m[k]) == KeyMap(ak, m)[k];
    assert forall k :: k in n ==> ak(n[k]) == KeyMap(ak, n)[k];
  }

  /** Adding one group's rows changes nothing for a group it shares no key with. */
  lemma GroupsDoNotInteract(ak: string -> string, m: map<string, string>, mine: set<string>, keep: string, theirs: set<string>, keepKey: string)
    requires mine !! theirs && ak(keep) in mine && keepKey in theirs
    ensures Unrepointed(ak, AddedMap(m, mine, keep), theirs, keepKey) <==> Unrepointed(ak, m, theirs, keepKey)
  {
    var after := AddedMap(m, mine, keep);
    assert forall k :: k in m ==> k in after && after[k] == m[k];
    assert forall k :: k in after && k !in m ==> k in mine && after[k] == keep;
    if Unrepointed(ak, after, theirs, keepKey) {
      forall a | a in m && ak(m[a]) in theirs && a != keepKey ensures ak(m[a]) == keepKey {
        assert ak(after[a]) in theirs;
      }
    }
  }

  /** Adding a group that repoints nothing keeps the map flat. */
  lemma AddingKeepsFlat(ak: string -> string, m: map<string, string>, requested: set<string>, keep: string)
    requires Flat(ak, m) && ak(keep) in requested && Unrepointed(ak, m, requested, ak(keep))
    ensures Flat(ak, AddedMap(m, requested, keep))
  {
    var after := AddedMap(m, requested, keep);
    forall k | k in after ensures Stops(ak, after, after[k]) {
      if k in m {
        assert Stops(ak, m, m[k]);
      }
    }
  }

  /** Taking a row away keeps the map flat: this is all `unmerge` does. */
  lemma RemovingKeepsFlat(ak: string -> string, m: map<string, string>, gone: string)
    requires Flat(ak, m)
    ensures Flat(ak, m - {gone})
  {
    forall k | k in m - {gone} ensures Stops(ak, m - {gone}, m[k]) {
      assert Stops(ak, m, m[k]);
    }
  }

  /** Deleting the row a merge wrote for `k` restores the map exactly where that row is new and all
      the merge wrote: there was none for `k`, every other requested key already read so, and no row
      came along. */
  lemma UnmergeRestoresIff(ak: string -> string, m: map<string, string>, requested: set<string>, keep: string, k: string)
    requires k in requested
    ensures MergedMap(ak, m, requested, keep) - {k} == m
       <==> (k !in m
             && (forall j :: j in requested && j != k ==> j in m && m[j] == keep)
             && (forall a :: a in m && ak(m[a]) in requested && a != ak(keep) ==> m[a] == keep))
  {
    var after := MergedMap(ak, m, requested, keep);
    assert forall j :: j in after - {k} <==> j in after && j != k;
    if after - {k} == m {
      assert k !in after - {k};
      assert forall j :: j in m ==> j in after - {k} && (after - {k})[j] == after[j];
      forall j | j in requested && j != k ensures j in m && m[j] == keep {
        assert j in after - {k};
      }
    }
  }

  /** So undoing a merge does not always restore what was before it: `a` meant `b`, `b` is then
      merged into `c`, and deleting the row for `b` leaves `a` meaning `c`. */
  lemma UnmergeDoesNotAlwaysRestore()
    ensures var ak: string -> string := name => name;
            var m := map["a" := "b"];
            MergedMap(ak, m, {"b"}, "c") - {"b"} == map["a" := "c"]
  {
    var ak: string -> string := name => name;
    assert MergedMap(ak, map["a" := "b"], {"b"}, "c") == map["a" := "c", "b" := "c"];
  }
}
