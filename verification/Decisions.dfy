/** Author identity as members decide it: `Authorship.merge`, `merge_batch` and `unmerge`,
    against the index the alias table and the visible shelf give. */
module Decisions {
  import opened Sequences
  import opened Wrappers
  import opened Strings
  import opened Aliases
  import opened Index
  import opened Repoint
  import opened Table
  import opened Batches

  /** One group of a batch request: fold these spellings into this one of them. */
  datatype Group = Group(keys: seq<string>, keep: string)

  function KeysOf(ak: string -> string, keys: seq<string>): (all: seq<string>)
    ensures |all| == |keys|
  {
    seq(|keys|, i requires 0 <= i < |keys| => ak(keys[i]))
  }

  /** `sorted({author_key(key) for key in keys})`. */
  function InOrder(ak: string -> string, keys: seq<string>): seq<string>
  {
    SortedKeys(KeysOf(ak, keys))
  }

  lemma InOrderIsRequested(ak: string -> string, keys: seq<string>)
    ensures Ascending(InOrder(ak, keys))
    ensures forall k :: k in InOrder(ak, keys) <==> k in Requested(ak, keys)
    ensures (set k | k in InOrder(ak, keys)) == Requested(ak, keys)
  {
    var all := KeysOf(ak, keys);
    SortedKeysAreAscending(all);
    forall k ensures k in all <==> k in Requested(ak, keys) {
      if k in all {
        var i :| 0 <= i < |all| && all[i] == k;
        assert keys[i] in keys;
      }
      if k in Requested(ak, keys) {
        var i :| 0 <= i < |keys| && ak(keys[i]) == k;
        assert all[i] == k;
      }
    }
  }

  function PlanOf(ak: string -> string, group: Group): Plan
  {
    Plan(InOrder(ak, group.keys), group.keep)
  }

  function PlansOf(ak: string -> string, groups: seq<Group>): (plans: seq<Plan>)
    ensures |plans| == |groups|
  {
    seq(|groups|, g requires 0 <= g < |groups| => PlanOf(ak, groups[g]))
  }

  // ── The shelf ─────────────────────────────────────────────────────────────

  /** Somebody in the visible index, or a key that one of its entries says was folded into it. */
  function ReachableIn(index: map<string, Entry>): set<string>
  {
    index.Keys + (set k, a | k in index.Keys && a in index[k].folded :: a)
  }

  /** The entry a write answers with, out of the index read after it. */
  function Answer(ak: string -> string, index: map<string, Entry>, name: string): Result<Entry, Refusal>
  {
    if ak(name) in index then Ok(index[ak(name)]) else Err(AuthorNotFound)
  }

  /** One answer per group, out of one index. */
  ghost predicate Answers(ak: string -> string, index: map<string, Entry>, groups: seq<Group>, entries: seq<Entry>)
  {
    && |entries| == |groups|
    && forall g :: 0 <= g < |groups| ==> ak(groups[g].keep) in index && entries[g] == index[ak(groups[g].keep)]
  }

  method AnswerEach(ak: string -> string, index: map<string, Entry>, groups: seq<Group>) returns (answer: Result<seq<Entry>, Refusal>)
    ensures answer.Ok? ==> Answers(ak, index, groups, answer.value)
    ensures answer.Ok? <==> forall g :: 0 <= g < |groups| ==> ak(groups[g].keep) in index
  {
    var merged: seq<Entry> := [];
    for g := 0 to |groups|
      invariant |merged| == g
      invariant forall h :: 0 <= h < g ==> ak(groups[h].keep) in index && merged[h] == index[ak(groups[h].keep)]
    {
      if ak(groups[g].keep) !in index {
        return Err(AuthorNotFound);
      }
      merged := merged + [index[ak(groups[g].keep)]];
    }
    answer := Ok(merged);
  }

  /** Some visible person carries this spelling folded into them. */
  predicate FoldedIn(index: map<string, Entry>, key: string)
  {
    exists k :: k in index && key in index[k].folded
  }

  /** Somebody visible is spelled so that this key is theirs, or their spelling means it. */
  ghost predicate Evidence(ak: string -> string, m: map<string, string>, occ: seq<Occurrence>, k: string, o: Occurrence)
  {
    o in occ && (ak(o.spelling) == k || Person(ak, m, ak(o.spelling)) == k)
  }

  /** Somebody reachable is evidenced by a visible book, and whoever is evidenced is reachable. */
  lemma ReachableIff(r: Reading, shelf: seq<Credit>, rows: seq<Alias>, k: string)
    requires Flat(r.key, AsMap(rows))
    ensures k in ReachableIn(IndexOf(r, shelf, rows)) <==> IsEvidenced(r.key, AsMap(rows), Occurrences(r.split, shelf), k)
  {
    var m, occ := AsMap(rows), Occurrences(r.split, shelf);
    if k in ReachableIn(IndexOf(r, shelf, rows)) {
      var o := ReachableIsEvidenced(r, shelf, rows, k);
    }
    if o :| Evidence(r.key, m, occ, k, o) {
      EvidenceReaches(r, shelf, rows, k, o);
    }
  }

  lemma EvidenceReaches(r: Reading, shelf: seq<Credit>, rows: seq<Alias>, k: string, o: Occurrence)
    requires Flat(r.key, AsMap(rows)) && Evidence(r.key, AsMap(rows), Occurrences(r.split, shelf), k, o)
    ensures k in ReachableIn(IndexOf(r, shelf, rows))
  {
    var m := AsMap(rows);
    FlatIsResolved(r.key, m);
    EvidencedIsReachable(Meaning(r.key, m), FoldKey(r.key, m), Chosen(r.key, ResolvedNames(r.key, rows)), Occurrences(r.split, shelf),
                         IndexOf(r, shelf, rows), o);
  }

  ghost predicate IsEvidenced(ak: string -> string, m: map<string, string>, occ: seq<Occurrence>, k: string)
  {
    exists o :: Evidence(ak, m, occ, k, o)
  }

  lemma EvidencedIsReachable(who: string -> string, fold: string -> Option<string>, chosen: map<string, string>, occ: seq<Occurrence>,
                             index: map<string, Entry>, o: Occurrence)
    requires IndexedBy(who, fold, chosen, occ, index) && o in occ
    ensures who(o.spelling) in ReachableIn(index)
    ensures fold(o.spelling).Some? ==> fold(o.spelling).value in ReachableIn(index) && FoldedIn(index, fold(o.spelling).value)
  {
    var k := who(o.spelling);
    assert k in People(who, occ);
    assert IsEntryFor(who, fold, chosen, occ, k, index[k]);
    if fold(o.spelling).Some? {
      assert fold(o.spelling).value in FoldedOf(who, fold, occ, k);
    }
  }

  /** A row's key is folded in sight of a member exactly where a book they see prints a spelling of it. */
  lemma FoldedInIff(r: Reading, shelf: seq<Credit>, rows: seq<Alias>, key: string)
    requires key in AsMap(rows)
    ensures FoldedIn(IndexOf(r, shelf, rows), key) <==> exists o :: o in Occurrences(r.split, shelf) && r.key(o.spelling) == key
  {
    var m, occ, index := AsMap(rows), Occurrences(r.split, shelf), IndexOf(r, shelf, rows);
    var resolved := Resolved(r.key, m);
    if FoldedIn(index, key) {
      var e :| e in index && key in index[e].folded;
      assert IsEntryFor(Meaning(r.key, resolved), FoldKey(r.key, resolved), Chosen(r.key, ResolvedNames(r.key, rows)), occ, e, index[e]);
      var o :| o in occ && FoldKey(r.key, resolved)(o.spelling).Some? && FoldKey(r.key, resolved)(o.spelling).value == key;
    }
    if o :| o in occ && r.key(o.spelling) == key {
      EvidencedIsReachable(Meaning(r.key, resolved), FoldKey(r.key, resolved), Chosen(r.key, ResolvedNames(r.key, rows)), occ, index, o);
    }
  }

  /** Everything reachable is evidenced by a visible book. */
  lemma ReachableIsEvidenced(r: Reading, shelf: seq<Credit>, rows: seq<Alias>, k: string) returns (o: Occurrence)
    requires Flat(r.key, AsMap(rows)) && k in ReachableIn(IndexOf(r, shelf, rows))
    ensures Evidence(r.key, AsMap(rows), Occurrences(r.split, shelf), k, o)
  {
    var m, occ, index := AsMap(rows), Occurrences(r.split, shelf), IndexOf(r, shelf, rows);
    FlatIsResolved(r.key, m);
    if k in index {
      o := PersonIsSpelled(r.key, m, occ, k);
    } else {
      var e :| e in index && k in index[e].folded;
      o := FoldedIsSpelled(r.key, m, occ, e, k);
    }
  }

  lemma PersonIsSpelled(ak: string -> string, m: map<string, string>, occ: seq<Occurrence>, k: string) returns (o: Occurrence)
    requires k in People(Meaning(ak, m), occ)
    ensures Evidence(ak, m, occ, k, o)
  {
    o :| o in occ && Meaning(ak, m)(o.spelling) == k;
  }

  lemma FoldedIsSpelled(ak: string -> string, m: map<string, string>, occ: seq<Occurrence>, e: string, k: string) returns (o: Occurrence)
    requires k in FoldedOf(Meaning(ak, m), FoldKey(ak, m), occ, e)
    ensures Evidence(ak, m, occ, k, o)
  {
    o :| o in occ && FoldKey(ak, m)(o.spelling).Some? && FoldKey(ak, m)(o.spelling).value == k;
  }

  /** Whoever a visible spelling means is in the index. */
  lemma MeaningIsIndexed(r: Reading, shelf: seq<Credit>, rows: seq<Alias>, o: Occurrence)
    requires Flat(r.key, AsMap(rows)) && o in Occurrences(r.split, shelf)
    ensures Person(r.key, AsMap(rows), r.key(o.spelling)) in IndexOf(r, shelf, rows)
  {
    var m, occ := AsMap(rows), Occurrences(r.split, shelf);
    FlatIsResolved(r.key, m);
    assert Meaning(r.key, m)(o.spelling) in People(Meaning(r.key, m), occ);
  }

  /** Without a race the second index read of a merge finds the person kept, so the refusal
      after its commit is unreachable. */
  lemma MergeFindsItsAuthor(r: Reading, shelf: seq<Credit>, rows: seq<Alias>, keys: seq<string>, name: string)
    requires WellKeyed(rows) && Flat(r.key, AsMap(rows))
    requires keys != [] && Requested(r.key, keys) <= ReachableIn(IndexOf(r, shelf, rows))
    ensures var keep := KeepName(r.key, AsMap(rows), Requested(r.key, keys), name);
            r.key(keep) in IndexOf(r, shelf, MergedRows(r.key, rows, InOrder(r.key, keys), keep))
  {
    var requested := Requested(r.key, keys);
    var keep := KeepName(r.key, AsMap(rows), requested, name);
    var after := MergedRows(r.key, rows, InOrder(r.key, keys), keep);
    InOrderIsRequested(r.key, keys);
    MergedRowsMap(r.key, rows, InOrder(r.key, keys), keep);
    MergeKeepsFlat(r.key, AsMap(rows), requested, name);
    assert r.key(keys[0]) in requested;
    var o := ReachableIsEvidenced(r, shelf, rows, r.key(keys[0]));
    MergeMovesExactly(r.key, AsMap(rows), requested, name, r.key(o.spelling));
    MeaningIsIndexed(r, shelf, after, o);
  }

  /** Without a race every group of an accepted batch is answered. */
  lemma BatchFindsItsAuthors(r: Reading, shelf: seq<Credit>, rows: seq<Alias>, plans: seq<Plan>, plan: Plan)
    requires WellKeyed(rows) && Flat(r.key, AsMap(rows)) && WellFormed(r.key, plans) && plan in plans
    requires BatchRefusal(r.key, AsMap(rows), ReachableIn(IndexOf(r, shelf, rows)), plans).None?
    ensures r.key(plan.keep) in IndexOf(r, shelf, BatchRows(rows, plans))
  {
    AcceptedIsUnrepointed(r.key, AsMap(rows), ReachableIn(IndexOf(r, shelf, rows)), plans);
    var g :| 0 <= g < |plans| && plans[g] == plan;
    assert r.key(plan.keep) in Keys(plan);
    var o := ReachableIsEvidenced(r, shelf, rows, r.key(plan.keep));
    BatchOnlyAdds(rows, plans);
    BatchFoldsItsGroups(r.key, AsMap(rows), plans, plan, r.key(o.spelling));
    BatchKeepsFlat(r.key, AsMap(rows), plans);
    MeaningIsIndexed(r, shelf, BatchRows(rows, plans), o);
  }

  lemma AcceptedIsUnrepointed(ak: string -> string, m: map<string, string>, reachable: set<string>, plans: seq<Plan>)
    requires BatchRefusal(ak, m, reachable, plans).None?
    ensures AllUnrepointed(ak, m, plans)
    ensures forall plan :: plan in plans ==> Keys(plan) <= reachable && Unrepointed(ak, m, Keys(plan), ak(plan.keep))
  {
    BatchRefusesIff(ak, m, reachable, plans);
    forall g | 0 <= g < |plans| ensures Unrepointed(ak, m, Keys(plans[g]), ak(plans[g].keep)) {
      assert plans[g] in plans;
    }
  }

  /** What the two checks of one group find is what its plan is refused for. */
  lemma GroupRefusalIs(ak: string -> string, m: map<string, string>, index: AliasIndex, reachable: set<string>, group: Group)
    requires IndexesAliases(ak, m, index)
    ensures PlanRefusal(ak, m, reachable, PlanOf(ak, group))
         == if !(Requested(ak, group.keys) <= reachable) then Some(AuthorNotFound)
            else if WouldRepoint(index, Requested(ak, group.keys), ak(group.keep)) then Some(DecisionStands(InOrder(ak, group.keys)))
            else None
  {
    InOrderIsRequested(ak, group.keys);
    assert Keys(PlanOf(ak, group)) == Requested(ak, group.keys);
    UnrepointedIsTheRule(ak, m, index, Requested(ak, group.keys), ak(group.keep));
  }

  method FirstRefusal(ak: string -> string, ghost m: map<string, string>, index: AliasIndex, reachable: set<string>, groups: seq<Group>)
      returns (refusal: Option<Refusal>)
    requires IndexesAliases(ak, m, index)
    ensures refusal == BatchRefusal(ak, m, reachable, PlansOf(ak, groups))
  {
    ghost var plans := PlansOf(ak, groups);
    assert plans[0..] == plans;
    for g := 0 to |groups|
      invariant BatchRefusal(ak, m, reachable, plans[g..]) == BatchRefusal(ak, m, reachable, plans)
    {
      assert plans[g..][1..] == plans[g + 1..];
      GroupRefusalIs(ak, m, index, reachable, groups[g]);
      var requested := Requested(ak, groups[g].keys);
      if !(requested <= reachable) {
        return Some(AuthorNotFound);
      }
      if WouldRepoint(index, requested, ak(groups[g].keep)) {
        return Some(DecisionStands(InOrder(ak, groups[g].keys)));
      }
    }
    refusal := None;
  }

  // ── Undoing ───────────────────────────────────────────────────────────────

  method RowWithId(rows: seq<Alias>, id: nat) returns (i: nat)
    ensures i <= |rows| && (i < |rows| ==> rows[i].id == id)
    ensures forall j :: 0 <= j < i ==> rows[j].id != id
  {
    i := 0;
    while i < |rows| && rows[i].id != id
      invariant 0 <= i <= |rows| && forall j :: 0 <= j < i ==> rows[j].id != id
    {
      i := i + 1;
    }
  }

  /** There is such a row, and this member can see a spelling it folds. */
  ghost predicate Undoable(rows: seq<Alias>, index: map<string, Entry>, id: nat)
  {
    exists row :: row in rows && row.id == id && FoldedIn(index, row.key)
  }

  /** Undoable is printed: some book this member sees carries a spelling whose key the row is for. */
  lemma UndoableIff(r: Reading, shelf: seq<Credit>, rows: seq<Alias>, id: nat)
    requires WellKeyed(rows)
    ensures Undoable(rows, IndexOf(r, shelf, rows), id)
       <==> exists row, o :: row in rows && row.id == id && o in Occurrences(r.split, shelf) && r.key(o.spelling) == row.key
  {
    forall row | row in rows
      ensures FoldedIn(IndexOf(r, shelf, rows), row.key) <==> exists o :: o in Occurrences(r.split, shelf) && r.key(o.spelling) == row.key
    {
      var i :| 0 <= i < |rows| && rows[i] == row;
      AsMapReads(rows, i);
      FoldedInIff(r, shelf, rows, row.key);
    }
  }

  lemma {:induction false} WithoutOne(rows: seq<Alias>, id: nat)
    ensures forall row :: row in WithoutAll(rows, {id}) <==> row in rows && row.id != id
  {
    if rows != [] {
      WithoutOne(rows[1..], id);
      assert forall row :: row in rows <==> row == rows[0] || row in rows[1..];
    }
  }

  lemma OnlyRowWithId(rows: seq<Alias>, i: nat)
    requires WellKeyed(rows) && i < |rows|
    ensures forall row :: row in rows && row.id == rows[i].id ==> row == rows[i]
  {
    forall row | row in rows && row.id == rows[i].id ensures row == rows[i] {
      var j :| 0 <= j < |rows| && rows[j] == row;
      if i != j { DistinctRows(rows, i, j); }
    }
  }

  lemma UndoKeepsFlat(ak: string -> string, rows: seq<Alias>, index: map<string, Entry>, id: nat)
    requires WellKeyed(rows) && Undoable(rows, index, id)
    ensures WellKeyed(WithoutAll(rows, {id}))
    ensures Flat(ak, AsMap(rows)) ==> Flat(ak, AsMap(WithoutAll(rows, {id})))
  {
    var row :| row in rows && row.id == id;
    var i :| 0 <= i < |rows| && rows[i] == row;
    WithoutMap(rows, i);
    if Flat(ak, AsMap(rows)) {
      RemovingKeepsFlat(ak, AsMap(rows), rows[i].key);
    }
  }

  // ── What a merge says ─────────────────────────────────────────────────────

  /** The requested keys carry the name as given where it is one of theirs or nobody's with a row, and
      otherwise the name of that row. */
  ghost predicate AreStored(ak: string -> string, m: map<string, string>, after: map<string, string>, requested: set<string>, name: string)
  {
    forall k :: k in requested ==>
      && k in after
      && (ak(name) in requested || ak(name) !in m ==> after[k] == name)
      && (ak(name) !in requested && ak(name) in m ==> after[k] == m[ak(name)])
  }

  /** Whom a request names: one of those it is about, or whoever the name means. */
  ghost function PersonNamed(ak: string -> string, m: map<string, string>, requested: set<string>, name: string): string
  {
    if ak(name) in requested then ak(name) else Person(ak, m, ak(name))
  }

  /** The requested people, and everybody who meant one of them, mean the person named, and nobody else
      means anybody new. */
  ghost predicate AreFolded(ak: string -> string, m: map<string, string>, after: map<string, string>, requested: set<string>, name: string)
  {
    forall k :: Person(ak, after, k)
             == if k in requested || Person(ak, m, k) in requested then PersonNamed(ak, m, requested, name) else Person(ak, m, k)
  }

  lemma MergeIsStored(ak: string -> string, m: map<string, string>, requested: set<string>, name: string)
    ensures AreStored(ak, m, MergedMap(ak, m, requested, KeepName(ak, m, requested, name)), requested, name)
  {
    forall k | k in requested {
      MergeStores(ak, m, requested, name, k);
    }
  }

  lemma MergeIsFolded(ak: string -> string, m: map<string, string>, requested: set<string>, name: string)
    requires Flat(ak, m)
    ensures AreFolded(ak, m, MergedMap(ak, m, requested, KeepName(ak, m, requested, name)), requested, name)
  {
    forall k {
      MergeFoldsOne(ak, m, requested, name, k);
    }
  }

  lemma MergeFoldsOne(ak: string -> string, m: map<string, string>, requested: set<string>, name: string, k: string)
    requires Flat(ak, m)
    ensures Person(ak, MergedMap(ak, m, requested, KeepName(ak, m, requested, name)), k)
         == if k in requested || Person(ak, m, k) in requested then PersonNamed(ak, m, requested, name) else Person(ak, m, k)
  {
    MergeMovesExactly(ak, m, requested, name, k);
  }

  lemma KeptIsNamed(ak: string -> string, m: map<string, string>, requested: set<string>, name: string)
    ensures ak(KeepName(ak, m, requested, name)) == PersonNamed(ak, m, requested, name)
  {
  }

  /** What a merge answers on a flat table: an entry where a visible book is evidence of everybody asked
      for, and then the entry of the person named, whom they now mean. */
  ghost predicate IsMergeAnswer(r: Reading, shelf: seq<Credit>, rows: seq<Alias>, keys: seq<string>, name: string, after: seq<Alias>,
                                answer: Result<Entry, Refusal>)
  {
    && (answer.Ok? <==> forall k :: k in Requested(r.key, keys) ==> IsEvidenced(r.key, AsMap(rows), Occurrences(r.split, shelf), k))
    && (answer.Ok? ==>
          && Flat(r.key, AsMap(after)) && AreFolded(r.key, AsMap(rows), AsMap(after), Requested(r.key, keys), name)
          && answer.value.key == PersonNamed(r.key, AsMap(rows), Requested(r.key, keys), name)
          && answer.value.key in IndexOf(r, shelf, after) && answer.value == IndexOf(r, shelf, after)[answer.value.key])
  }

  lemma EvidencedAreReachable(r: Reading, shelf: seq<Credit>, rows: seq<Alias>, requested: set<string>)
    requires Flat(r.key, AsMap(rows))
    ensures requested <= ReachableIn(IndexOf(r, shelf, rows))
       <==> forall k :: k in requested ==> IsEvidenced(r.key, AsMap(rows), Occurrences(r.split, shelf), k)
  {
    forall k {
      ReachableIff(r, shelf, rows, k);
    }
  }

  lemma MergeIsAnswered(r: Reading, shelf: seq<Credit>, rows: seq<Alias>, keys: seq<string>, name: string, after: seq<Alias>,
                        answer: Result<Entry, Refusal>)
    requires WellKeyed(rows) && Flat(r.key, AsMap(rows)) && keys != []
    requires !(Requested(r.key, keys) <= ReachableIn(IndexOf(r, shelf, rows))) ==> answer == Err(AuthorNotFound)
    requires Requested(r.key, keys) <= ReachableIn(IndexOf(r, shelf, rows)) ==>
               var keep := KeepName(r.key, AsMap(rows), Requested(r.key, keys), name);
               && after == MergedRows(r.key, rows, InOrder(r.key, keys), keep) && answer == Answer(r.key, IndexOf(r, shelf, after), keep)
    ensures IsMergeAnswer(r, shelf, rows, keys, name, after, answer)
  {
    EvidencedAreReachable(r, shelf, rows, Requested(r.key, keys));
    if Requested(r.key, keys) <= ReachableIn(IndexOf(r, shelf, rows)) {
      MergeFindsItsAuthor(r, shelf, rows, keys, name);
      KeptIsNamed(r.key, AsMap(rows), Requested(r.key, keys), name);
      MergeFoldsRows(r.key, rows, keys, name);
    }
  }

  lemma MergeFoldsRows(ak: string -> string, rows: seq<Alias>, keys: seq<string>, name: string)
    requires WellKeyed(rows) && Flat(ak, AsMap(rows))
    ensures var after := MergedRows(ak, rows, InOrder(ak, keys), KeepName(ak, AsMap(rows), Requested(ak, keys), name));
            Flat(ak, AsMap(after)) && AreFolded(ak, AsMap(rows), AsMap(after), Requested(ak, keys), name)
  {
    MergeStaysFlat(ak, rows, keys, name);
    MergeIsFolded(ak, AsMap(rows), Requested(ak, keys), name);
    InOrderIsRequested(ak, keys);
    MergedRowsMap(ak, rows, InOrder(ak, keys), KeepName(ak, AsMap(rows), Requested(ak, keys), name));
  }

  // ── What a batch says ─────────────────────────────────────────────────────

  /** Everybody this group asks for is reachable, and folding them moves nobody a row is already for. */
  ghost predicate IsAcceptable(ak: string -> string, m: map<string, string>, reachable: set<string>, group: Group)
  {
    Requested(ak, group.keys) <= reachable && Unrepointed(ak, m, Requested(ak, group.keys), ak(group.keep))
  }

  /** What a group is told that is not: that somebody is not found, or else which decision stands. */
  ghost predicate IsRefusedFor(ak: string -> string, reachable: set<string>, group: Group, refusal: Refusal)
  {
    if !(Requested(ak, group.keys) <= reachable) then refusal == AuthorNotFound
    else refusal.DecisionStands? && Ascending(refusal.keys) && (set k | k in refusal.keys) == Requested(ak, group.keys)
  }

  /** The first group that is not acceptable decides what the batch is told, and there is none where it
      is told nothing. */
  ghost predicate IsDecidedBy(ak: string -> string, m: map<string, string>, reachable: set<string>, groups: seq<Group>, refusal: Option<Refusal>)
  {
    && (refusal.None? <==> forall g :: 0 <= g < |groups| ==> IsAcceptable(ak, m, reachable, groups[g]))
    && (refusal.Some? ==> exists g :: IsFirstRefused(ak, m, reachable, groups, g) && IsRefusedFor(ak, reachable, groups[g], refusal.value))
  }

  ghost predicate IsFirstRefused(ak: string -> string, m: map<string, string>, reachable: set<string>, groups: seq<Group>, g: int)
  {
    && 0 <= g < |groups| && !IsAcceptable(ak, m, reachable, groups[g])
    && forall h :: 0 <= h < g ==> IsAcceptable(ak, m, reachable, groups[h])
  }

  lemma PlanIsRefusedFor(ak: string -> string, m: map<string, string>, reachable: set<string>, group: Group)
    ensures PlanRefusal(ak, m, reachable, PlanOf(ak, group)).None? <==> IsAcceptable(ak, m, reachable, group)
    ensures PlanRefusal(ak, m, reachable, PlanOf(ak, group)).Some? ==>
              IsRefusedFor(ak, reachable, group, PlanRefusal(ak, m, reachable, PlanOf(ak, group)).value)
  {
    InOrderIsRequested(ak, group.keys);
    assert Keys(PlanOf(ak, group)) == Requested(ak, group.keys);
  }

  lemma {:induction false} FirstRefusedDecides(ak: string -> string, m: map<string, string>, reachable: set<string>, groups: seq<Group>)
    ensures IsDecidedBy(ak, m, reachable, groups, BatchRefusal(ak, m, reachable, PlansOf(ak, groups)))
  {
    if groups != [] {
      var plans, rest := PlansOf(ak, groups), groups[1..];
      assert plans[1..] == PlansOf(ak, rest);
      PlanIsRefusedFor(ak, m, reachable, groups[0]);
      FirstRefusedDecides(ak, m, reachable, rest);
      assert forall g :: 0 <= g < |rest| ==> rest[g] == groups[g + 1];
      if PlanRefusal(ak, m, reachable, plans[0]).Some? {
        assert IsFirstRefused(ak, m, reachable, groups, 0);
      } else if BatchRefusal(ak, m, reachable, plans).Some? {
        var g :| IsFirstRefused(ak, m, reachable, rest, g)
              && IsRefusedFor(ak, reachable, rest[g], BatchRefusal(ak, m, reachable, plans).value);
        assert IsFirstRefused(ak, m, reachable, groups, g + 1);
      }
    }
  }

  /** The rows there were, and one for everybody a group asks for that had none, at the group's name. */
  ghost predicate AreAdded(ak: string -> string, m: map<string, string>, after: map<string, string>, groups: seq<Group>)
  {
    forall k :: IsAddedTo(ak, m, after, groups, k)
  }

  /** A row there was stands; a new one is one of a group's keys; and every key of a group that had none gets one. */
  ghost predicate IsAddedTo(ak: string -> string, m: map<string, string>, after: map<string, string>, groups: seq<Group>, k: string)
  {
    && (k in m ==> k in after && after[k] == m[k])
    && (k in after && k !in m ==> exists g :: 0 <= g < |groups| && k in Requested(ak, groups[g].keys))
    && (k !in m ==> forall g :: 0 <= g < |groups| && k in Requested(ak, groups[g].keys) ==> k in after && after[k] == groups[g].keep)
  }

  lemma BatchAdds(ak: string -> string, m: map<string, string>, groups: seq<Group>)
    requires WellFormed(ak, PlansOf(ak, groups))
    ensures AreAdded(ak, m, BatchMap(m, PlansOf(ak, groups)), groups)
  {
    forall k {
      BatchAddsAt(ak, m, groups, k);
    }
  }

  lemma BatchAddsAt(ak: string -> string, m: map<string, string>, groups: seq<Group>, k: string)
    requires WellFormed(ak, PlansOf(ak, groups))
    ensures IsAddedTo(ak, m, BatchMap(m, PlansOf(ak, groups)), groups, k)
  {
    BatchAddsNothingElse(ak, m, groups, k);
    if k !in m {
      forall g: nat | g < |groups| && k in Requested(ak, groups[g].keys) {
        BatchAddsFor(ak, m, groups, g, k);
      }
    }
  }

  lemma BatchAddsFor(ak: string -> string, m: map<string, string>, groups: seq<Group>, g: nat, k: string)
    requires WellFormed(ak, PlansOf(ak, groups)) && g < |groups| && k in Requested(ak, groups[g].keys) && k !in m
    ensures var after := BatchMap(m, PlansOf(ak, groups)); k in after && after[k] == groups[g].keep
  {
    InOrderIsRequested(ak, groups[g].keys);
    assert PlansOf(ak, groups)[g] in PlansOf(ak, groups);
    BatchAddsOne(ak, m, PlansOf(ak, groups), PlansOf(ak, groups)[g], k);
  }

  lemma BatchAddsNothingElse(ak: string -> string, m: map<string, string>, groups: seq<Group>, k: string)
    requires WellFormed(ak, PlansOf(ak, groups))
    ensures var after := BatchMap(m, PlansOf(ak, groups));
            && (k in m ==> k in after && after[k] == m[k])
            && (k in after && k !in m ==> exists g :: 0 <= g < |groups| && k in Requested(ak, groups[g].keys))
  {
    var plans := PlansOf(ak, groups);
    BatchMapIsItsGroups(ak, m, plans, k);
    if k in BatchMap(m, plans) && k !in m {
      var plan :| plan in plans && k in Keys(plan) && plan.keep == BatchMap(m, plans)[k];
      var g :| 0 <= g < |plans| && plans[g] == plan;
      InOrderIsRequested(ak, groups[g].keys);
    }
  }

  lemma BatchAddsOne(ak: string -> string, m: map<string, string>, plans: seq<Plan>, plan: Plan, k: string)
    requires WellFormed(ak, plans) && plan in plans && k in Keys(plan) && k !in m
    ensures k in BatchMap(m, plans) && BatchMap(m, plans)[k] == plan.keep
  {
    BatchMapIsItsGroups(ak, m, plans, k);
    assert Gives(plans, k, plan.keep);
    OneGroupGives(ak, plans, k, BatchMap(m, plans)[k], plan.keep);
  }

  // ── The table ─────────────────────────────────────────────────────────────

  /** Author identity in one library. `shelf` is what the member asking can see at the time. */
  class Authorship {
    const r: Reading
    var rows: seq<Alias>

    ghost predicate Valid()
      reads this
    {
      WellKeyed(rows)
    }

    constructor (r: Reading)
      ensures Valid() && this.r == r && rows == []
    {
      this.r := r;
      rows := [];
    }

    /** Say that these spellings are one person. The name given is the one kept where it is one of
        theirs or nobody's with a row, and otherwise the name it was folded into. */
    method Merge(shelf: seq<Credit>, keys: seq<string>, name: string) returns (answer: Result<Entry, Refusal>)
      requires Valid()
      modifies this
      ensures Valid() && rows == Step(r, old(rows), MergeRequest(shelf, keys, name))
      ensures !(Requested(r.key, keys) <= ReachableIn(IndexOf(r, shelf, old(rows)))) ==>
                answer == Err(AuthorNotFound) && rows == old(rows)
      ensures Requested(r.key, keys) <= ReachableIn(IndexOf(r, shelf, old(rows))) ==>
                AreStored(r.key, AsMap(old(rows)), AsMap(rows), Requested(r.key, keys), name)
      ensures answer.Ok? && r.key(name) in Requested(r.key, keys) ==> answer.value.key == r.key(name)
      ensures keys != [] && Flat(r.key, AsMap(old(rows))) ==> IsMergeAnswer(r, shelf, old(rows), keys, name, rows, answer)
    {
      var index := BuildIndex(r, shelf, rows);
      var requested := Requested(r.key, keys);
      if !(requested <= ReachableIn(index)) {
        answer := Err(AuthorNotFound);
        if keys != [] && Flat(r.key, AsMap(rows)) { MergeIsAnswered(r, shelf, rows, keys, name, rows, answer); }
        return;
      }
      var keep := KeepName(r.key, AsMap(rows), requested, name);
      var sorted := InOrder(r.key, keys);
      InOrderIsRequested(r.key, keys);
      FollowRows(requested, keep);
      PlaceRows(sorted, keep);
      MergedRowsMap(r.key, old(rows), sorted, keep);
      index := BuildIndex(r, shelf, rows);
      answer := Answer(r.key, index, keep);
      if answer.Ok? { NameCarriesKey(r, shelf, rows, r.key(keep)); }
      MergeIsStored(r.key, AsMap(old(rows)), requested, name);
      if keys != [] && Flat(r.key, AsMap(old(rows))) {
        MergeIsAnswered(r, shelf, old(rows), keys, name, rows, answer);
      }
    }

    /** The first pass: rows at a name being folded away come along. */
    method FollowRows(requested: set<string>, keep: string)
      requires Valid()
      modifies this
      ensures Valid() && rows == Followed(r.key, old(rows), requested, keep)
    {
      ghost var followed := Followed(r.key, rows, requested, keep);
      FollowedIsKeyed(r.key, rows, requested, keep);
      var i := 0;
      while i < |rows|
        invariant 0 <= i <= |rows| == |followed| == |old(rows)|
        invariant rows == followed[..i] + old(rows)[i..]
      {
        DoneOneMore(old(rows), followed, rows, i);
        if r.key(rows[i].canonical) in requested && rows[i].key != r.key(keep) {
          rows := rows[i := rows[i].(canonical := keep)];
        }
        i := i + 1;
      }
      assert rows == followed;
    }

    /** The second pass: a row for every requested key, in order. */
    method PlaceRows(keys: seq<string>, keep: string)
      requires Valid()
      modifies this
      ensures Valid() && rows == SetRows(old(rows), keys, keep)
    {
      assert keys[0..] == keys;
      for i := 0 to |keys|
        invariant Valid() && SetRows(rows, keys[i..], keep) == SetRows(old(rows), keys, keep)
      {
        assert keys[i..][1..] == keys[i + 1..];
        SetRowSets(rows, keys[i], keep);
        var at := RowFor(rows, keys[i]);
        if at < |rows| {
          rows := rows[at := rows[at].(canonical := keep)];
        } else {
          rows := rows + [Alias(NextId(rows), keys[i], keep)];
        }
      }
    }

    /** Every group or, where one of them is refused, nothing. */
    method MergeBatch(shelf: seq<Credit>, groups: seq<Group>) returns (answer: Result<seq<Entry>, Refusal>)
      requires Valid()
      modifies this
      ensures Valid() && rows == Step(r, old(rows), BatchRequest(shelf, PlansOf(r.key, groups)))
      ensures var refusal := BatchRefusal(r.key, AsMap(old(rows)), ReachableIn(IndexOf(r, shelf, old(rows))), PlansOf(r.key, groups));
              if refusal.Some? then answer == Err(refusal.value) && rows == old(rows)
              else
                && (answer.Ok? ==> Answers(r.key, IndexOf(r, shelf, rows), groups, answer.value))
                && (Flat(r.key, AsMap(old(rows))) && WellFormed(r.key, PlansOf(r.key, groups)) ==>
                      answer.Ok? && Flat(r.key, AsMap(rows)))
      ensures IsDecidedBy(r.key, AsMap(old(rows)), ReachableIn(IndexOf(r, shelf, old(rows))), groups,
                          BatchRefusal(r.key, AsMap(old(rows)), ReachableIn(IndexOf(r, shelf, old(rows))), PlansOf(r.key, groups)))
      ensures answer.Ok? && WellFormed(r.key, PlansOf(r.key, groups)) ==>
                old(rows) <= rows && AreAdded(r.key, AsMap(old(rows)), AsMap(rows), groups)
    {
      BatchIs(r, shelf, rows, PlansOf(r.key, groups));
      FirstRefusedDecides(r.key, AsMap(rows), ReachableIn(IndexOf(r, shelf, rows)), groups);
      var refusal := Validate(shelf, groups);
      if refusal.Some? {
        return Err(refusal.value);
      }
      AddGroups(groups);
      var index := BuildIndex(r, shelf, rows);
      answer := AnswerEach(r.key, index, groups);
      ghost var plans := PlansOf(r.key, groups);
      BatchOnlyAdds(old(rows), plans);
      if WellFormed(r.key, plans) { BatchAdds(r.key, AsMap(old(rows)), groups); }
      if Flat(r.key, AsMap(old(rows))) && WellFormed(r.key, plans) {
        AcceptedIsUnrepointed(r.key, AsMap(old(rows)), ReachableIn(IndexOf(r, shelf, old(rows))), plans);
        BatchKeepsFlat(r.key, AsMap(old(rows)), plans);
        forall g | 0 <= g < |groups| ensures r.key(groups[g].keep) in IndexOf(r, shelf, rows) {
          assert plans[g] in plans && plans[g].keep == groups[g].keep;
          BatchFindsItsAuthors(r, shelf, old(rows), plans, plans[g]);
        }
      }
    }

    /** Why the first group that is refused is refused, before any row is written. */
    method Validate(shelf: seq<Credit>, groups: seq<Group>) returns (refusal: Option<Refusal>)
      requires Valid()
      ensures refusal == BatchRefusal(r.key, AsMap(rows), ReachableIn(IndexOf(r, shelf, rows)), PlansOf(r.key, groups))
    {
      var entries := BuildIndex(r, shelf, rows);
      var reachable := ReachableIn(entries);
      var index := IndexAliases(r.key, rows);
      refusal := FirstRefusal(r.key, AsMap(rows), index, reachable, groups);
    }

    method AddGroups(groups: seq<Group>)
      requires Valid()
      modifies this
      ensures Valid() && rows == BatchRows(old(rows), PlansOf(r.key, groups))
    {
      ghost var plans := PlansOf(r.key, groups);
      assert plans[0..] == plans;
      for g := 0 to |groups|
        invariant Valid() && BatchRows(rows, plans[g..]) == BatchRows(old(rows), plans)
      {
        assert plans[g..][1..] == plans[g + 1..];
        AddMissing(InOrder(r.key, groups[g].keys), groups[g].keep);
      }
    }

    /** A row for each of these keys that has none. */
    method AddMissing(keys: seq<string>, keep: string)
      requires Valid()
      modifies this
      ensures Valid() && rows == AddRows(old(rows), keys, keep)
    {
      assert keys[0..] == keys;
      for i := 0 to |keys|
        invariant Valid() && AddRows(rows, keys[i..], keep) == AddRows(old(rows), keys, keep)
      {
        assert keys[i..][1..] == keys[i + 1..];
        AddRowAdds(rows, keys[i], keep);
        if RowFor(rows, keys[i]) == |rows| {
          rows := rows + [Alias(NextId(rows), keys[i], keep)];
        }
      }
    }

    /** Undo one merge: delete the row, where this member can see a spelling it folds. */
    method Unmerge(shelf: seq<Credit>, id: nat) returns (found: bool)
      requires Valid()
      modifies this
      ensures Valid() && rows == Step(r, old(rows), UndoRequest(shelf, id))
      ensures found <==> exists row, o :: row in old(rows) && row.id == id && o in Occurrences(r.split, shelf) && r.key(o.spelling) == row.key
      ensures forall row :: row in rows <==> row in old(rows) && !(found && row.id == id)
      ensures Flat(r.key, AsMap(old(rows))) ==> Flat(r.key, AsMap(rows))
    {
      UndoIs(r, shelf, rows, id);
      UndoableIff(r, shelf, rows, id);
      WithoutOne(rows, id);
      var i := RowWithId(rows, id);
      if i == |rows| { return false; }
      var index := BuildIndex(r, shelf, rows);
      found := DeleteIfFolded(index, i);
    }

    method DeleteIfFolded(index: map<string, Entry>, i: nat) returns (found: bool)
      requires Valid() && i < |rows|
      modifies this
      ensures Valid() && found == Undoable(old(rows), index, old(rows)[i].id)
      ensures rows == if found then WithoutAll(old(rows), {old(rows)[i].id}) else old(rows)
      ensures Flat(r.key, AsMap(old(rows))) ==> Flat(r.key, AsMap(rows))
    {
      var row := rows[i];
      OnlyRowWithId(rows, i);
      found := FoldedIn(index, row.key);
      if found {
        assert row in rows;
        UndoKeepsFlat(r.key, rows, index, row.id);
        rows := WithoutAll(rows, {row.id});
      }
    }
  }

  // ── Every run ─────────────────────────────────────────────────────────────

  /** One request against the table, by a member who sees this shelf. */
  datatype Request =
    | MergeRequest(shelf: seq<Credit>, keys: seq<string>, name: string)
    | BatchRequest(shelf: seq<Credit>, plans: seq<Plan>)
    | UndoRequest(shelf: seq<Credit>, id: nat)

  /** What the table is after it; a refused request leaves it as it was. */
  ghost function Step(r: Reading, rows: seq<Alias>, request: Request): seq<Alias>
  {
    After(r.key, rows, IndexOf(r, request.shelf, rows), request)
  }

  ghost function After(ak: string -> string, rows: seq<Alias>, index: map<string, Entry>, request: Request): seq<Alias>
  {
    match request
    case MergeRequest(_, keys, name) =>
      if Requested(ak, keys) <= ReachableIn(index)
      then MergedRows(ak, rows, InOrder(ak, keys), KeepName(ak, AsMap(rows), Requested(ak, keys), name))
      else rows
    case BatchRequest(_, plans) =>
      if BatchRefusal(ak, AsMap(rows), ReachableIn(index), plans).None? then BatchRows(rows, plans) else rows
    case UndoRequest(_, id) =>
      if Undoable(rows, index, id) then WithoutAll(rows, {id}) else rows
  }

  lemma BatchIs(r: Reading, shelf: seq<Credit>, rows: seq<Alias>, plans: seq<Plan>)
    ensures Step(r, rows, BatchRequest(shelf, plans))
         == if BatchRefusal(r.key, AsMap(rows), ReachableIn(IndexOf(r, shelf, rows)), plans).None? then BatchRows(rows, plans)
            else rows
  {
  }

  lemma UndoIs(r: Reading, shelf: seq<Credit>, rows: seq<Alias>, id: nat)
    ensures Step(r, rows, UndoRequest(shelf, id))
         == if Undoable(rows, IndexOf(r, shelf, rows), id) then WithoutAll(rows, {id}) else rows
  {
  }

  ghost function Run(r: Reading, rows: seq<Alias>, requests: seq<Request>): seq<Alias>
    decreases requests
  {
    if requests == [] then rows else Run(r, Step(r, rows, requests[0]), requests[1..])
  }

  lemma StepStaysFlat(ak: string -> string, rows: seq<Alias>, index: map<string, Entry>, request: Request)
    requires WellKeyed(rows) && Flat(ak, AsMap(rows))
    requires request.BatchRequest? ==> WellFormed(ak, request.plans)
    ensures WellKeyed(After(ak, rows, index, request)) && Flat(ak, AsMap(After(ak, rows, index, request)))
  {
    match request
    case MergeRequest(_, keys, name) =>
      MergeStaysFlat(ak, rows, keys, name);
    case BatchRequest(_, plans) =>
      if BatchRefusal(ak, AsMap(rows), ReachableIn(index), plans).None? {
        AcceptedIsUnrepointed(ak, AsMap(rows), ReachableIn(index), plans);
        BatchOnlyAdds(rows, plans);
        BatchKeepsFlat(ak, AsMap(rows), plans);
      }
    case UndoRequest(_, id) =>
      if Undoable(rows, index, id) {
        UndoKeepsFlat(ak, rows, index, id);
      }
  }

  lemma MergeStaysFlat(ak: string -> string, rows: seq<Alias>, keys: seq<string>, name: string)
    requires WellKeyed(rows) && Flat(ak, AsMap(rows))
    ensures var after := MergedRows(ak, rows, InOrder(ak, keys), KeepName(ak, AsMap(rows), Requested(ak, keys), name));
            WellKeyed(after) && Flat(ak, AsMap(after))
  {
    InOrderIsRequested(ak, keys);
    MergedRowsMap(ak, rows, InOrder(ak, keys), KeepName(ak, AsMap(rows), Requested(ak, keys), name));
    MergeKeepsFlat(ak, AsMap(rows), Requested(ak, keys), name);
  }

  /** From the empty table, whatever members ask for and in whatever order, one lookup stays
      enough: every table a run reaches is flat, and so resolves to itself. */
  lemma {:induction false} EveryRunStaysFlat(r: Reading, rows: seq<Alias>, requests: seq<Request>)
    requires WellKeyed(rows) && Flat(r.key, AsMap(rows))
    requires forall q :: q in requests && q.BatchRequest? ==> WellFormed(r.key, q.plans)
    ensures WellKeyed(Run(r, rows, requests)) && Flat(r.key, AsMap(Run(r, rows, requests)))
    ensures Resolved(r.key, AsMap(Run(r, rows, requests))) == AsMap(Run(r, rows, requests))
    decreases requests
  {
    if requests == [] {
      FlatIsResolved(r.key, AsMap(rows));
    } else {
      assert requests[0] in requests;
      StepStaysFlat(r.key, rows, IndexOf(r, requests[0].shelf, rows), requests[0]);
      EveryRunStaysFlat(r, Step(r, rows, requests[0]), requests[1..]);
    }
  }

  lemma EmptyTableIsFlat(ak: string -> string)
    ensures WellKeyed([]) && Flat(ak, AsMap([]))
  {
  }
}
