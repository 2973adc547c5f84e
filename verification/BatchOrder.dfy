/** The order of a batch's groups decides nothing a member sees.

    The index read after it is the same, headings included, though a heading is the last row's
    to decide. */
module BatchOrder {
  import opened Aliases
  import opened Index
  import opened Repoint
  import opened Table
  import opened Batches

  /** A group that repoints nothing keeps a name whose chain is at its end. */
  lemma KeptNameStops(ak: string -> string, m: map<string, string>, plans: seq<Plan>, plan: Plan)
    requires WellFormed(ak, plans) && plan in plans && Unrepointed(ak, m, Keys(plan), ak(plan.keep))
    ensures Stops(ak, BatchMap(m, plans), plan.keep)
  {
    var g :| 0 <= g < |plans| && plans[g] == plan;
    assert ak(plan.keep) in Keys(plan);
    BatchFoldsItsGroups(ak, m, plans, plan, ak(plan.keep));
  }

  /** A row a batch added is some group's, at a key there was no row for. */
  lemma AddedRowIsAGroups(ak: string -> string, rows: seq<Alias>, plans: seq<Plan>, i: nat) returns (plan: Plan)
    requires WellKeyed(rows) && WellFormed(ak, plans) && |rows| <= i < |BatchRows(rows, plans)|
    ensures var row := BatchRows(rows, plans)[i];
            plan in plans && row.key in Keys(plan) && row.canonical == plan.keep && row.key !in AsMap(rows)
  {
    BatchOnlyAdds(rows, plans);
    var after := BatchRows(rows, plans);
    AsMapReads(after, i);
    NewRowIsNew(rows, after, i);
    BatchMapIsItsGroups(ak, AsMap(rows), plans, after[i].key);
    assert Gives(plans, after[i].key, after[i].canonical);
    plan :| plan in plans && after[i].key in Keys(plan) && plan.keep == after[i].canonical;
  }

  lemma NewRowIsNew(rows: seq<Alias>, after: seq<Alias>, i: nat)
    requires WellKeyed(after) && rows <= after && |rows| <= i < |after|
    ensures after[i].key !in AsMap(rows)
  {
    if after[i].key in AsMap(rows) {
      var j := AsMapFinds(rows, after[i].key);
      DistinctRows(after, i, j);
    }
  }

  /** And a group with such a key has such a row. */
  lemma GroupAddsItsRow(ak: string -> string, rows: seq<Alias>, plans: seq<Plan>, plan: Plan, k: string) returns (i: nat)
    requires WellKeyed(rows) && WellFormed(ak, plans) && plan in plans && k in Keys(plan) && k !in AsMap(rows)
    ensures |rows| <= i < |BatchRows(rows, plans)| && BatchRows(rows, plans)[i].canonical == plan.keep
  {
    BatchOnlyAdds(rows, plans);
    BatchMapIsItsGroups(ak, AsMap(rows), plans, k);
    assert Gives(plans, k, plan.keep);
    OneGroupGives(ak, plans, k, BatchMap(AsMap(rows), plans)[k], plan.keep);
    var after := BatchRows(rows, plans);
    i := AsMapFinds(after, k);
    if i < |rows| {
      AsMapReads(rows, i);
    }
  }

  /** Two groups that keep names with one key are one group. */
  lemma OneGroupKeeps(ak: string -> string, plans: seq<Plan>, p: Plan, q: Plan)
    requires WellFormed(ak, plans) && p in plans && q in plans && ak(p.keep) == ak(q.keep)
    ensures p == q
  {
    var g :| 0 <= g < |plans| && plans[g] == p;
    var h :| 0 <= h < |plans| && plans[h] == q;
    assert ak(p.keep) in Keys(p) && ak(q.keep) in Keys(q);
  }

  /** What a row's name resolves to. */
  function NameAt(ak: string -> string, rows: seq<Alias>, i: nat): string
    requires i < |rows|
  {
    Chase(ak, AsMap(rows), rows[i].canonical, |AsMap(rows)|)
  }

  /** A row a batch added resolves to its group's name. */
  lemma AddedRowSays(ak: string -> string, rows: seq<Alias>, plans: seq<Plan>, i: nat) returns (plan: Plan)
    requires WellKeyed(rows) && WellFormed(ak, plans) && AllUnrepointed(ak, AsMap(rows), plans)
    requires |rows| <= i < |BatchRows(rows, plans)|
    ensures plan in plans && NameAt(ak, BatchRows(rows, plans), i) == plan.keep
    ensures BatchRows(rows, plans)[i].key in Keys(plan) && BatchRows(rows, plans)[i].key !in AsMap(rows)
  {
    plan := AddedRowIsAGroups(ak, rows, plans, i);
    BatchOnlyAdds(rows, plans);
    var g :| 0 <= g < |plans| && plans[g] == plan;
    KeptNameStops(ak, AsMap(rows), plans, plan);
  }

  /** One batch in two orders, both accepted. */
  ghost predicate Reordered(ak: string -> string, rows: seq<Alias>, a: seq<Plan>, b: seq<Plan>)
  {
    && WellKeyed(rows) && WellFormed(ak, a) && WellFormed(ak, b) && (forall plan :: plan in a <==> plan in b)
    && AllUnrepointed(ak, AsMap(rows), a) && AllUnrepointed(ak, AsMap(rows), b)
  }

  /** Whatever an added row says in one order, an added row says in the other. */
  lemma AddedInBoth(ak: string -> string, rows: seq<Alias>, a: seq<Plan>, b: seq<Plan>, i: nat) returns (j: nat)
    requires Reordered(ak, rows, a, b) && |rows| <= i < |BatchRows(rows, a)|
    ensures |rows| <= j < |BatchRows(rows, b)| && NameAt(ak, BatchRows(rows, b), j) == NameAt(ak, BatchRows(rows, a), i)
  {
    var plan := AddedRowSays(ak, rows, a, i);
    j := GroupAddsItsRow(ak, rows, b, plan, BatchRows(rows, a)[i].key);
    var same := AddedRowSays(ak, rows, b, j);
    var its := AddedRowIsAGroups(ak, rows, b, j);
    OneGroupKeeps(ak, b, its, plan);
  }

  /** Added rows about one person say one name. */
  lemma AddedSayOneName(ak: string -> string, rows: seq<Alias>, a: seq<Plan>, b: seq<Plan>, i: nat, j: nat)
    requires Reordered(ak, rows, a, b) && |rows| <= i < |BatchRows(rows, a)| && |rows| <= j < |BatchRows(rows, b)|
    requires ak(NameAt(ak, BatchRows(rows, a), i)) == ak(NameAt(ak, BatchRows(rows, b), j))
    ensures NameAt(ak, BatchRows(rows, a), i) == NameAt(ak, BatchRows(rows, b), j)
  {
    var p := AddedRowSays(ak, rows, a, i);
    var q := AddedRowSays(ak, rows, b, j);
    OneGroupKeeps(ak, b, p, q);
  }

  lemma EarlierRowsSayTheSame(ak: string -> string, rows: seq<Alias>, a: seq<Plan>, b: seq<Plan>, i: nat)
    requires Reordered(ak, rows, a, b) && i < |rows|
    ensures i < |BatchRows(rows, a)| && i < |BatchRows(rows, b)|
    ensures NameAt(ak, BatchRows(rows, a), i) == NameAt(ak, BatchRows(rows, b), i)
  {
    BatchOnlyAdds(rows, a);
    BatchOnlyAdds(rows, b);
    BatchOrderDoesNotMatter(ak, AsMap(rows), a, b);
    assert BatchRows(rows, a)[i] == rows[i] == BatchRows(rows, b)[i];
  }

  ghost predicate Holds(names: seq<string>, n: nat, name: string)
  {
    exists j :: n <= j < |names| && names[j] == name
  }

  /** Names by two orders of a batch: alike up to `n`, and past it each holds what the other does, one
      name a person. */
  ghost predicate SayTheSame(ak: string -> string, n: nat, a: seq<string>, b: seq<string>)
  {
    && n <= |a| && n <= |b| && (forall i :: 0 <= i < n ==> a[i] == b[i])
    && (forall i :: n <= i < |a| ==> Holds(b, n, a[i]))
    && (forall x, y :: Holds(a, n, x) && Holds(b, n, y) && ak(x) == ak(y) ==> x == y)
  }

  lemma NamesOf(ak: string -> string, rows: seq<Alias>, i: nat)
    requires i < |rows|
    ensures ResolvedNames(ak, rows)[i] == NameAt(ak, rows, i)
  {
  }

  lemma HeldIsAdded(ak: string -> string, rows: seq<Alias>, n: nat, name: string) returns (i: nat)
    requires Holds(ResolvedNames(ak, rows), n, name)
    ensures n <= i < |rows| && NameAt(ak, rows, i) == name
  {
    i :| n <= i < |rows| && ResolvedNames(ak, rows)[i] == name;
    NamesOf(ak, rows, i);
  }

  lemma HeldByBoth(ak: string -> string, rows: seq<Alias>, a: seq<Plan>, b: seq<Plan>, i: nat)
    requires Reordered(ak, rows, a, b) && |rows| <= i < |BatchRows(rows, a)|
    ensures Holds(ResolvedNames(ak, BatchRows(rows, b)), |rows|, ResolvedNames(ak, BatchRows(rows, a))[i])
  {
    var j := AddedInBoth(ak, rows, a, b, i);
    NamesOf(ak, BatchRows(rows, a), i);
    NamesOf(ak, BatchRows(rows, b), j);
  }

  lemma OrdersSayTheSame(ak: string -> string, rows: seq<Alias>, a: seq<Plan>, b: seq<Plan>)
    requires Reordered(ak, rows, a, b)
    ensures SayTheSame(ak, |rows|, ResolvedNames(ak, BatchRows(rows, a)), ResolvedNames(ak, BatchRows(rows, b)))
  {
    BatchOnlyAdds(rows, a);
    BatchOnlyAdds(rows, b);
    var s, t := ResolvedNames(ak, BatchRows(rows, a)), ResolvedNames(ak, BatchRows(rows, b));
    forall i | 0 <= i < |rows| ensures s[i] == t[i] {
      EarlierRowsSayTheSame(ak, rows, a, b, i);
      NamesOf(ak, BatchRows(rows, a), i);
      NamesOf(ak, BatchRows(rows, b), i);
    }
    forall i | |rows| <= i < |s| ensures Holds(t, |rows|, s[i]) {
      HeldByBoth(ak, rows, a, b, i);
    }
    forall x, y | Holds(s, |rows|, x) && Holds(t, |rows|, y) && ak(x) == ak(y) ensures x == y {
      var i := HeldIsAdded(ak, BatchRows(rows, a), |rows|, x);
      var j := HeldIsAdded(ak, BatchRows(rows, b), |rows|, y);
      AddedSayOneName(ak, rows, a, b, i, j);
    }
  }

  /** The last of them to name a person decides the same way. */
  lemma SameChoice(ak: string -> string, n: nat, a: seq<string>, b: seq<string>, k: string)
    requires SayTheSame(ak, n, a, b) && SayTheSame(ak, n, b, a) && k in Chosen(ak, a)
    ensures k in Chosen(ak, b) && Chosen(ak, b)[k] == Chosen(ak, a)[k]
  {
    ChosenIsLastChoice(ak, a, k);
    ChosenIsLastChoice(ak, b, k);
    var i :| LastNamed(ak, a, k, i) && Chosen(ak, a)[k] == a[i];
    var j := SaidByBoth(ak, n, a, b, i);
    assert ak(b[j]) == k;
    var last :| LastNamed(ak, b, k, last) && Chosen(ak, b)[k] == b[last];
    LastIsTheSame(ak, n, a, b, k, i, last);
  }

  lemma SaidByBoth(ak: string -> string, n: nat, a: seq<string>, b: seq<string>, i: nat) returns (j: nat)
    requires SayTheSame(ak, n, a, b) && i < |a|
    ensures j < |b| && b[j] == a[i] && (if i < n then j == i else j >= n)
  {
    j := i;
    if i >= n {
      assert Holds(b, n, a[i]);
      j :| n <= j < |b| && b[j] == a[i];
    }
  }

  lemma LastIsTheSame(ak: string -> string, n: nat, a: seq<string>, b: seq<string>, k: string, i: nat, last: nat)
    requires SayTheSame(ak, n, a, b) && SayTheSame(ak, n, b, a) && LastNamed(ak, a, k, i) && LastNamed(ak, b, k, last)
    ensures b[last] == a[i]
  {
    var j := SaidByBoth(ak, n, a, b, i);
    var h := SaidByBoth(ak, n, b, a, last);
    assert h <= i && j <= last;
    if last >= n {
      assert Holds(a, n, a[i]) && Holds(b, n, b[last]);
    }
  }

  lemma SameChosen(ak: string -> string, n: nat, a: seq<string>, b: seq<string>)
    requires SayTheSame(ak, n, a, b) && SayTheSame(ak, n, b, a)
    ensures Chosen(ak, a) == Chosen(ak, b)
  {
    forall k | k in Chosen(ak, a) ensures k in Chosen(ak, b) && Chosen(ak, b)[k] == Chosen(ak, a)[k] {
      SameChoice(ak, n, a, b, k);
    }
    forall k | k in Chosen(ak, b) ensures k in Chosen(ak, a) {
      SameChoice(ak, n, b, a, k);
    }
  }

  /** A batch's groups in any order leave one index: the same people, books and spellings, and the same
      name at the head of each. */
  lemma BatchOrderDoesNotShow(r: Reading, shelf: seq<Credit>, rows: seq<Alias>, a: seq<Plan>, b: seq<Plan>)
    requires Reordered(r.key, rows, a, b)
    ensures IndexOf(r, shelf, BatchRows(rows, a)) == IndexOf(r, shelf, BatchRows(rows, b))
  {
    BatchOnlyAdds(rows, a);
    BatchOnlyAdds(rows, b);
    BatchOrderDoesNotMatter(r.key, AsMap(rows), a, b);
    OrdersSayTheSame(r.key, rows, a, b);
    OrdersSayTheSame(r.key, rows, b, a);
    SameChosen(r.key, |rows|, ResolvedNames(r.key, BatchRows(rows, a)), ResolvedNames(r.key, BatchRows(rows, b)));
    OneIndex(r, shelf, BatchRows(rows, a), BatchRows(rows, b));
  }

  /** An index is decided by the map and the chosen names. */
  lemma OneIndex(r: Reading, shelf: seq<Credit>, a: seq<Alias>, b: seq<Alias>)
    requires AsMap(a) == AsMap(b) && Chosen(r.key, ResolvedNames(r.key, a)) == Chosen(r.key, ResolvedNames(r.key, b))
    ensures IndexOf(r, shelf, a) == IndexOf(r, shelf, b)
  {
    var resolved := Resolved(r.key, AsMap(a));
    IndexIsUnique(Meaning(r.key, resolved), FoldKey(r.key, resolved), Chosen(r.key, ResolvedNames(r.key, a)),
                  Occurrences(r.split, shelf), IndexOf(r, shelf, a), IndexOf(r, shelf, b));
  }
}
