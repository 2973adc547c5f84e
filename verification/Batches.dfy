/** A batch of groups applied to the alias table: what `merge_batch` validates and writes. */
module Batches {
  import opened Wrappers
  import opened Strings
  import opened Aliases
  import opened Repoint
  import opened Table

  datatype Refusal = AuthorNotFound | DecisionStands(keys: seq<string>)

  /** One validated group: its keys in order, and the name they fold into. */
  datatype Plan = Plan(keys: seq<string>, keep: string)

  function Keys(plan: Plan): set<string>
  {
    set k | k in plan.keys
  }

  /** The part of what the request model holds that the writing relies on: every group keeps one of
      its own names, and nobody is asked for by two groups. `Requests.Passes` is the whole. */
  ghost predicate WellFormed(ak: string -> string, plans: seq<Plan>)
  {
    && (forall g :: 0 <= g < |plans| ==> ak(plans[g].keep) in Keys(plans[g]))
    && (forall g, h :: 0 <= g < h < |plans| ==> Keys(plans[g]) !! Keys(plans[h]))
  }

  lemma WellFormedTail(ak: string -> string, plans: seq<Plan>)
    requires plans != [] && WellFormed(ak, plans)
    ensures WellFormed(ak, plans[1..])
    ensures forall g :: 0 <= g < |plans| - 1 ==> Keys(plans[0]) !! Keys(plans[1..][g])
  {
  }

  // ── Validating ────────────────────────────────────────────────────────────

  /** Why one group is refused, put to the table as it is before the batch. */
  ghost function PlanRefusal(ak: string -> string, m: map<string, string>, reachable: set<string>, plan: Plan): Option<Refusal>
  {
    if !(Keys(plan) <= reachable) then Some(AuthorNotFound)
    else if !Unrepointed(ak, m, Keys(plan), ak(plan.keep)) then Some(DecisionStands(plan.keys))
    else None
  }

  /** The first group that is refused decides for the whole batch. */
  ghost function BatchRefusal(ak: string -> string, m: map<string, string>, reachable: set<string>, plans: seq<Plan>): Option<Refusal>
  {
    if plans == [] then None
    else if PlanRefusal(ak, m, reachable, plans[0]).Some? then PlanRefusal(ak, m, reachable, plans[0])
    else BatchRefusal(ak, m, reachable, plans[1..])
  }

  lemma {:induction false} BatchRefusesIff(ak: string -> string, m: map<string, string>, reachable: set<string>, plans: seq<Plan>)
    ensures BatchRefusal(ak, m, reachable, plans).None?
       <==> forall plan :: plan in plans ==> Keys(plan) <= reachable && Unrepointed(ak, m, Keys(plan), ak(plan.keep))
  {
    if plans != [] {
      BatchRefusesIff(ak, m, reachable, plans[1..]);
      assert forall plan :: plan in plans <==> plan == plans[0] || plan in plans[1..];
    }
  }

  // ── Writing ───────────────────────────────────────────────────────────────

  function BatchRows(rows: seq<Alias>, plans: seq<Plan>): seq<Alias>
    decreases plans
  {
    if plans == [] then rows else BatchRows(AddRows(rows, plans[0].keys, plans[0].keep), plans[1..])
  }

  function BatchMap(m: map<string, string>, plans: seq<Plan>): map<string, string>
    decreases plans
  {
    if plans == [] then m else BatchMap(AddedMap(m, Keys(plans[0]), plans[0].keep), plans[1..])
  }

  /** A batch only ever adds rows: what was there stands, to the letter, at the front of the table. */
  lemma {:induction false} BatchOnlyAdds(rows: seq<Alias>, plans: seq<Plan>)
    requires WellKeyed(rows)
    ensures WellKeyed(BatchRows(rows, plans)) && rows <= BatchRows(rows, plans)
    ensures AsMap(BatchRows(rows, plans)) == BatchMap(AsMap(rows), plans)
    decreases plans
  {
    if plans != [] {
      AddRowsAdd(rows, plans[0].keys, plans[0].keep);
      BatchOnlyAdds(AddRows(rows, plans[0].keys, plans[0].keep), plans[1..]);
    }
  }

  /** Deleting the rows a batch added restores the table, row for row. */
  lemma BatchIsUndoneByDeleting(rows: seq<Alias>, plans: seq<Plan>)
    requires WellKeyed(rows)
    ensures var after := BatchRows(rows, plans);
            WithoutAll(after, set i | |rows| <= i < |after| :: after[i].id) == rows
  {
    BatchOnlyAdds(rows, plans);
    var after := BatchRows(rows, plans);
    WithoutOfTail(after, |rows|, set i | |rows| <= i < |after| :: after[i].id);
  }

  // ── What the groups add up to ─────────────────────────────────────────────

  /** Some group folds this key into this name. */
  ghost predicate Gives(plans: seq<Plan>, k: string, name: string)
  {
    exists plan :: plan in plans && k in Keys(plan) && plan.keep == name
  }

  /** The map after a batch, told from the groups without their order: the rows there were,
      and each group's missing keys at that group's name. */
  lemma {:induction false} BatchMapIsItsGroups(ak: string -> string, m: map<string, string>, plans: seq<Plan>, k: string)
    requires WellFormed(ak, plans)
    ensures k in BatchMap(m, plans) <==> k in m || exists name :: Gives(plans, k, name)
    ensures k in m ==> BatchMap(m, plans)[k] == m[k]
    ensures k in BatchMap(m, plans) && k !in m ==> Gives(plans, k, BatchMap(m, plans)[k])
    decreases plans
  {
    if plans != [] {
      var first := AddedMap(m, Keys(plans[0]), plans[0].keep);
      WellFormedTail(ak, plans);
      BatchMapIsItsGroups(ak, first, plans[1..], k);
      assert forall plan :: plan in plans <==> plan == plans[0] || plan in plans[1..];
      forall name ensures Gives(plans, k, name) <==> (k in Keys(plans[0]) && plans[0].keep == name) || Gives(plans[1..], k, name) {
      }
      if k in Keys(plans[0]) {
        assert Gives(plans, k, plans[0].keep);
      }
    }
  }

  lemma OneGroupGives(ak: string -> string, plans: seq<Plan>, k: string, x: string, y: string)
    requires WellFormed(ak, plans) && Gives(plans, k, x) && Gives(plans, k, y)
    ensures x == y
  {
    var a :| a in plans && k in Keys(a) && a.keep == x;
    var b :| b in plans && k in Keys(b) && b.keep == y;
    var g :| 0 <= g < |plans| && plans[g] == a;
    var h :| 0 <= h < |plans| && plans[h] == b;
  }

  /** The order of a batch's groups decides nothing anybody resolves. */
  lemma BatchOrderDoesNotMatter(ak: string -> string, m: map<string, string>, a: seq<Plan>, b: seq<Plan>)
    requires WellFormed(ak, a) && WellFormed(ak, b)
    requires forall plan :: plan in a <==> plan in b
    ensures BatchMap(m, a) == BatchMap(m, b)
  {
    var x, y := BatchMap(m, a), BatchMap(m, b);
    forall k ensures k in x <==> k in y
             ensures k in x && k in y ==> x[k] == y[k] {
      BatchMapIsItsGroups(ak, m, a, k);
      BatchMapIsItsGroups(ak, m, b, k);
      forall name ensures Gives(a, k, name) <==> Gives(b, k, name) {
      }
      if k in x && k !in m {
        OneGroupGives(ak, a, k, x[k], y[k]);
      }
    }
  }

  // ── What it means ─────────────────────────────────────────────────────────

  ghost predicate AllUnrepointed(ak: string -> string, m: map<string, string>, plans: seq<Plan>)
  {
    forall g :: 0 <= g < |plans| ==> Unrepointed(ak, m, Keys(plans[g]), ak(plans[g].keep))
  }

  /** It is sound to validate every group against the table as it is before the batch: what the first
      group adds leaves the rest repointing nothing. */
  lemma RestStaysUnrepointed(ak: string -> string, m: map<string, string>, plans: seq<Plan>)
    requires plans != [] && WellFormed(ak, plans) && AllUnrepointed(ak, m, plans)
    ensures AllUnrepointed(ak, AddedMap(m, Keys(plans[0]), plans[0].keep), plans[1..])
  {
    var rest := plans[1..];
    WellFormedTail(ak, plans);
    forall g | 0 <= g < |rest|
      ensures Unrepointed(ak, AddedMap(m, Keys(plans[0]), plans[0].keep), Keys(rest[g]), ak(rest[g].keep))
    {
      assert rest[g] == plans[g + 1];
      GroupsDoNotInteract(ak, m, Keys(plans[0]), plans[0].keep, Keys(rest[g]), ak(rest[g].keep));
    }
  }

  lemma {:induction false} BatchKeepsFlat(ak: string -> string, m: map<string, string>, plans: seq<Plan>)
    requires WellFormed(ak, plans) && Flat(ak, m) && AllUnrepointed(ak, m, plans)
    ensures Flat(ak, BatchMap(m, plans))
    decreases plans
  {
    if plans != [] {
      assert Unrepointed(ak, m, Keys(plans[0]), ak(plans[0].keep));
      AddingKeepsFlat(ak, m, Keys(plans[0]), plans[0].keep);
      WellFormedTail(ak, plans);
      RestStaysUnrepointed(ak, m, plans);
      BatchKeepsFlat(ak, AddedMap(m, Keys(plans[0]), plans[0].keep), plans[1..]);
    }
  }

  /** The same groups applied as one merge after another. */
  function MergedOneByOne(ak: string -> string, m: map<string, string>, plans: seq<Plan>): map<string, string>
    decreases plans
  {
    if plans == [] then m
    else MergedOneByOne(ak, MergedMap(ak, m, Keys(plans[0]), KeepName(ak, m, Keys(plans[0]), plans[0].keep)), plans[1..])
  }

  /** One batch means what its groups merged one by one mean, for every key. */
  lemma {:induction false} BatchMeansItsMerges(ak: string -> string, batched: map<string, string>, merged: map<string, string>, plans: seq<Plan>)
    requires KeyMap(ak, batched) == KeyMap(ak, merged)
    requires WellFormed(ak, plans) && AllUnrepointed(ak, batched, plans)
    ensures KeyMap(ak, BatchMap(batched, plans)) == KeyMap(ak, MergedOneByOne(ak, merged, plans))
    decreases plans
  {
    if plans != [] {
      var requested, keep := Keys(plans[0]), plans[0].keep;
      assert Unrepointed(ak, batched, requested, ak(keep));
      AddingIsMerging(ak, batched, merged, requested, keep);
      WellFormedTail(ak, plans);
      RestStaysUnrepointed(ak, batched, plans);
      BatchMeansItsMerges(ak, AddedMap(batched, requested, keep),
                          MergedMap(ak, merged, requested, KeepName(ak, merged, requested, keep)), plans[1..]);
    }
  }

  /** After a batch, a group's keys and everybody who meant one of them mean its kept person. */
  lemma BatchFoldsItsGroups(ak: string -> string, m: map<string, string>, plans: seq<Plan>, plan: Plan, k: string)
    requires WellFormed(ak, plans) && plan in plans && Unrepointed(ak, m, Keys(plan), ak(plan.keep))
    requires k in Keys(plan) || Person(ak, m, k) in Keys(plan)
    ensures Person(ak, BatchMap(m, plans), k) == ak(plan.keep)
  {
    var after := BatchMap(m, plans);
    BatchMapIsItsGroups(ak, m, plans, k);
    var g :| 0 <= g < |plans| && plans[g] == plan;
    assert ak(plan.keep) in Keys(plan);
    if k !in m {
      assert Gives(plans, k, plan.keep);
      OneGroupGives(ak, plans, k, after[k], plan.keep);
    }
  }
}
