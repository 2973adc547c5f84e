/** What is on screen is what is applied: whom every key means after the preview is submitted, and exactly
    when that is what the preview showed. */
module Promise {
  import opened Wrappers
  import opened Strings
  import opened Aliases
  import opened Index
  import opened Repoint
  import opened Batches
  import opened BatchOrder
  import opened Decisions
  import opened Requests
  import opened Suggest
  import opened Preview

  /** What one line shows: two names or more, in order, none of whom means anybody else, and one of
      them to keep. */
  ghost predicate IsShown(ak: string -> string, m: map<string, string>, l: Line)
  {
    && |l.keys| > 1 && Ascending(l.keys) && Settled(ak, m, (set k | k in l.keys))
    && (l.keep.Some? ==> ak(l.keep.value) in l.keys)
  }

  ghost predicate AllShown(ak: string -> string, m: map<string, string>, lines: seq<Line>)
  {
    LinesDisjoint(lines) && forall l :: l in lines ==> IsShown(ak, m, l)
  }

  /** Everybody in a submitted line means the name it keeps. */
  ghost predicate FoldsTheLines(ak: string -> string, after: map<string, string>, lines: seq<Line>)
  {
    forall l, k :: l in lines && l.keep.Some? && k in l.keys ==> Person(ak, after, k) == ak(l.keep.value)
  }

  /** Nobody this key means is in a submitted line. */
  ghost predicate IsOffScreen(ak: string -> string, m: map<string, string>, lines: seq<Line>, k: string)
  {
    forall l :: l in lines && l.keep.Some? ==> Person(ak, m, k) !in l.keys
  }

  /** Whatever meant somebody in a submitted line means the name the line keeps, and whatever did not
      means whom it meant. */
  ghost predicate AppliesTheLines(ak: string -> string, m: map<string, string>, after: map<string, string>, lines: seq<Line>)
  {
    && (forall l, k :: l in lines && l.keep.Some? && Person(ak, m, k) in l.keys ==> Person(ak, after, k) == ak(l.keep.value))
    && (forall k :: IsOffScreen(ak, m, lines, k) ==> Person(ak, after, k) == Person(ak, m, k))
  }

  // ── Lines and plans ───────────────────────────────────────────────────────

  function LinePlan(ak: string -> string, l: Line): Plan
    requires l.keep.Some?
  {
    PlanOf(ak, Group(l.keys, l.keep.value))
  }

  lemma LinePlanIs(ak: string -> string, lines: seq<Line>, l: Line)
    requires l in lines && l.keep.Some?
    ensures LinePlan(ak, l) in PlansOf(ak, Submitted(lines))
    ensures Keys(LinePlan(ak, l)) == Requested(ak, l.keys) && LinePlan(ak, l).keep == l.keep.value
  {
    var i :| 0 <= i < |lines| && lines[i] == l;
    var g := LineIsSubmitted(lines, i);
    InOrderIsRequested(ak, l.keys);
    assert PlansOf(ak, Submitted(lines))[g] == LinePlan(ak, l);
  }

  /** And each group of the submission is a line. */
  lemma {:induction false} SubmittedIsALine(lines: seq<Line>, g: nat) returns (l: Line)
    requires g < |Submitted(lines)|
    ensures l in lines && l.keep.Some? && Submitted(lines)[g] == Group(l.keys, l.keep.value)
  {
    if lines[0].keep.Some? && g == 0 {
      l := lines[0];
    } else {
      l := SubmittedIsALine(lines[1..], if lines[0].keep.Some? then g - 1 else g);
    }
  }

  lemma PlanIsALine(ak: string -> string, lines: seq<Line>, plan: Plan) returns (l: Line)
    requires plan in PlansOf(ak, Submitted(lines))
    ensures l in lines && l.keep.Some? && plan == LinePlan(ak, l)
  {
    var g :| 0 <= g < |Submitted(lines)| && PlansOf(ak, Submitted(lines))[g] == plan;
    l := SubmittedIsALine(lines, g);
  }

  // ── What is folded was asked for ──────────────────────────────────────────

  /** Somebody who meant themselves and now means a group's name was asked for by that group. */
  lemma FoldedIsAskedFor(ak: string -> string, m: map<string, string>, plans: seq<Plan>, plan: Plan, k: string)
    requires WellFormed(ak, plans) && plan in plans && Person(ak, m, k) == k
    requires Person(ak, BatchMap(m, plans), k) == ak(plan.keep)
    ensures k in Keys(plan)
  {
    if k == ak(plan.keep) {
      var g :| 0 <= g < |plans| && plans[g] == plan;
    } else {
      BatchMapIsItsGroups(ak, m, plans, k);
      var name := BatchMap(m, plans)[k];
      assert Gives(plans, k, name);
      var other :| other in plans && k in Keys(other) && other.keep == name;
      OneGroupKeeps(ak, plans, other, plan);
    }
  }

  lemma {:induction false} RequestedIsNoLarger(ak: string -> string, keys: seq<string>)
    ensures |Requested(ak, keys)| <= |keys|
  {
    if keys != [] {
      var n := |keys| - 1;
      assert keys[..n + 1] == keys;
      RequestedIsNoLarger(ak, keys[..n]);
      RequestedOneMore(ak, keys, n);
    }
  }

  lemma {:induction false} AscendingCount(keys: seq<string>)
    requires Ascending(keys)
    ensures |set k | k in keys| == |keys|
  {
    if keys != [] {
      var init, last := keys[..|keys| - 1], keys[|keys| - 1];
      AscendingCount(init);
      if last in init {
        var i :| 0 <= i < |init| && init[i] == last;
        BeforeIsStrict(keys[i], last);
      }
      assert (set k | k in keys) == (set k | k in init) + {last};
    }
  }

  lemma NoRoomForMore(a: set<string>, b: set<string>)
    requires a <= b && |b| <= |a|
    ensures a == b
  {
    var more := b - a;
    assert b == a + more;
    assert |b| == |a| + |more|;
  }

  lemma FoldedLineAsksForItself(ak: string -> string, m: map<string, string>, lines: seq<Line>, l: Line)
    requires l in lines && l.keep.Some? && IsShown(ak, m, l) && WellFormed(ak, PlansOf(ak, Submitted(lines)))
    requires FoldsTheLines(ak, BatchMap(m, PlansOf(ak, Submitted(lines))), lines)
    ensures AskForThemselves(ak, l.keys)
  {
    LinePlanIs(ak, lines, l);
    forall k | k in l.keys ensures k in Requested(ak, l.keys) {
      assert Person(ak, m, k) == k;
      FoldedIsAskedFor(ak, m, PlansOf(ak, Submitted(lines)), LinePlan(ak, l), k);
    }
    RequestedIsNoLarger(ak, l.keys);
    AscendingCount(l.keys);
    NoRoomForMore((set k | k in l.keys), Requested(ak, l.keys));
  }

  // ── What is asked for is folded ───────────────────────────────────────────

  lemma LinesAreApplied(ak: string -> string, m: map<string, string>, reachable: set<string>, lines: seq<Line>)
    requires LinesAskForThemselves(ak, lines) && AcceptedPlans(ak, m, reachable, PlansOf(ak, Submitted(lines)))
    ensures AppliesTheLines(ak, m, BatchMap(m, PlansOf(ak, Submitted(lines))), lines)
  {
    var plans := PlansOf(ak, Submitted(lines));
    var after := BatchMap(m, plans);
    forall l, k | l in lines && l.keep.Some? && Person(ak, m, k) in l.keys ensures Person(ak, after, k) == ak(l.keep.value) {
      LinePlanIs(ak, lines, l);
      BatchFoldsItsGroups(ak, m, plans, LinePlan(ak, l), k);
    }
    forall k | IsOffScreen(ak, m, lines, k) ensures Person(ak, after, k) == Person(ak, m, k) {
      OffScreenStays(ak, m, lines, k);
    }
  }

  lemma OffScreenStays(ak: string -> string, m: map<string, string>, lines: seq<Line>, k: string)
    requires LinesAskForThemselves(ak, lines) && WellFormed(ak, PlansOf(ak, Submitted(lines))) && IsOffScreen(ak, m, lines, k)
    ensures Person(ak, BatchMap(m, PlansOf(ak, Submitted(lines))), k) == Person(ak, m, k)
  {
    var plans := PlansOf(ak, Submitted(lines));
    BatchMapIsItsGroups(ak, m, plans, k);
    if k !in m && k in BatchMap(m, plans) {
      var plan :| plan in plans && k in Keys(plan) && plan.keep == BatchMap(m, plans)[k];
      var l := PlanIsALine(ak, lines, plan);
      LinePlanIs(ak, lines, l);
    }
  }

  /** Names that ask for themselves are asked for once each. */
  lemma AskingIsOneToOne(ak: string -> string, keys: seq<string>)
    requires Ascending(keys) && AskForThemselves(ak, keys)
    ensures AreUnlike(ak, keys)
  {
    AscendingCount(keys);
    forall i, j | 0 <= i < j < |keys| ensures ak(keys[i]) != ak(keys[j]) {
      if ak(keys[i]) == ak(keys[j]) {
        var rest := keys[..j] + keys[j + 1..];
        OneLessAsksForAll(ak, keys, i, j);
        RequestedIsNoLarger(ak, rest);
      }
    }
  }

  lemma OneLessAsksForAll(ak: string -> string, keys: seq<string>, i: nat, j: nat)
    requires i < j < |keys| && ak(keys[i]) == ak(keys[j])
    ensures Requested(ak, keys[..j] + keys[j + 1..]) == Requested(ak, keys)
  {
    var rest := keys[..j] + keys[j + 1..];
    forall k | k in keys ensures ak(k) in Requested(ak, rest) {
      var n :| 0 <= n < |keys| && keys[n] == k;
      if n == j {
        assert rest[i] == keys[i];
      } else {
        assert rest[if n < j then n else n - 1] == k;
      }
    }
  }

  /** So such lines get past the request model where they are within its bounds. */
  lemma LinesPass(ak: string -> string, m: map<string, string>, lines: seq<Line>)
    requires AllShown(ak, m, lines) && LinesAskForThemselves(ak, lines) && WellFormed(ak, PlansOf(ak, Submitted(lines)))
    requires Fits(Submitted(lines))
    ensures Passes(ak, Submitted(lines))
  {
    var groups, plans := Submitted(lines), PlansOf(ak, Submitted(lines));
    forall g | 0 <= g < |groups|
      ensures AreUnlike(ak, groups[g].keys) && KeepsOneOfThem(ak, groups[g]) && Keys(plans[g]) == Requested(ak, groups[g].keys)
    {
      var l := SubmittedIsALine(lines, g);
      AskingIsOneToOne(ak, l.keys);
      InOrderIsRequested(ak, groups[g].keys);
    }
  }

  // ── The promise ───────────────────────────────────────────────────────────

  /** What a caller can see before sending: the submission is within the bounds of a request, and each of
      its groups asks for its own names. */
  ghost predicate IsSafe(ak: string -> string, lines: seq<Line>)
  {
    Fits(Submitted(lines)) && LinesAskForThemselves(ak, lines)
  }

  /** The submission gets past the request model, is refused for nothing, and does what the lines say. */
  ghost predicate IsKept(ak: string -> string, m: map<string, string>, reachable: set<string>, lines: seq<Line>)
  {
    && Passes(ak, Submitted(lines))
    && BatchRefusal(ak, m, reachable, PlansOf(ak, Submitted(lines))).None?
    && AppliesTheLines(ak, m, BatchMap(m, PlansOf(ak, Submitted(lines))), lines)
  }

  lemma AppliedIsFolded(ak: string -> string, m: map<string, string>, after: map<string, string>, lines: seq<Line>)
    requires AllShown(ak, m, lines) && AppliesTheLines(ak, m, after, lines)
    ensures FoldsTheLines(ak, after, lines)
  {
    forall l, k | l in lines && l.keep.Some? && k in l.keys ensures Person(ak, after, k) == ak(l.keep.value) {
      assert IsShown(ak, m, l) && Person(ak, m, k) == k;
    }
  }

  lemma FoldedLinesAskForThemselves(ak: string -> string, m: map<string, string>, lines: seq<Line>)
    requires AllShown(ak, m, lines) && WellFormed(ak, PlansOf(ak, Submitted(lines)))
    requires FoldsTheLines(ak, BatchMap(m, PlansOf(ak, Submitted(lines))), lines)
    ensures LinesAskForThemselves(ak, lines)
  {
    forall l | l in lines && l.keep.Some? ensures AskForThemselves(ak, l.keys) {
      FoldedLineAsksForItself(ak, m, lines, l);
    }
  }

  /** The promise is kept if and only if the submission is within the bounds of a request and what each
      group of it asks for is its own names. */
  lemma IsKeptIff(ak: string -> string, m: map<string, string>, reachable: set<string>, lines: seq<Line>)
    requires AllShown(ak, m, lines)
    requires LinesAskForThemselves(ak, lines) ==> AcceptedPlans(ak, m, reachable, PlansOf(ak, Submitted(lines)))
    ensures IsKept(ak, m, reachable, lines) <==> IsSafe(ak, lines)
    ensures Passes(ak, Submitted(lines)) && FoldsTheLines(ak, BatchMap(m, PlansOf(ak, Submitted(lines))), lines) ==>
              IsKept(ak, m, reachable, lines)
  {
    var groups, plans := Submitted(lines), PlansOf(ak, Submitted(lines));
    if Passes(ak, groups) && FoldsTheLines(ak, BatchMap(m, plans), lines) {
      PassesIsWellFormed(ak, groups);
      FoldedLinesAskForThemselves(ak, m, lines);
    }
    if IsKept(ak, m, reachable, lines) {
      AppliedIsFolded(ak, m, BatchMap(m, plans), lines);
    }
    if Fits(groups) && LinesAskForThemselves(ak, lines) {
      LinesPass(ak, m, lines);
      RefusedForNothing(ak, m, reachable, plans);
      LinesAreApplied(ak, m, reachable, lines);
    }
  }

  lemma PreviewIsShown(ak: string -> string, casefold: string -> string, m: map<string, string>, byKey: map<string, Entry>,
                       index: AliasIndex, groups: seq<Suggestion>, lines: seq<Line>)
    requires Headed(ak, byKey) && Settled(ak, m, byKey.Keys) && Proposed(byKey.Keys, groups)
    requires Previews(ak, casefold, byKey, index, groups, lines)
    ensures AllShown(ak, m, lines)
  {
    PreviewIsDisjoint(ak, casefold, byKey, index, groups, lines);
    forall l | l in lines ensures IsShown(ak, m, l) {
      var g :| 0 <= g < |lines| && lines[g] == l;
      assert groups[g] in groups;
      CandidateIsOneOfThem(ak, casefold, groups[g].keys, byKey, index.Decided());
    }
  }

  /** For every shelf and every flat table: submitting what the preview shows does what it shows, to the
      people it shows and nobody else, if and only if the submission is within the bounds of a request
      and what each group of it asks for is its own names. */
  lemma PromiseIsKeptIff(r: Reading, casefold: string -> string, shelf: seq<Credit>, rows: seq<Alias>, index: AliasIndex,
                         groups: seq<Suggestion>, lines: seq<Line>)
    requires Flat(r.key, AsMap(rows))
    requires IndexesAliases(r.key, AsMap(rows), index) && Proposed(IndexOf(r, shelf, rows).Keys, groups)
    requires Previews(r.key, casefold, IndexOf(r, shelf, rows), index, groups, lines)
    ensures IsKept(r.key, AsMap(rows), ReachableIn(IndexOf(r, shelf, rows)), lines)
       <==> IsSafe(r.key, lines)
    ensures Passes(r.key, Submitted(lines)) && FoldsTheLines(r.key, BatchMap(AsMap(rows), PlansOf(r.key, Submitted(lines))), lines) ==>
              IsKept(r.key, AsMap(rows), ReachableIn(IndexOf(r, shelf, rows)), lines)
  {
    var byKey := IndexOf(r, shelf, rows);
    IndexIsHeaded(r, shelf, rows);
    IndexedIsSettled(r, shelf, rows);
    PreviewIsShown(r.key, casefold, AsMap(rows), byKey, index, groups, lines);
    if LinesAskForThemselves(r.key, lines) {
      PreviewIsAccepted(r.key, casefold, AsMap(rows), byKey, ReachableIn(byKey), index, groups, lines);
    }
    IsKeptIff(r.key, AsMap(rows), ReachableIn(byKey), lines);
  }
}
