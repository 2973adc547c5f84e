/** What the suggestion list promises a batch will do: `suggestions`, `_batch_keep_name`,
    and the promise kept by `merge_batch`. */
module Preview {
  import opened Wrappers
  import opened Strings
  import opened Aliases
  import opened Index
  import opened Listings
  import opened Repoint
  import opened Table
  import opened Batches
  import opened Decisions
  import opened Rules
  import opened Suggest

  // ── The name a batch would keep ───────────────────────────────────────────

  /** Most books first, then by name and key. */
  predicate MoreCredited(casefold: string -> string, a: Entry, b: Entry)
  {
    || |a.books| > |b.books|
    || (|a.books| == |b.books|
        && (Before(casefold(a.name), casefold(b.name)) || (casefold(a.name) == casefold(b.name) && Before(a.key, b.key))))
  }

  function MostCredited(casefold: string -> string, entries: seq<Entry>): Entry
    requires entries != []
  {
    if |entries| == 1 then entries[0]
    else
      var best := MostCredited(casefold, entries[..|entries| - 1]);
      if MoreCredited(casefold, entries[|entries| - 1], best) then entries[|entries| - 1] else best
  }

  lemma MoreCreditedIsTransitive(casefold: string -> string, a: Entry, b: Entry, c: Entry)
    requires MoreCredited(casefold, a, b) && MoreCredited(casefold, b, c)
    ensures MoreCredited(casefold, a, c)
  {
    if ShownBefore(casefold, a, b) && ShownBefore(casefold, b, c) {
      ShownBeforeIsTransitive(casefold, a, b, c);
    }
  }

  /** The one chosen has more books than anybody else, or as many and stands before them in the list. */
  lemma {:induction false} MostCreditedIsFirst(casefold: string -> string, entries: seq<Entry>)
    requires entries != [] && forall d, e :: d in entries && e in entries && d.key == e.key ==> d == e
    ensures MostCredited(casefold, entries) in entries
    ensures forall e :: e in entries && e.key != MostCredited(casefold, entries).key ==> MoreCredited(casefold, MostCredited(casefold, entries), e)
  {
    if |entries| > 1 {
      var init, last := entries[..|entries| - 1], entries[|entries| - 1];
      var best := MostCredited(casefold, init);
      MostCreditedIsFirst(casefold, init);
      assert entries == init + [last];
      ShownBeforeIsStrict(casefold, last, best);
      forall e | e in init && e.key != MostCredited(casefold, entries).key ensures MoreCredited(casefold, MostCredited(casefold, entries), e) {
        if MoreCredited(casefold, last, best) && e.key != best.key {
          MoreCreditedIsTransitive(casefold, last, best, e);
        }
      }
    }
  }

  function EntriesOf(byKey: map<string, Entry>, keys: seq<string>): seq<Entry>
  {
    if keys == [] then []
    else (if keys[0] in byKey then [byKey[keys[0]]] else []) + EntriesOf(byKey, keys[1..])
  }

  lemma {:induction false} EntriesOfReads(byKey: map<string, Entry>, keys: seq<string>)
    ensures forall e :: e in EntriesOf(byKey, keys) <==> exists k :: k in keys && k in byKey && byKey[k] == e
  {
    if keys != [] {
      EntriesOfReads(byKey, keys[1..]);
      assert forall k :: k in keys <==> k == keys[0] || k in keys[1..];
    }
  }

  function DecidedAmong(keys: seq<string>, decided: set<string>): (among: seq<string>)
  {
    if keys == [] then []
    else (if keys[0] in decided then [keys[0]] else []) + DecidedAmong(keys[1..], decided)
  }

  lemma {:induction false} DecidedAmongReads(keys: seq<string>, decided: set<string>)
    ensures forall k :: k in DecidedAmong(keys, decided) <==> k in keys && k in decided
  {
    if keys != [] {
      DecidedAmongReads(keys[1..], decided);
    }
  }

  /** The name of the first entry carrying this key. */
  function NameOf(entries: seq<Entry>, key: string): Option<string>
  {
    if entries == [] then None
    else if entries[0].key == key then Some(entries[0].name)
    else NameOf(entries[1..], key)
  }

  lemma {:induction false} NameOfFinds(entries: seq<Entry>, e: Entry)
    requires e in entries
    requires forall d :: d in entries && d.key == e.key ==> d == e
    ensures NameOf(entries, e.key) == Some(e.name)
  {
    if entries[0].key != e.key {
      NameOfFinds(entries[1..], e);
    } else {
      assert entries[0] in entries;
    }
  }

  /** The one name somebody has merged into, or else the most credited. */
  function Candidate(casefold: string -> string, keys: seq<string>, byKey: map<string, Entry>, decided: set<string>): Option<string>
  {
    var entries := EntriesOf(byKey, keys);
    var already := SortedKeys(DecidedAmong(keys, decided));
    if entries == [] then None
    else if already != [] then NameOf(entries, already[0])
    else Some(MostCredited(casefold, entries).name)
  }

  /** `_batch_keep_name`: the name a batch would fold the group into, or nothing where it is held back. */
  function BatchKeepName(ak: string -> string, casefold: string -> string, keys: seq<string>, byKey: map<string, Entry>, index: AliasIndex): Option<string>
  {
    var candidate := Candidate(casefold, keys, byKey, index.Decided());
    if candidate.None? || WouldRepoint(index, (set k | k in keys), ak(candidate.value)) then None else candidate
  }

  /** The index a preview is drawn from: each entry under its own key and headed by a name with that key. */
  ghost predicate Headed(ak: string -> string, byKey: map<string, Entry>)
  {
    forall k :: k in byKey ==> byKey[k].key == k && ak(byKey[k].name) == k
  }

  lemma IndexIsHeaded(r: Reading, shelf: seq<Credit>, rows: seq<Alias>)
    ensures Headed(r.key, IndexOf(r, shelf, rows))
  {
    forall k | k in IndexOf(r, shelf, rows) ensures IndexOf(r, shelf, rows)[k].key == k && r.key(IndexOf(r, shelf, rows)[k].name) == k {
      NameCarriesKey(r, shelf, rows, k);
    }
  }

  /** More books, or as many and an earlier name with its case folded, or the same one and an earlier key. */
  ghost predicate IsCreditedAbove(casefold: string -> string, a: Entry, b: Entry)
  {
    || |a.books| > |b.books|
    || (|a.books| == |b.books| && exists n: nat :: IsBeforeAt(casefold(a.name), casefold(b.name), n))
    || (|a.books| == |b.books| && casefold(a.name) == casefold(b.name) && exists n: nat :: IsBeforeAt(a.key, b.key, n))
  }

  lemma MoreCreditedIs(casefold: string -> string, a: Entry, b: Entry)
    ensures MoreCredited(casefold, a, b) <==> IsCreditedAbove(casefold, a, b)
  {
    BeforeIs(casefold(a.name), casefold(b.name));
    BeforeIs(a.key, b.key);
  }

  /** The candidate is one of the group's own names: that of the first decided one where there is one, and
      otherwise of the one credited above every other. */
  lemma CandidateIsOneOfThem(ak: string -> string, casefold: string -> string, keys: seq<string>, byKey: map<string, Entry>, decided: set<string>)
    requires keys != [] && Headed(ak, byKey) && forall k :: k in keys ==> k in byKey
    ensures var c := Candidate(casefold, keys, byKey, decided);
            && c.Some? && ak(c.value) in keys && c.value == byKey[ak(c.value)].name
            && (forall k :: k in keys && k in decided && k != ak(c.value) ==> ak(c.value) in decided && Before(ak(c.value), k))
            && ((exists k :: k in keys && k in decided) ==> ak(c.value) in decided)
            && ((forall k :: k in keys ==> k !in decided) ==>
                  forall k :: k in keys && k != ak(c.value) ==> IsCreditedAbove(casefold, byKey[ak(c.value)], byKey[k]))
  {
    var entries := EntriesOf(byKey, keys);
    EntriesOfReads(byKey, keys);
    assert keys[0] in keys && byKey[keys[0]] in entries;
    DecidedAmongReads(keys, decided);
    var among := DecidedAmong(keys, decided);
    SortedKeysAreAscending(among);
    var already := SortedKeys(among);
    if already != [] {
      var k := already[0];
      assert k in already && k in among;
      NameOfFinds(entries, byKey[k]);
    } else {
      var most := MostCredited(casefold, entries);
      MostCreditedIsFirst(casefold, entries);
      forall k | k in keys ensures k !in decided && byKey[k] in entries && (k != most.key ==> IsCreditedAbove(casefold, most, byKey[k])) {
        assert k in decided ==> k in among && k in already;
        MoreCreditedIs(casefold, most, byKey[k]);
      }
    }
  }

  /** Nobody in the group means anybody else: every key of it is a person in the index. */
  ghost predicate Settled(ak: string -> string, m: map<string, string>, keys: set<string>)
  {
    forall k :: k in keys ==> Person(ak, m, k) == k
  }

  lemma IndexedIsSettled(r: Reading, shelf: seq<Credit>, rows: seq<Alias>)
    requires Flat(r.key, AsMap(rows))
    ensures Settled(r.key, AsMap(rows), IndexOf(r, shelf, rows).Keys)
  {
    var m, occ := AsMap(rows), Occurrences(r.split, shelf);
    FlatIsResolved(r.key, m);
    FlatIsAcyclic(r.key, m);
    forall k | k in IndexOf(r, shelf, rows) ensures Person(r.key, m, k) == k {
      assert k in People(Meaning(r.key, m), occ);
      var o :| o in occ && Meaning(r.key, m)(o.spelling) == k;
      PersonIsSettled(r.key, m, r.key(o.spelling));
    }
  }

  /** For people in the index, repointing nothing is having nobody else decided in the group. */
  lemma UnrepointedIffAloneDecided(ak: string -> string, m: map<string, string>, index: AliasIndex, keys: set<string>, keepKey: string)
    requires IndexesAliases(ak, m, index) && Settled(ak, m, keys) && keepKey in keys
    ensures Unrepointed(ak, m, keys, keepKey) <==> forall d :: d in keys && d in index.Decided() ==> d == keepKey
  {
    if Unrepointed(ak, m, keys, keepKey) {
      forall d | d in keys && d in index.Decided() ensures d == keepKey {
        DecidedIsBothEnds(ak, m, index, d);
        assert Person(ak, m, d) == d && Person(ak, m, keepKey) == keepKey;
      }
    }
    if forall d :: d in keys && d in index.Decided() ==> d == keepKey {
      forall k | k in keys && k in m ensures ak(m[k]) == keepKey {
        DecidedIsBothEnds(ak, m, index, k);
        assert Person(ak, m, k) == k;
      }
      forall a | a in m && ak(m[a]) in keys && a != keepKey ensures ak(m[a]) == keepKey {
        DecidedIsBothEnds(ak, m, index, ak(m[a]));
      }
    }
  }

  /** A group is held back if and only if two of its names are already decided, and then no
      name in it could be kept. The count the code calls a proxy is, on a flat table, the rule. */
  lemma HeldBackIffTwoDecided(ak: string -> string, casefold: string -> string, m: map<string, string>, index: AliasIndex,
                              keys: seq<string>, byKey: map<string, Entry>)
    requires IndexesAliases(ak, m, index) && Headed(ak, byKey)
    requires keys != [] && (forall k :: k in keys ==> k in byKey) && Settled(ak, m, (set k | k in keys))
    ensures BatchKeepName(ak, casefold, keys, byKey, index).None?
       <==> exists c, d :: c in keys && d in keys && c != d && c in index.Decided() && d in index.Decided()
    ensures BatchKeepName(ak, casefold, keys, byKey, index).None? ==>
              forall keep :: keep in keys ==> WouldRepoint(index, (set k | k in keys), keep)
  {
    var requested := set k | k in keys;
    var decided := index.Decided();
    CandidateIsOneOfThem(ak, casefold, keys, byKey, decided);
    var c := Candidate(casefold, keys, byKey, decided).value;
    UnrepointedIsTheRule(ak, m, index, requested, ak(c));
    UnrepointedIffAloneDecided(ak, m, index, requested, ak(c));
    if BatchKeepName(ak, casefold, keys, byKey, index).None? {
      var d :| d in keys && d in decided && d != ak(c);
      assert ak(c) in decided;
      forall keep | keep in keys ensures WouldRepoint(index, requested, keep) {
        UnrepointedIsTheRule(ak, m, index, requested, keep);
        UnrepointedIffAloneDecided(ak, m, index, requested, keep);
      }
    }
  }

  lemma ListedKeysAreSettled(r: Reading, shelf: seq<Credit>, rows: seq<Alias>, keys: set<string>)
    requires Flat(r.key, AsMap(rows)) && keys <= IndexOf(r, shelf, rows).Keys
    ensures Settled(r.key, AsMap(rows), keys)
  {
    IndexedIsSettled(r, shelf, rows);
    forall k | k in keys ensures Person(r.key, AsMap(rows), k) == k {
      assert k in IndexOf(r, shelf, rows).Keys;
    }
  }

  /** Which is so of any group out of the index of a flat table: it is held back if and only if two
      of its names are already decided. */
  lemma FlatTableHoldsBackIffTwoDecided(r: Reading, casefold: string -> string, shelf: seq<Credit>, rows: seq<Alias>,
                                        index: AliasIndex, keys: seq<string>)
    requires IndexesAliases(r.key, AsMap(rows), index) && Flat(r.key, AsMap(rows))
    requires keys != [] && forall k :: k in keys ==> k in IndexOf(r, shelf, rows)
    ensures BatchKeepName(r.key, casefold, keys, IndexOf(r, shelf, rows), index).None?
       <==> exists c, d :: c in keys && d in keys && c != d && c in index.Decided() && d in index.Decided()
    ensures BatchKeepName(r.key, casefold, keys, IndexOf(r, shelf, rows), index).None? ==>
              forall keep :: keep in keys ==> WouldRepoint(index, (set k | k in keys), keep)
  {
    var byKey := IndexOf(r, shelf, rows);
    IndexIsHeaded(r, shelf, rows);
    ListedKeysAreSettled(r, shelf, rows, (set k | k in keys));
    HeldBackIffTwoDecided(r.key, casefold, AsMap(rows), index, keys, byKey);
  }

  /** And merging some of a flat table's people into one of them repoints nothing if and only if
      nobody else among them is decided. */
  lemma FlatTableRepointsNothingIffAloneDecided(r: Reading, shelf: seq<Credit>, rows: seq<Alias>, index: AliasIndex, keys: set<string>, keepKey: string)
    requires IndexesAliases(r.key, AsMap(rows), index) && Flat(r.key, AsMap(rows))
    requires keys <= IndexOf(r, shelf, rows).Keys && keepKey in keys
    ensures !WouldRepoint(index, keys, keepKey) <==> forall d :: d in keys && d in index.Decided() ==> d == keepKey
  {
    ListedKeysAreSettled(r, shelf, rows, keys);
    UnrepointedIsTheRule(r.key, AsMap(rows), index, keys, keepKey);
    UnrepointedIffAloneDecided(r.key, AsMap(rows), index, keys, keepKey);
  }

  // ── The promise ───────────────────────────────────────────────────────────

  /** One line of the preview: a group, and the name a batch would keep. */
  datatype Line = Line(keys: seq<string>, keep: Option<string>)

  /** `suggestions`, over the groups the chosen matcher proposes. */
  method Suggestions(r: Reading, casefold: string -> string, rows: seq<Alias>, entries: map<string, Entry>, groups: seq<Suggestion>)
      returns (lines: seq<Line>)
    requires WellKeyed(rows)
    ensures PreviewsUnder(r.key, casefold, AsMap(rows), entries, groups, lines)
  {
    var aliases := IndexAliases(r.key, rows);
    lines := seq(|groups|, g requires 0 <= g < |groups| =>
      Line(groups[g].keys, BatchKeepName(r.key, casefold, groups[g].keys, entries, aliases)));
    assert Previews(r.key, casefold, entries, aliases, groups, lines);
  }

  /** A line for each group, under an index of this alias map. */
  ghost predicate PreviewsUnder(ak: string -> string, casefold: string -> string, m: map<string, string>, byKey: map<string, Entry>,
                                groups: seq<Suggestion>, lines: seq<Line>)
  {
    exists index :: IndexesAliases(ak, m, index) && Previews(ak, casefold, byKey, index, groups, lines)
  }

  ghost predicate Previews(ak: string -> string, casefold: string -> string, byKey: map<string, Entry>, index: AliasIndex,
                           groups: seq<Suggestion>, lines: seq<Line>)
  {
    && |lines| == |groups|
    && forall g :: 0 <= g < |groups| ==> lines[g] == Line(groups[g].keys, BatchKeepName(ak, casefold, groups[g].keys, byKey, index))
  }

  /** Everything not held back, as one batch. */
  function Submitted(lines: seq<Line>): seq<Group>
  {
    if lines == [] then []
    else (if lines[0].keep.Some? then [Group(lines[0].keys, lines[0].keep.value)] else []) + Submitted(lines[1..])
  }

  /** What these names ask for is the names themselves. */
  ghost predicate AskForThemselves(ak: string -> string, keys: seq<string>)
  {
    Requested(ak, keys) == set k | k in keys
  }

  /** As it does in every line that would be submitted. */
  ghost predicate LinesAskForThemselves(ak: string -> string, lines: seq<Line>)
  {
    forall l :: l in lines && l.keep.Some? ==> AskForThemselves(ak, l.keys)
  }

  /** What makes a line safe to submit: its names are in the index and ask for themselves, it keeps one
      of them, and that repoints nothing. */
  ghost predicate Submittable(ak: string -> string, m: map<string, string>, people: set<string>, line: Line)
  {
    line.keep.Some? ==>
      && (forall k :: k in line.keys ==> k in people)
      && AskForThemselves(ak, line.keys)
      && ak(line.keep.value) in line.keys
      && Unrepointed(ak, m, (set k | k in line.keys), ak(line.keep.value))
  }

  ghost predicate LinesDisjoint(lines: seq<Line>)
  {
    forall i, j, x :: 0 <= i < j < |lines| && x in lines[i].keys ==> x !in lines[j].keys
  }

  /** A batch that is refused for nothing. */
  ghost predicate AcceptedPlans(ak: string -> string, m: map<string, string>, reachable: set<string>, plans: seq<Plan>)
  {
    && WellFormed(ak, plans)
    && forall plan :: plan in plans ==> Keys(plan) <= reachable && Unrepointed(ak, m, Keys(plan), ak(plan.keep))
  }

  lemma PrependPlan(ak: string -> string, m: map<string, string>, reachable: set<string>, first: Plan, rest: seq<Plan>)
    requires AcceptedPlans(ak, m, reachable, rest)
    requires ak(first.keep) in Keys(first) && Keys(first) <= reachable && Unrepointed(ak, m, Keys(first), ak(first.keep))
    requires forall plan :: plan in rest ==> Keys(first) !! Keys(plan)
    ensures AcceptedPlans(ak, m, reachable, [first] + rest)
  {
    var plans := [first] + rest;
    assert forall g :: 0 < g < |plans| ==> plans[g] == rest[g - 1] && plans[g] in rest;
  }

  /** Each plan of a submission is about the names of some line. */
  ghost predicate FromLines(plans: seq<Plan>, lines: seq<Line>)
  {
    forall plan, k :: plan in plans && k in Keys(plan) ==> exists l :: l in lines && k in l.keys
  }

  lemma LaterLines(lines: seq<Line>)
    requires lines != [] && LinesDisjoint(lines)
    ensures LinesDisjoint(lines[1..])
    ensures forall l, k :: l in lines[1..] && k in lines[0].keys ==> k !in l.keys
  {
    var rest := lines[1..];
    forall i, j, x | 0 <= i < j < |rest| && x in rest[i].keys ensures x !in rest[j].keys {
      assert rest[i] == lines[i + 1] && rest[j] == lines[j + 1];
    }
    forall l, k | l in rest && k in lines[0].keys ensures k !in l.keys {
      var j :| 0 <= j < |rest| && rest[j] == l;
      assert lines[j + 1] == l;
    }
  }

  lemma {:induction false} SubmittedIsAccepted(ak: string -> string, m: map<string, string>, people: set<string>, reachable: set<string>, lines: seq<Line>)
    requires people <= reachable
    requires LinesDisjoint(lines) && forall l :: l in lines ==> Submittable(ak, m, people, l)
    ensures AcceptedPlans(ak, m, reachable, PlansOf(ak, Submitted(lines)))
    ensures FromLines(PlansOf(ak, Submitted(lines)), lines)
  {
    if lines != [] {
      var rest := lines[1..];
      assert forall l :: l in lines <==> l == lines[0] || l in rest;
      LaterLines(lines);
      SubmittedIsAccepted(ak, m, people, reachable, rest);
      SubmittedLineByLine(ak, lines);
      if lines[0].keep.Some? {
        FirstLineIsAccepted(ak, m, people, reachable, lines, PlansOf(ak, Submitted(rest)));
      }
    }
  }

  lemma SubmittedLineByLine(ak: string -> string, lines: seq<Line>)
    requires lines != []
    ensures var rest := PlansOf(ak, Submitted(lines[1..]));
            PlansOf(ak, Submitted(lines))
            == (if lines[0].keep.Some? then [PlanOf(ak, Group(lines[0].keys, lines[0].keep.value))] + rest else rest)
  {
  }

  lemma FirstLineIsAccepted(ak: string -> string, m: map<string, string>, people: set<string>, reachable: set<string>, lines: seq<Line>, rest: seq<Plan>)
    requires people <= reachable
    requires lines != [] && lines[0].keep.Some? && LinesDisjoint(lines) && Submittable(ak, m, people, lines[0])
    requires AcceptedPlans(ak, m, reachable, rest) && FromLines(rest, lines[1..])
    ensures var first := PlanOf(ak, Group(lines[0].keys, lines[0].keep.value));
            AcceptedPlans(ak, m, reachable, [first] + rest) && FromLines([first] + rest, lines)
  {
    var keys := lines[0].keys;
    var first := PlanOf(ak, Group(keys, lines[0].keep.value));
    InOrderIsRequested(ak, keys);
    assert Keys(first) == set k | k in keys;
    LaterLines(lines);
    forall plan | plan in rest ensures Keys(first) !! Keys(plan) {
      forall k | k in Keys(plan) ensures k !in Keys(first) {
        var l :| l in lines[1..] && k in l.keys;
      }
    }
    PrependPlan(ak, m, reachable, first, rest);
    assert lines[0] in lines;
    assert forall l :: l in lines[1..] ==> l in lines;
  }

  lemma PreviewedIsSubmittable(ak: string -> string, casefold: string -> string, m: map<string, string>, byKey: map<string, Entry>,
                               index: AliasIndex, keys: seq<string>)
    requires IndexesAliases(ak, m, index) && Headed(ak, byKey)
    requires keys != [] && forall k :: k in keys ==> k in byKey
    requires BatchKeepName(ak, casefold, keys, byKey, index).Some? ==> AskForThemselves(ak, keys)
    ensures Submittable(ak, m, byKey.Keys, Line(keys, BatchKeepName(ak, casefold, keys, byKey, index)))
  {
    CandidateIsOneOfThem(ak, casefold, keys, byKey, index.Decided());
    var c := Candidate(casefold, keys, byKey, index.Decided());
    UnrepointedIsTheRule(ak, m, index, (set k | k in keys), ak(c.value));
  }

  /** The groups a preview shows: disjoint, each of more than one name in order, all of them in the index. */
  ghost predicate Proposed(people: set<string>, groups: seq<Suggestion>)
  {
    && (forall g :: g in groups ==> |g.keys| > 1 && Ascending(g.keys) && forall k :: k in g.keys ==> k in people)
    && Disjoint(groups)
  }

  lemma PreviewIsAccepted(ak: string -> string, casefold: string -> string, m: map<string, string>, byKey: map<string, Entry>,
                          reachable: set<string>, index: AliasIndex, groups: seq<Suggestion>, lines: seq<Line>)
    requires Headed(ak, byKey) && byKey.Keys <= reachable && LinesAskForThemselves(ak, lines)
    requires IndexesAliases(ak, m, index) && Proposed(byKey.Keys, groups)
    requires Previews(ak, casefold, byKey, index, groups, lines)
    ensures AcceptedPlans(ak, m, reachable, PlansOf(ak, Submitted(lines)))
  {
    forall l | l in lines ensures Submittable(ak, m, byKey.Keys, l) {
      var g :| 0 <= g < |lines| && lines[g] == l;
      assert groups[g] in groups;
      PreviewedIsSubmittable(ak, casefold, m, byKey, index, groups[g].keys);
    }
    PreviewIsDisjoint(ak, casefold, byKey, index, groups, lines);
    SubmittedIsAccepted(ak, m, byKey.Keys, reachable, lines);
  }

  lemma PreviewIsDisjoint(ak: string -> string, casefold: string -> string, byKey: map<string, Entry>, index: AliasIndex,
                          groups: seq<Suggestion>, lines: seq<Line>)
    requires Disjoint(groups) && Previews(ak, casefold, byKey, index, groups, lines)
    ensures LinesDisjoint(lines)
  {
    forall i, j, x | 0 <= i < j < |lines| && x in lines[i].keys ensures x !in lines[j].keys {
      assert lines[i].keys == groups[i].keys && lines[j].keys == groups[j].keys;
    }
  }

  lemma RefusedForNothing(ak: string -> string, m: map<string, string>, reachable: set<string>, plans: seq<Plan>)
    requires AcceptedPlans(ak, m, reachable, plans)
    ensures WellFormed(ak, plans) && BatchRefusal(ak, m, reachable, plans).None?
  {
    BatchRefusesIff(ak, m, reachable, plans);
  }

  /** A batch that names somebody whose key's own key nobody visible carries is refused. */
  lemma UnsettledKeyIsRefused(ak: string -> string, m: map<string, string>, reachable: set<string>, groups: seq<Group>, g: nat, k: string)
    requires g < |groups| && k in groups[g].keys && ak(k) !in reachable
    ensures BatchRefusal(ak, m, reachable, PlansOf(ak, groups)).Some?
  {
    var plans := PlansOf(ak, groups);
    BatchRefusesIff(ak, m, reachable, plans);
    InOrderIsRequested(ak, groups[g].keys);
    assert ak(k) in Keys(plans[g]) && plans[g] in plans;
  }

  /** Each line with a name is a group of the submission. */
  lemma {:induction false} LineIsSubmitted(lines: seq<Line>, i: nat) returns (g: nat)
    requires i < |lines| && lines[i].keep.Some?
    ensures g < |Submitted(lines)| && Submitted(lines)[g] == Group(lines[i].keys, lines[i].keep.value)
  {
    if i == 0 {
      g := 0;
    } else {
      g := LineIsSubmitted(lines[1..], i - 1);
      if lines[0].keep.Some? { g := g + 1; }
    }
  }

  lemma LinesAreListed(ak: string -> string, casefold: string -> string, byKey: map<string, Entry>, index: AliasIndex,
                       groups: seq<Suggestion>, lines: seq<Line>)
    requires Proposed(byKey.Keys, groups) && Previews(ak, casefold, byKey, index, groups, lines)
    ensures forall l, k :: l in lines && k in l.keys ==> k in byKey.Keys
  {
    forall l, k | l in lines && k in l.keys ensures k in byKey.Keys {
      var i :| 0 <= i < |lines| && lines[i] == l;
      assert groups[i] in groups && l.keys == groups[i].keys;
    }
  }

  // ── From the shelf to the table ───────────────────────────────────────────

  /** What `suggest_merges` offers of an index is proposed in the sense the preview needs. */
  lemma OfferedIsProposed(index: map<string, Entry>, entries: seq<Entry>, edges: seq<Edge>, all: seq<Suggestion>, offered: seq<Suggestion>)
    requires Lists(entries, index) && IsGrouping(NameBy(entries), edges, all) && IsCut(all, offered) && offered <= Rank(all)
    ensures Proposed(index.Keys, offered)
  {
    NameByReads(entries);
    forall g | g in offered ensures |g.keys| > 1 && Ascending(g.keys) && forall k :: k in g.keys ==> k in index.Keys {
      assert IsGroup(NameBy(entries), edges, g);
      forall k | k in g.keys ensures k in index.Keys {
        assert k in NameBy(entries);
        var e :| e in entries && e.key == k;
      }
    }
    RankIsDisjoint(all);
    forall i, j, x | 0 <= i < j < |offered| && x in offered[i].keys ensures x !in offered[j].keys {
      assert offered[i] == Rank(all)[i] && offered[j] == Rank(all)[j];
    }
  }

  lemma {:induction false} RankIsDisjoint(groups: seq<Suggestion>)
    requires Disjoint(groups)
    ensures Disjoint(Rank(groups))
  {
    if groups != [] {
      var rest := groups[1..];
      forall i, j, x | 0 <= i < j < |rest| && x in rest[i].keys ensures x !in rest[j].keys {
        assert rest[i] == groups[i + 1] && rest[j] == groups[j + 1];
      }
      RankIsDisjoint(rest);
      RankRanks(rest);
      forall h, x | h in Rank(rest) && x in groups[0].keys ensures x !in h.keys {
        assert h in multiset(Rank(rest));
        assert h in rest;
        var j :| 0 <= j < |rest| && rest[j] == h;
        assert groups[j + 1] == h;
      }
      PlaceIsDisjoint(groups[0], Rank(rest));
    }
  }

  lemma {:induction false} PlaceIsDisjoint(g: Suggestion, ranked: seq<Suggestion>)
    requires Disjoint(ranked)
    requires forall h, x :: h in ranked && x in g.keys ==> x !in h.keys
    ensures Disjoint(Place(g, ranked))
    ensures forall h :: h in Place(g, ranked) <==> h == g || h in ranked
  {
    if ranked != [] && Ahead(ranked[0], g) {
      var rest := ranked[1..];
      forall i, j, x | 0 <= i < j < |rest| && x in rest[i].keys ensures x !in rest[j].keys {
        assert rest[i] == ranked[i + 1] && rest[j] == ranked[j + 1];
      }
      PlaceIsDisjoint(g, rest);
      assert forall h :: h in ranked <==> h == ranked[0] || h in rest;
      var placed := Place(g, rest);
      forall j, x | 0 <= j < |placed| && x in ranked[0].keys ensures x !in placed[j].keys {
        assert placed[j] in placed;
        if placed[j] == g {
          assert ranked[0] in ranked;
        } else {
          var i :| 0 <= i < |rest| && rest[i] == placed[j];
          assert ranked[i + 1] == rest[i];
        }
      }
    }
  }
}
