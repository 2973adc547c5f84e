/** A shelf on which the preview's promise is broken.

    Two names equal but for a space, whose keys are not their own keys, are offered as one group,
    and the batch that submits it is refused. */
module Unsettled {
  import opened Wrappers
  import opened Strings
  import opened Spelling
  import opened Aliases
  import opened Index
  import opened Listings
  import opened Repoint
  import opened Batches
  import opened Decisions
  import opened Requests
  import opened Rules
  import opened AllPairs
  import opened Forest
  import opened Suggest
  import opened Tested
  import opened Preview
  import opened Review
  import opened Unmerged

  // ── What the spelling rule offers ─────────────────────────────────────────

  /** Where two people are connected, something is offered. */
  lemma OnlyGroupIsOffered(ak: string -> string, index: map<string, Entry>, entries: seq<Entry>, edges: seq<Edge>, groups: seq<Suggestion>,
                           x: string, y: string)
    requires Headed(ak, index) && x in index && y in index && x != y && Lists(entries, index) && IsOffered(NameBy(entries), edges, groups)
    requires Connected(Links(edges), x, y)
    ensures groups != []
  {
    var all :| IsGrouping(NameBy(entries), edges, all) && IsCut(all, groups) && groups <= Rank(all);
    NameByReads(entries);
    assert index[x] in entries && index[y] in entries;
    assert x in NameBy(entries) && y in NameBy(entries);
    var g: Suggestion :| g in all && x in g.keys;
    assert groups == [] ==> g in groups;
  }

  /** With no row in the table, a group is held back for nothing. */
  lemma UndecidedIsOffered(ak: string -> string, casefold: string -> string, index: AliasIndex, keys: seq<string>, byKey: map<string, Entry>)
    requires IndexesAliases(ak, map[], index) && Headed(ak, byKey) && keys != [] && forall k :: k in keys ==> k in byKey
    ensures BatchKeepName(ak, casefold, keys, byKey, index).Some?
    ensures ak(BatchKeepName(ak, casefold, keys, byKey, index).value) in keys
  {
    CandidateIsOneOfThem(ak, casefold, keys, byKey, index.Decided());
    HeldBackIffTwoDecided(ak, casefold, map[], index, keys, byKey);
    forall k ensures k !in index.Decided() {
      DecidedIsBothEnds(ak, map[], index, k);
    }
  }

  // ── And what submitting it answers ────────────────────────────────────────

  /** There is something to submit, it keeps a name it does not ask for, and it asks for nobody. */
  ghost predicate IsRefused(ak: string -> string, m: map<string, string>, reachable: set<string>, groups: seq<Group>)
  {
    && groups != [] && !WellFormed(ak, PlansOf(ak, groups))
    && BatchRefusal(ak, m, reachable, PlansOf(ak, groups)) == Some(AuthorNotFound)
  }

  lemma UnknownIsRefused(ak: string -> string, m: map<string, string>, reachable: set<string>, groups: seq<Group>)
    requires groups != [] && groups[0].keys != [] && forall k :: k in groups[0].keys ==> ak(k) !in reachable
    ensures BatchRefusal(ak, m, reachable, PlansOf(ak, groups)) == Some(AuthorNotFound)
  {
    InOrderIsRequested(ak, groups[0].keys);
    assert groups[0].keys[0] in groups[0].keys;
    assert ak(groups[0].keys[0]) in Keys(PlansOf(ak, groups)[0]);
  }

  lemma KeepIsNotAskedFor(ak: string -> string, groups: seq<Group>)
    requires groups != [] && forall k :: k in groups[0].keys ==> ak(k) != ak(groups[0].keep)
    ensures !WellFormed(ak, PlansOf(ak, groups))
  {
    InOrderIsRequested(ak, groups[0].keys);
    assert PlansOf(ak, groups)[0].keep == groups[0].keep;
  }

  /** Two people of a shelf that are equal but for their spaces are offered. */
  lemma SomethingIsOffered(r: Reading, tokens: string -> seq<string>, casefold: string -> string, shelf: seq<Credit>,
                           spines: map<string, set<string>>, rules: set<Reason>, lines: seq<Line>, x: string, y: string)
    requires Reason.Spelling in rules && IsPreview(r, Naming(r.key, tokens), casefold, shelf, [], spines, rules, lines)
    requires x in IndexOf(r, shelf, []) && y in IndexOf(r, shelf, []) && x != y && Unspaced(x) == Unspaced(y)
    ensures lines != []
  {
    var naming := Naming(r.key, tokens);
    var entries, groups, aliases := PreviewIsProposed(r, naming, casefold, shelf, [], spines, rules, lines);
    IndexIsHeaded(r, shelf, []);
    SpellingsAreOffered(naming, IndexOf(r, shelf, []), entries, spines, rules, groups, x, y);
  }

  /** Nobody can be asked for by the key they are listed under. */
  ghost predicate NobodyIsAskedFor(ak: string -> string, people: set<string>)
  {
    forall k :: k in people ==> ak(k) !in people
  }

  /** On a shelf nobody has decided about, and where nobody can be asked for by the key they are listed
      under, what is offered is refused. */
  lemma OfferIsRefused(r: Reading, naming: Naming, casefold: string -> string, shelf: seq<Credit>,
                       spines: map<string, set<string>>, rules: set<Reason>, lines: seq<Line>)
    requires IsPreview(r, naming, casefold, shelf, [], spines, rules, lines) && lines != []
    requires NobodyIsAskedFor(r.key, IndexOf(r, shelf, []).Keys)
    ensures IsRefused(r.key, AsMap([]), ReachableIn(IndexOf(r, shelf, [])), Submitted(lines))
  {
    var entries, groups, aliases := PreviewIsProposed(r, naming, casefold, shelf, [], spines, rules, lines);
    IndexIsHeaded(r, shelf, []);
    NothingIsFoldedYet(r, shelf);
    FirstLineIsRefused(r.key, casefold, AsMap([]), IndexOf(r, shelf, []), ReachableIn(IndexOf(r, shelf, [])), aliases, groups, lines);
  }

  lemma SpellingsAreOffered(naming: Naming, byKey: map<string, Entry>, entries: seq<Entry>, spines: map<string, set<string>>,
                            rules: set<Reason>, groups: seq<Suggestion>, x: string, y: string)
    requires Reason.Spelling in rules && Headed(naming.key, byKey) && Lists(entries, byKey)
    requires x in byKey && y in byKey && x != y && Unspaced(x) == Unspaced(y)
    requires IsOffered(NameBy(entries), EdgesFor(naming, entries, spines, rules, MAX_COMPARISONS), groups)
    ensures groups != []
  {
    var p := Listing(entries, byKey, x);
    var q := Listing(entries, byKey, y);
    SameSquashedIs(naming.key, entries[p], entries[q]);
    GroupedIsConnected(naming, entries, spines, rules, MAX_COMPARISONS, p, q);
    OnlyGroupIsOffered(naming.key, byKey, entries, EdgesFor(naming, entries, spines, rules, MAX_COMPARISONS), groups, x, y);
  }

  lemma Listing(entries: seq<Entry>, index: map<string, Entry>, k: string) returns (p: nat)
    requires Lists(entries, index) && k in index && index[k].key == k
    ensures p < |entries| && entries[p] == index[k]
  {
    assert index[k] in entries;
    p :| 0 <= p < |entries| && entries[p] == index[k];
  }

  lemma FirstLineIsRefused(ak: string -> string, casefold: string -> string, m: map<string, string>, byKey: map<string, Entry>,
                           reachable: set<string>, index: AliasIndex, groups: seq<Suggestion>, lines: seq<Line>)
    requires Headed(ak, byKey) && NobodyIsAskedFor(ak, byKey.Keys)
    requires groups != [] && Proposed(byKey.Keys, groups) && m == map[] && reachable == byKey.Keys && IndexesAliases(ak, m, index)
    requires Previews(ak, casefold, byKey, index, groups, lines)
    ensures IsRefused(ak, m, reachable, Submitted(lines))
  {
    assert groups[0] in groups;
    UndecidedIsOffered(ak, casefold, index, groups[0].keys, byKey);
    assert lines[0].keep.Some? && lines[0].keys == groups[0].keys;
    assert Submitted(lines)[0] == Group(lines[0].keys, lines[0].keep.value);
    UnknownIsRefused(ak, m, reachable, Submitted(lines));
    KeepIsNotAskedFor(ak, Submitted(lines));
  }

  // ── The shelf ─────────────────────────────────────────────────────────────

  const RUN_ON: string := [MATHEMATICAL_BOLD_A, 'x']
  const SPACED: string := [MATHEMATICAL_BOLD_A, ' ', 'x']

  /** One book by each. */
  const BOLD_SHELF: seq<Credit> := OneEach([RUN_ON, SPACED])

  lemma BoldKeys(u: Unicode)
    requires FoldsBoldTwice(u)
    ensures AuthorKey(u, RUN_ON) == "Ax" && AuthorKey(u, "Ax") == "ax"
    ensures AuthorKey(u, SPACED) == "A x" && AuthorKey(u, "A x") == "a x"
  {
    KeyOneByOne(u, RUN_ON, "Ax");
    KeyOneByOne(u, "Ax", "ax");
    KeyOneByOne(u, SPACED, "A x");
    KeyOneByOne(u, "A x", "a x");
  }

  lemma SpacedIsRunOn(c: char, d: char)
    ensures Unspaced([c, ' ', d]) == Unspaced([c, d])
  {
    assert [c, ' ', d][1..] == [' ', d] && [' ', d][1..] == [d] && [c, d][1..] == [d];
  }

  lemma RequestedOfTwo(ak: string -> string, a: string, b: string)
    ensures Requested(ak, [a, b]) == {ak(a), ak(b)}
  {
    assert [a, b][0] in [a, b] && [a, b][1] in [a, b];
  }

  lemma TwoBooks(r: Reading, a: string, b: string)
    requires r.split(Some(a)) == [a] && r.split(Some(b)) == [b]
    ensures var index := IndexOf(r, OneEach([a, b]), []); index.Keys == {r.key(a), r.key(b)} == ReachableIn(index)
  {
    OneEachIsIndexed(r, [a, b]);
    RequestedOfTwo(r.key, a, b);
  }

  lemma BoldLines(u: Unicode)
    requires FoldsBoldTwice(u)
    ensures SplitCredit(u, Some(RUN_ON)) == [RUN_ON] && SplitCredit(u, Some(SPACED)) == [SPACED]
  {
    BoldKeys(u);
    LineOfOneName(u, RUN_ON);
    LineOfOneName(u, SPACED);
  }

  /** They are listed under `Ax` and `A x`, and asking for those asks for `ax` and `a x`, whom nobody
      visible is. */
  lemma BoldAuthorsAreUnknownByKey(u: Unicode)
    requires FoldsBoldTwice(u)
    ensures var r := ReadingOf(u);
            && IndexOf(r, BOLD_SHELF, []).Keys == {"Ax", "A x"} == ReachableIn(IndexOf(r, BOLD_SHELF, []))
            && r.key("Ax") == "ax" && r.key("A x") == "a x"
  {
    BoldKeys(u);
    BoldLines(u);
    TwoBooks(ReadingOf(u), RUN_ON, SPACED);
  }

  lemma PairIsNotAskedFor(ak: string -> string, x: string, y: string)
    requires ak(x) !in {x, y} && ak(y) !in {x, y}
    ensures NobodyIsAskedFor(ak, {x, y})
  {
  }

  /** Two books by two such names, whoever reads them. */
  lemma TwoSpellingsAreRefused(r: Reading, tokens: string -> seq<string>, casefold: string -> string, shelf: seq<Credit>,
                               spines: map<string, set<string>>, rules: set<Reason>, lines: seq<Line>, x: string, y: string)
    requires Reason.Spelling in rules && IsPreview(r, Naming(r.key, tokens), casefold, shelf, [], spines, rules, lines)
    requires IndexOf(r, shelf, []).Keys == {x, y} && x != y && Unspaced(x) == Unspaced(y)
    requires NobodyIsAskedFor(r.key, IndexOf(r, shelf, []).Keys)
    ensures IsRefused(r.key, AsMap([]), ReachableIn(IndexOf(r, shelf, [])), Submitted(lines))
  {
    SomethingIsOffered(r, tokens, casefold, shelf, spines, rules, lines, x, y);
    OfferIsRefused(r, Naming(r.key, tokens), casefold, shelf, spines, rules, lines);
  }

  /** Every preview of that shelf that runs the spelling rule offers a group, and the batch of what it
      offers is refused: for keeping a name it does not ask for, and for asking for nobody. */
  lemma BoldPreviewIsRefused(u: Unicode, r: Reading, tokens: string -> seq<string>, casefold: string -> string, spines: map<string, set<string>>,
                             rules: set<Reason>, lines: seq<Line>)
    requires FoldsBoldTwice(u) && r == ReadingOf(u) && Reason.Spelling in rules
    requires IsPreview(r, Naming(r.key, tokens), casefold, BOLD_SHELF, [], spines, rules, lines)
    ensures IsRefused(r.key, AsMap([]), ReachableIn(IndexOf(r, BOLD_SHELF, [])), Submitted(lines))
  {
    BoldAuthorsAreUnknownByKey(u);
    SpacedIsRunOn('A', 'x');
    PairIsNotAskedFor(r.key, "Ax", "A x");
    TwoSpellingsAreRefused(r, tokens, casefold, BOLD_SHELF, spines, rules, lines, "Ax", "A x");
  }

  /** So a member who reads the suggestions of that shelf and sends them is turned away by the request
      model, before anything is looked up. */
  method MalformedPreview(u: Unicode, casefold: string -> string, spines: map<string, set<string>>)
      returns (lines: seq<Line>, response: Response)
    requires FoldsBoldTwice(u)
    ensures Submitted(lines) != [] && response == Malformed
  {
    var r := ReadingOf(u);
    var tokens := Alphabetical(r.key);
    AlphabeticalWalksWords(r.key);
    var authorship := new Authorship(r);
    lines, response := SubmitThePreview(tokens, casefold, authorship, BOLD_SHELF, spines, DEFAULT_MATCHER);
    BoldPreviewIsRefused(u, r, tokens, casefold, spines, DEFAULT_MATCHER, lines);
    IllFormedIsMalformed(r.key, Submitted(lines));
  }

  lemma IllFormedIsMalformed(ak: string -> string, groups: seq<Group>)
    requires !WellFormed(ak, PlansOf(ak, groups))
    ensures !Passes(ak, groups)
  {
    if Passes(ak, groups) {
      PassesIsWellFormed(ak, groups);
    }
  }
}
