/** Shelves on which the preview's promise is broken past the request model.

    Two people carry one ISNI, and one of them is listed under a key that is not its own key. They
    are offered as one group, whose batch asks for somebody else: for nobody, and it is refused, or
    for a third person, who is folded in their place. */
module Mistaken {
  import opened Wrappers
  import opened Strings
  import opened Spelling
  import opened Aliases
  import opened Index
  import opened Listings
  import opened Repoint
  import opened Batches
  import opened Decisions
  import opened Requests
  import opened Buckets
  import opened Rules
  import opened AllPairs
  import opened Forest
  import opened Suggest
  import opened Tested
  import opened Preview
  import opened Promise
  import opened Review
  import opened Unmerged
  import opened Unsettled

  /** The key one of the two is listed under, the other's, and the one the first asks for. */
  const SHOWN := "A y"
  const KEPT := "b z"
  const ASKED := "a y"

  /** One ISNI for the two, and none for the third. */
  ghost predicate ShareAnIsni(spines: map<string, set<string>>)
  {
    SHOWN in spines && KEPT in spines && spines[SHOWN] == spines[KEPT] && |spines[KEPT]| == 1 && ASKED !in spines
  }

  /** Nobody but these three, each headed by a name of their own key. */
  ghost predicate AreThese(ak: string -> string, entries: seq<Entry>)
  {
    forall e :: e in entries ==> ak(e.name) == e.key && (e.key == SHOWN || e.key == KEPT || e.key == ASKED)
  }

  // ── What the rules find ───────────────────────────────────────────────────

  lemma TheirWords()
    ensures Words(SHOWN) == ["A", "y"] && Words(KEPT) == ["b", "z"] && Words(ASKED) == ["a", "y"]
  {
    TwoWords("A", "y");
    TwoWords("b", "z");
    TwoWords("a", "y");
    assert "A" + " " + "y" == SHOWN && "b" + " " + "z" == KEPT && "a" + " " + "y" == ASKED;
  }

  lemma UnspacedTwo(c: char, d: char)
    requires c != ' ' && d != ' '
    ensures Unspaced([c, ' ', d]) == [c, d]
  {
    assert [c, ' ', d][1..] == [' ', d] && [' ', d][1..] == [d] && [d][1..] == "";
    assert Unspaced([d]) == [d] && Unspaced([' ', d]) == [d];
  }

  lemma TheyAreSpelledApart()
    ensures Unspaced(SHOWN) == "Ay" && Unspaced(KEPT) == "bz" && Unspaced(ASKED) == "ay"
  {
    UnspacedTwo('A', 'y');
    UnspacedTwo('b', 'z');
    UnspacedTwo('a', 'y');
  }

  lemma FiledByIdentity(spines: map<string, set<string>>, e: Entry, item: Item<string>)
    requires item in FileIdentity(spines)(e)
    ensures item.value == e.key && e.key in spines
  {
  }

  lemma FiledBySpelling(ak: string -> string, e: Entry, item: Item<string>)
    requires item in FileSquashed(ak)(e)
    ensures item == Item(Unspaced(ak(e.name)), e.key)
  {
  }

  lemma IdentityLeavesTheThird(entries: seq<Entry>, spines: map<string, set<string>>, e: Edge)
    requires ShareAnIsni(spines) && e in IdentityEdges(entries, spines)
    ensures e.left != ASKED && e.right != ASKED
  {
    var file := FileIdentity(spines);
    StarsAreFor(BucketsOf(Filed(file, entries)), Identity);
    assert e == Edge(e.left, e.right, Identity);
    EdgeIsSameTag(file, entries, Identity, e.left, e.right);
    var tag, p, q :| 0 <= p < |entries| && 0 <= q < |entries| && Item(tag, e.left) in file(entries[p]) && Item(tag, e.right) in file(entries[q]);
    FiledByIdentity(spines, entries[p], Item(tag, e.left));
    FiledByIdentity(spines, entries[q], Item(tag, e.right));
  }

  lemma SpellingLeavesTheThird(ak: string -> string, entries: seq<Entry>, e: Edge)
    requires AreThese(ak, entries) && e in SpellingEdges(ak, entries)
    ensures e.left == ASKED <==> e.right == ASKED
  {
    var file := FileSquashed(ak);
    StarsAreFor(BucketsOf(Filed(file, entries)), Reason.Spelling);
    assert e == Edge(e.left, e.right, Reason.Spelling);
    EdgeIsSameTag(file, entries, Reason.Spelling, e.left, e.right);
    var tag, p, q :| 0 <= p < |entries| && 0 <= q < |entries| && Item(tag, e.left) in file(entries[p]) && Item(tag, e.right) in file(entries[q]);
    FiledBySpelling(ak, entries[p], Item(tag, e.left));
    FiledBySpelling(ak, entries[q], Item(tag, e.right));
    assert entries[p] in entries && entries[q] in entries;
    SpelledAlikeIsTheSame(e.left, e.right);
  }

  lemma SpelledAlikeIsTheSame(x: string, y: string)
    requires (x == SHOWN || x == KEPT || x == ASKED) && (y == SHOWN || y == KEPT || y == ASKED) && Unspaced(x) == Unspaced(y)
    ensures x == ASKED <==> y == ASKED
  {
    TheyAreSpelledApart();
  }

  lemma InitialsLeaveTheThird(ak: string -> string, entries: seq<Entry>, left: int, e: Edge)
    requires AreThese(ak, entries) && e in InitialsEdges(ak, entries, left)
    ensures e.left == ASKED <==> e.right == ASKED
  {
    var p, q := InitialsEdgeIsTested(ak, entries, left, e);
    assert entries[p] in entries && entries[q] in entries;
    ShareInitialsByWords(ak, entries[p], entries[q]);
    TheirWords();
  }

  lemma TwoWordsAreTwo(words: seq<string>, v: string, w: string)
    requires words == [v, w] && v != w
    ensures |set t | t in words| == 2
  {
    assert words[0] in words && words[1] in words;
    assert (set t | t in words) == {v, w};
  }

  lemma TwoWordsEach(naming: Naming, entries: seq<Entry>, e: Entry)
    requires AreThese(naming.key, entries) && e in entries
    ensures |WordSet(naming, e)| == 2
  {
    TheirWords();
    var words := Words(naming.key(e.name));
    TwoWordsAreTwo(words, words[0], words[1]);
  }

  lemma SameSizeIsNoFragment(naming: Naming, a: Entry, b: Entry)
    requires |WordSet(naming, a)| == |WordSet(naming, b)|
    ensures !Fragmented(naming.key, a, b)
  {
    FragmentedByWords(naming, a, b);
    if WordSet(naming, a) < WordSet(naming, b) {
      ProperSubsetIsSmaller(WordSet(naming, a), WordSet(naming, b));
    }
    if WordSet(naming, b) < WordSet(naming, a) {
      ProperSubsetIsSmaller(WordSet(naming, b), WordSet(naming, a));
    }
  }

  lemma NothingIsAFragment(naming: Naming, entries: seq<Entry>, left: int)
    requires WalksWords(naming) && AreThese(naming.key, entries)
    ensures FragmentEdges(naming, entries, left) == []
  {
    if FragmentEdges(naming, entries, left) != [] {
      var p, q := FragmentEdgeIsTested(naming, entries, left, FragmentEdges(naming, entries, left)[0]);
      assert entries[p] in entries && entries[q] in entries;
      TwoWordsEach(naming, entries, entries[p]);
      TwoWordsEach(naming, entries, entries[q]);
      SameSizeIsNoFragment(naming, entries[p], entries[q]);
    }
  }

  /** No rule joins the third to anybody. */
  lemma TheThirdIsLeft(naming: Naming, entries: seq<Entry>, spines: map<string, set<string>>, rules: set<Reason>, e: Edge)
    requires WalksWords(naming) && AreThese(naming.key, entries) && ShareAnIsni(spines)
    requires e in EdgesFor(naming, entries, spines, rules, MAX_COMPARISONS)
    ensures e.left == ASKED <==> e.right == ASKED
  {
    EdgesByReason(naming, entries, spines, rules, MAX_COMPARISONS, e);
    match e.reason
    case Identity => IdentityLeavesTheThird(entries, spines, e);
    case Spelling => SpellingLeavesTheThird(naming.key, entries, e);
    case Initials => InitialsLeaveTheThird(naming.key, entries, MAX_COMPARISONS, e);
    case Fragment => NothingIsAFragment(naming, entries, LeftForFragments(naming.key, entries, rules, MAX_COMPARISONS));
  }

  /** One label for the two, and another for the third. */
  const LABELS: map<string, string> := map[SHOWN := KEPT, KEPT := KEPT, ASKED := ASKED]

  lemma LinksKeepLabels(naming: Naming, entries: seq<Entry>, spines: map<string, set<string>>, rules: set<Reason>, l: Link<string>)
    requires WalksWords(naming) && AreThese(naming.key, entries) && ShareAnIsni(spines)
    requires l in Links(EdgesFor(naming, entries, spines, rules, MAX_COMPARISONS))
    ensures l.left in LABELS && l.right in LABELS && LABELS[l.left] == LABELS[l.right]
  {
    var edges := EdgesFor(naming, entries, spines, rules, MAX_COMPARISONS);
    EdgesJoinListed(naming, entries, spines, rules, MAX_COMPARISONS);
    var i :| 0 <= i < |edges| && Links(edges)[i] == l;
    assert edges[i] in edges;
    TheThirdIsLeft(naming, entries, spines, rules, edges[i]);
    ListedIsLabelled(naming.key, entries, l.left);
    ListedIsLabelled(naming.key, entries, l.right);
  }

  lemma TheThirdIsAlone(naming: Naming, entries: seq<Entry>, spines: map<string, set<string>>, rules: set<Reason>, k: string)
    requires WalksWords(naming) && AreThese(naming.key, entries) && ShareAnIsni(spines)
    requires Connected(Links(EdgesFor(naming, entries, spines, rules, MAX_COMPARISONS)), ASKED, k)
    ensures k == ASKED
  {
    var links := Links(EdgesFor(naming, entries, spines, rules, MAX_COMPARISONS));
    forall l | l in links ensures l.left in LABELS && l.right in LABELS && LABELS[l.left] == LABELS[l.right] {
      LinksKeepLabels(naming, entries, spines, rules, l);
    }
    OneLabel(links, k);
  }

  lemma OneLabel(links: seq<Link<string>>, k: string)
    requires forall l :: l in links ==> l.left in LABELS && l.right in LABELS && LABELS[l.left] == LABELS[l.right]
    requires Connected(links, ASKED, k)
    ensures k == ASKED
  {
    var walk :| Walk(links, walk, ASKED, k);
    WalkKeepsLabel(links, LABELS, walk, ASKED, k);
  }

  lemma ListedIsLabelled(ak: string -> string, entries: seq<Entry>, k: string)
    requires AreThese(ak, entries) && k in KeySet(entries)
    ensures k == SHOWN || k == KEPT || k == ASKED
  {
    var e :| e in entries && e.key == k;
  }

  // ── What is offered ───────────────────────────────────────────────────────

  lemma TwoInOrder(keys: seq<string>)
    requires Ascending(keys) && |keys| > 1 && forall k :: k in keys ==> k == SHOWN || k == KEPT
    ensures keys == [SHOWN, KEPT]
  {
    assert keys[0] in keys && keys[1] in keys && Before(keys[0], keys[1]);
    BeforeIsStrict(keys[0], keys[1]);
    assert Before(SHOWN, KEPT);
    forall k ensures k in keys <==> k in [SHOWN, KEPT] {
    }
    AscendingIsUnique(keys, [SHOWN, KEPT]);
  }

  lemma GroupIsTheTwo(naming: Naming, entries: seq<Entry>, spines: map<string, set<string>>, rules: set<Reason>, g: Suggestion)
    requires WalksWords(naming) && Listed(entries) && AreThese(naming.key, entries) && ShareAnIsni(spines)
    requires IsGroup(NameBy(entries), EdgesFor(naming, entries, spines, rules, MAX_COMPARISONS), g)
    ensures g.keys == [SHOWN, KEPT]
  {
    NameByReads(entries);
    forall k | k in g.keys ensures k == SHOWN || k == KEPT {
      assert k in NameBy(entries);
      ListedIsLabelled(naming.key, entries, k);
      if k == ASKED {
        var other := if g.keys[0] == ASKED then g.keys[1] else g.keys[0];
        assert g.keys[0] in g.keys && g.keys[1] in g.keys && Before(g.keys[0], g.keys[1]);
        BeforeIsStrict(g.keys[0], g.keys[1]);
        TheThirdIsAlone(naming, entries, spines, rules, other);
      }
    }
    TwoInOrder(g.keys);
  }

  /** The two and nobody else, as one group, whatever the other rules are. */
  lemma TheTwoAreOffered(naming: Naming, index: map<string, Entry>, entries: seq<Entry>, spines: map<string, set<string>>, rules: set<Reason>,
                         groups: seq<Suggestion>)
    requires WalksWords(naming) && Identity in rules && AreThese(naming.key, entries) && ShareAnIsni(spines)
    requires Headed(naming.key, index) && Lists(entries, index) && SHOWN in index && KEPT in index
    requires IsOffered(NameBy(entries), EdgesFor(naming, entries, spines, rules, MAX_COMPARISONS), groups)
    requires Proposed(index.Keys, groups)
    ensures |groups| == 1 && groups[0].keys == [SHOWN, KEPT]
  {
    var edges := EdgesFor(naming, entries, spines, rules, MAX_COMPARISONS);
    var p := Listing(entries, index, SHOWN);
    var q := Listing(entries, index, KEPT);
    GroupedIsConnected(naming, entries, spines, rules, MAX_COMPARISONS, p, q);
    OnlyGroupIsOffered(naming.key, index, entries, edges, groups, SHOWN, KEPT);
    forall g | 0 <= g < |groups| ensures groups[g].keys == [SHOWN, KEPT] {
      OfferedIsAGroup(NameBy(entries), edges, groups, g);
      GroupIsTheTwo(naming, entries, spines, rules, groups[g]);
    }
    OneGroupAtMost(groups, [SHOWN, KEPT]);
  }

  lemma OneGroupAtMost(groups: seq<Suggestion>, keys: seq<string>)
    requires keys != [] && forall g :: 0 <= g < |groups| ==> groups[g].keys == keys
    ensures Disjoint(groups) ==> |groups| <= 1
  {
    if |groups| > 1 {
      assert keys[0] in groups[0].keys && keys[0] in groups[1].keys;
    }
  }

  lemma OfferedIsAGroup(names: map<string, string>, edges: seq<Edge>, groups: seq<Suggestion>, g: nat)
    requires IsOffered(names, edges, groups) && g < |groups|
    ensures IsGroup(names, edges, groups[g])
  {
    var all :| IsGrouping(names, edges, all) && IsCut(all, groups) && groups <= Rank(all);
    assert groups[g] in groups;
  }

  /** And the second's name is the one to keep, having more books. */
  lemma TheSecondIsKept(ak: string -> string, casefold: string -> string, byKey: map<string, Entry>, index: AliasIndex)
    requires IndexesAliases(ak, map[], index) && Headed(ak, byKey)
    requires SHOWN in byKey && KEPT in byKey && |byKey[SHOWN].books| < |byKey[KEPT].books| && byKey[KEPT].name == KEPT
    ensures BatchKeepName(ak, casefold, [SHOWN, KEPT], byKey, index) == Some(KEPT)
  {
    var keys := [SHOWN, KEPT];
    assert keys[1] in keys;
    UndecidedIsOffered(ak, casefold, index, keys, byKey);
    CandidateIsOneOfThem(ak, casefold, keys, byKey, index.Decided());
    forall k ensures k !in index.Decided() {
      DecidedIsBothEnds(ak, map[], index, k);
    }
  }

  // ── The shelves ───────────────────────────────────────────────────────────

  const SPLIT: string := [MATHEMATICAL_BOLD_A, ' ', 'y']

  /** Two books by the second of them, one by the first, and perhaps one by the third. */
  function NamesWith(third: bool): seq<string>
  {
    [KEPT, KEPT, SPLIT] + (if third then [ASKED] else [])
  }

  /** How the names and their keys are read. */
  ghost predicate ReadsThem(r: Reading)
  {
    && r.key(SPLIT) == SHOWN && r.key(SHOWN) == ASKED && r.key(KEPT) == KEPT && r.key(ASKED) == ASKED
    && r.split(Some(SPLIT)) == [SPLIT] && r.split(Some(KEPT)) == [KEPT] && r.split(Some(ASKED)) == [ASKED]
  }

  lemma TheirKeys(u: Unicode)
    requires FoldsBoldTwice(u)
    ensures AuthorKey(u, SPLIT) == SHOWN && AuthorKey(u, SHOWN) == ASKED && AuthorKey(u, KEPT) == KEPT && AuthorKey(u, ASKED) == ASKED
  {
    KeyOneByOne(u, SPLIT, SHOWN);
    KeyOneByOne(u, SHOWN, ASKED);
    TheirOwnKeys(u);
  }

  lemma TheirOwnKeys(u: Unicode)
    requires FoldsBoldTwice(u)
    ensures AuthorKey(u, KEPT) == KEPT && AuthorKey(u, ASKED) == ASKED
  {
    KeyOneByOne(u, KEPT, KEPT);
    KeyOneByOne(u, ASKED, ASKED);
  }

  lemma TheyAreRead(u: Unicode)
    requires FoldsBoldTwice(u)
    ensures ReadsThem(ReadingOf(u))
  {
    TheirKeys(u);
    OneNameALine(u, SPLIT);
    OneNameALine(u, KEPT);
    OneNameALine(u, ASKED);
  }

  lemma OneNameALine(u: Unicode, name: string)
    requires FoldsBoldTwice(u) && name in [SPLIT, KEPT, ASKED]
    ensures SplitCredit(u, Some(name)) == [name]
  {
    TheirKeys(u);
    LineOfOneName(u, name);
  }

  lemma TheirPlaces(ak: string -> string, third: bool)
    requires ak(SPLIT) == SHOWN && ak(KEPT) == KEPT && ak(ASKED) == ASKED
    ensures var names := NamesWith(third);
            && (set i | 0 <= i < |names| && ak(names[i]) == KEPT) == {0, 1}
            && (set i | 0 <= i < |names| && ak(names[i]) == SHOWN) == {2}
  {
    var names := NamesWith(third);
    assert names[0] == KEPT && names[1] == KEPT && names[2] == SPLIT && (third ==> names[3] == ASKED);
  }

  /** Whom each shelf lists. */
  function TheirPeople(third: bool): set<string>
  {
    {SHOWN, KEPT} + (if third then {ASKED} else {})
  }

  lemma TheyAreRequested(ak: string -> string, third: bool)
    requires ak(SPLIT) == SHOWN && ak(KEPT) == KEPT && ak(ASKED) == ASKED
    ensures Requested(ak, NamesWith(third)) == TheirPeople(third)
    ensures forall n :: n in NamesWith(third) && ak(n) == KEPT ==> n == KEPT
  {
    var names := NamesWith(third);
    assert names[0] == KEPT && names[1] == KEPT && names[2] == SPLIT && (third ==> names[3] == ASKED);
    forall k ensures k in Requested(ak, names) <==> k in TheirPeople(third) {
      assert names[0] in names && names[2] in names && (third ==> names[3] in names);
    }
  }

  lemma TheyAreSplit(r: Reading, third: bool)
    requires ReadsThem(r)
    ensures forall n :: n in NamesWith(third) ==> r.split(Some(n)) == [n]
  {
  }

  /** An index of the two, and perhaps the third, whose second has more books than the first. */
  ghost predicate ListsThem(index: map<string, Entry>, third: bool)
  {
    && index.Keys == TheirPeople(third) && SHOWN in index && KEPT in index
    && |index[SHOWN].books| < |index[KEPT].books| && index[KEPT].name == KEPT
  }

  lemma EntriesOfThem(index: map<string, Entry>, third: bool, shown: set<int>, kept: set<int>)
    requires index.Keys == TheirPeople(third) && index[SHOWN].books == shown == {2} && index[KEPT].books == kept == {0, 1}
    requires index[KEPT].name == KEPT
    ensures ListsThem(index, third)
  {
  }

  /** A shelf of theirs, and how it is read. */
  ghost predicate IsTheirShelf(r: Reading, shelf: seq<Credit>, third: bool)
  {
    && r.key(SHOWN) == ASKED && r.key(KEPT) == KEPT
    && ListsThem(IndexOf(r, shelf, []), third) && ReachableIn(IndexOf(r, shelf, [])) == TheirPeople(third)
  }

  lemma TheirIndex(r: Reading, third: bool)
    requires ReadsThem(r)
    ensures IsTheirShelf(r, OneEach(NamesWith(third)), third)
  {
    var names := NamesWith(third);
    TheyAreSplit(r, third);
    OneEachIsIndexed(r, names);
    TheyAreRequested(r.key, third);
    OneEachBooks(r, names, SHOWN);
    OneEachBooks(r, names, KEPT);
    TheirPlaces(r.key, third);
    EntriesOfThem(IndexOf(r, OneEach(names), []), third, IndexOf(r, OneEach(names), [])[SHOWN].books, IndexOf(r, OneEach(names), [])[KEPT].books);
  }

  /** The one line of every preview of either shelf that runs the identity rule. */
  const THE_LINE := Line([SHOWN, KEPT], Some(KEPT))

  /** Everything a preview of a shelf nobody has decided about is made of. */
  ghost predicate IsProposal(naming: Naming, casefold: string -> string, index: map<string, Entry>, entries: seq<Entry>,
                             spines: map<string, set<string>>, rules: set<Reason>, aliases: AliasIndex, groups: seq<Suggestion>, lines: seq<Line>)
  {
    && Headed(naming.key, index) && Lists(entries, index) && Proposed(index.Keys, groups)
    && IsOffered(NameBy(entries), EdgesFor(naming, entries, spines, rules, MAX_COMPARISONS), groups)
    && IndexesAliases(naming.key, map[], aliases) && Previews(naming.key, casefold, index, aliases, groups, lines)
  }

  lemma ProposalOf(r: Reading, naming: Naming, casefold: string -> string, shelf: seq<Credit>, spines: map<string, set<string>>,
                   rules: set<Reason>, lines: seq<Line>)
      returns (entries: seq<Entry>, aliases: AliasIndex, groups: seq<Suggestion>)
    requires naming.key == r.key && IsPreview(r, naming, casefold, shelf, [], spines, rules, lines)
    ensures IsProposal(naming, casefold, IndexOf(r, shelf, []), entries, spines, rules, aliases, groups, lines)
  {
    entries, groups, aliases := PreviewIsProposed(r, naming, casefold, shelf, [], spines, rules, lines);
    IndexIsHeaded(r, shelf, []);
  }

  /** A pass that looks at identities, over the two. */
  ghost predicate LooksAtIdentity(naming: Naming, spines: map<string, set<string>>, rules: set<Reason>)
  {
    WalksWords(naming) && Identity in rules && ShareAnIsni(spines)
  }

  lemma TheLine(r: Reading, naming: Naming, casefold: string -> string, shelf: seq<Credit>, third: bool,
                spines: map<string, set<string>>, rules: set<Reason>, lines: seq<Line>)
    requires naming.key == r.key && LooksAtIdentity(naming, spines, rules) && ListsThem(IndexOf(r, shelf, []), third)
    requires IsPreview(r, naming, casefold, shelf, [], spines, rules, lines)
    ensures lines == [THE_LINE]
  {
    var entries, aliases, groups := ProposalOf(r, naming, casefold, shelf, spines, rules, lines);
    OneLineOf(naming, casefold, IndexOf(r, shelf, []), third, entries, spines, rules, aliases, groups, lines);
  }

  lemma OneLineOf(naming: Naming, casefold: string -> string, index: map<string, Entry>, third: bool, entries: seq<Entry>,
                  spines: map<string, set<string>>, rules: set<Reason>, aliases: AliasIndex, groups: seq<Suggestion>, lines: seq<Line>)
    requires LooksAtIdentity(naming, spines, rules) && ListsThem(index, third)
    requires IsProposal(naming, casefold, index, entries, spines, rules, aliases, groups, lines)
    ensures lines == [THE_LINE]
  {
    ListedAreThese(naming.key, index, entries);
    TheTwoAreOffered(naming, index, entries, spines, rules, groups);
    TheSecondIsKept(naming.key, casefold, index, aliases);
    LineOfOneGroup(naming.key, casefold, index, aliases, groups, lines, [SHOWN, KEPT], Some(KEPT));
  }

  lemma LineOfOneGroup(ak: string -> string, casefold: string -> string, index: map<string, Entry>, aliases: AliasIndex,
                       groups: seq<Suggestion>, lines: seq<Line>, keys: seq<string>, keep: Option<string>)
    requires Previews(ak, casefold, index, aliases, groups, lines) && |groups| == 1 && groups[0].keys == keys
    requires BatchKeepName(ak, casefold, keys, index, aliases) == keep
    ensures lines == [Line(keys, keep)]
  {
  }

  lemma ListedAreThese(ak: string -> string, index: map<string, Entry>, entries: seq<Entry>)
    requires Headed(ak, index) && Lists(entries, index) && index.Keys <= {SHOWN, KEPT, ASKED}
    ensures AreThese(ak, entries)
  {
    forall e | e in entries ensures ak(e.name) == e.key && (e.key == SHOWN || e.key == KEPT || e.key == ASKED) {
      assert e.key in index.Keys;
    }
  }

  // ── What sending it does ──────────────────────────────────────────────────

  lemma WhatItAsksFor(ak: string -> string)
    requires ak(SHOWN) == ASKED && ak(KEPT) == KEPT
    ensures Submitted([THE_LINE]) == [Group([SHOWN, KEPT], KEPT)] && Requested(ak, [SHOWN, KEPT]) == {ASKED, KEPT}
    ensures Passes(ak, Submitted([THE_LINE]))
  {
    assert [THE_LINE][1..] == [];
    RequestedOfTwo(ak, SHOWN, KEPT);
    var groups := [Group([SHOWN, KEPT], KEPT)];
    assert groups[..0] == [] && Total(groups) == 2;
  }

  /** Nobody in the table is touched, and the batch is refused exactly where nobody visible is the third. */
  lemma WhatItDoes(ak: string -> string, reachable: set<string>)
    requires ak(SHOWN) == ASKED && ak(KEPT) == KEPT && KEPT in reachable
    ensures var plans := PlansOf(ak, Submitted([THE_LINE]));
            && BatchRefusal(ak, map[], reachable, plans) == (if ASKED in reachable then None else Some(AuthorNotFound))
            && Person(ak, BatchMap(map[], plans), ASKED) == KEPT && Person(ak, BatchMap(map[], plans), SHOWN) == SHOWN
  {
    WhatItAsksFor(ak);
    InOrderIsRequested(ak, [SHOWN, KEPT]);
    var plan := PlanOf(ak, Group([SHOWN, KEPT], KEPT));
    assert PlansOf(ak, Submitted([THE_LINE])) == [plan] && [plan][1..] == [];
    assert Keys(plan) == {ASKED, KEPT};
    assert BatchMap(map[], [plan]) == BatchMap(AddedMap(map[], Keys(plan), KEPT), []);
  }

  /** Somebody who was never on screen now means the name kept, and somebody who was means themselves. */
  ghost predicate FoldsAnother(ak: string -> string, rows: seq<Alias>)
  {
    Person(ak, AsMap(rows), ASKED) == KEPT && Person(ak, AsMap(rows), SHOWN) == SHOWN
  }

  /** What sending such a shelf's preview is answered, and what it does. */
  ghost predicate IsToldOf(ak: string -> string, third: bool, lines: seq<Line>, response: Response, rows: seq<Alias>)
  {
    && lines == [THE_LINE] && (!third ==> response == Refused(AuthorNotFound))
    && (third ==> response.Merged? && FoldsAnother(ak, rows))
  }

  lemma WhatIsAnswered(ak: string -> string, reachable: set<string>, third: bool, lines: seq<Line>, response: Response,
                       rows: seq<Alias>)
    requires ak(SHOWN) == ASKED && ak(KEPT) == KEPT && reachable == TheirPeople(third) && lines == [THE_LINE]
    requires IsAnswered(ak, AsMap([]), reachable, Submitted(lines), response) && rows == RowsAfter(ak, [], Submitted(lines), response)
    ensures IsToldOf(ak, third, lines, response, rows)
  {
    WhatItAsksFor(ak);
    WhatItDoes(ak, reachable);
    BatchOnlyAdds([], PlansOf(ak, Submitted([THE_LINE])));
  }

  lemma SendingTheLine(r: Reading, naming: Naming, casefold: string -> string, shelf: seq<Credit>, third: bool,
                       spines: map<string, set<string>>, rules: set<Reason>, lines: seq<Line>, response: Response, rows: seq<Alias>)
    requires naming.key == r.key && LooksAtIdentity(naming, spines, rules) && IsTheirShelf(r, shelf, third)
    requires IsReviewed(r, naming, casefold, shelf, [], spines, rules, lines, response, rows)
    ensures IsToldOf(r.key, third, lines, response, rows)
  {
    ReviewShowsTheLine(r, naming, casefold, shelf, third, spines, rules, lines, response, rows);
    ReviewIsAnswered(r, naming, casefold, shelf, third, spines, rules, lines, response, rows);
  }

  lemma ReviewShowsTheLine(r: Reading, naming: Naming, casefold: string -> string, shelf: seq<Credit>, third: bool,
                           spines: map<string, set<string>>, rules: set<Reason>, lines: seq<Line>, response: Response, rows: seq<Alias>)
    requires naming.key == r.key && LooksAtIdentity(naming, spines, rules) && IsTheirShelf(r, shelf, third)
    requires IsReviewed(r, naming, casefold, shelf, [], spines, rules, lines, response, rows)
    ensures lines == [THE_LINE]
  {
    TheLine(r, naming, casefold, shelf, third, spines, rules, lines);
  }

  lemma ReviewIsAnswered(r: Reading, naming: Naming, casefold: string -> string, shelf: seq<Credit>, third: bool,
                         spines: map<string, set<string>>, rules: set<Reason>, lines: seq<Line>, response: Response, rows: seq<Alias>)
    requires IsTheirShelf(r, shelf, third) && lines == [THE_LINE]
    requires IsReviewed(r, naming, casefold, shelf, [], spines, rules, lines, response, rows)
    ensures IsToldOf(r.key, third, lines, response, rows)
  {
    WhatIsAnswered(r.key, ReachableIn(IndexOf(r, shelf, [])), third, lines, response, rows);
  }

  /** Reading the suggestions of either shelf, and sending all of them. */
  method Send(r: Reading, tokens: string -> seq<string>, casefold: string -> string, shelf: seq<Credit>, third: bool,
              spines: map<string, set<string>>, rules: set<Reason>)
      returns (lines: seq<Line>, response: Response, rows: seq<Alias>)
    requires LooksAtIdentity(Naming(r.key, tokens), spines, rules) && IsTheirShelf(r, shelf, third)
    ensures IsToldOf(r.key, third, lines, response, rows)
  {
    lines, response, rows := SubmitTheFirstPreview(r, tokens, casefold, shelf, spines, rules);
    SendingTheLine(r, Naming(r.key, tokens), casefold, shelf, third, spines, rules, lines, response, rows);
  }

  /** Two people on the shelf: the batch asks for a third whom nobody visible is, and is refused. */
  method UnknownPreview(u: Unicode, casefold: string -> string, spines: map<string, set<string>>)
      returns (lines: seq<Line>, response: Response)
    requires FoldsBoldTwice(u) && ShareAnIsni(spines)
    ensures lines == [THE_LINE] && response == Refused(AuthorNotFound)
  {
    var rows;
    var r := ReadingOf(u);
    TheyAreRead(u);
    TheirIndex(r, false);
    AlphabeticalWalksWords(r.key);
    lines, response, rows := Send(r, Alphabetical(r.key), casefold, OneEach(NamesWith(false)), false, spines, DEFAULT_MATCHER);
  }

  /** Three: the batch is accepted, and folds into the kept name somebody who was never on screen,
      leaving the name that was. */
  method MistakenPreview(u: Unicode, casefold: string -> string, spines: map<string, set<string>>)
      returns (lines: seq<Line>, response: Response, rows: seq<Alias>)
    requires FoldsBoldTwice(u) && ShareAnIsni(spines)
    ensures lines == [THE_LINE] && response.Merged? && FoldsAnother(Keyer(u), rows)
  {
    var r := ReadingOf(u);
    TheyAreRead(u);
    TheirIndex(r, true);
    AlphabeticalWalksWords(r.key);
    lines, response, rows := Send(r, Alphabetical(r.key), casefold, OneEach(NamesWith(true)), true, spines, DEFAULT_MATCHER);
  }
}
