/** What is offered, told without edges, buckets or budgets: the people a reader would join by putting
    the chosen tests to every two names. */
module Tested {
  import opened Strings
  import opened Index
  import opened Buckets
  import opened Rules
  import opened AllPairs
  import opened Forest
  import opened Suggest

  /** One of the chosen tests accepts these two. */
  ghost predicate IsAccepted(naming: Naming, spines: map<string, set<string>>, rules: set<Reason>, a: Entry, b: Entry)
  {
    || (Identity in rules && ShareSpine(spines, a, b))
    || (Spelling in rules && SameSquashed(naming.key, a, b))
    || (Initials in rules && ShareInitials(naming.key, a, b))
    || (Fragment in rules && Fragmented(naming.key, a, b))
  }

  /** Two listed people, by key, that one of the chosen tests accepts. */
  ghost predicate AreJoined(naming: Naming, entries: seq<Entry>, spines: map<string, set<string>>, rules: set<Reason>, x: string, y: string)
  {
    exists p, q :: 0 <= p < |entries| && 0 <= q < |entries| && p != q && entries[p].key == x && entries[q].key == y
                   && IsAccepted(naming, spines, rules, entries[p], entries[q])
  }

  /** A chain of people from one to the other, each joined to the next. */
  ghost predicate IsChain(naming: Naming, entries: seq<Entry>, spines: map<string, set<string>>, rules: set<Reason>, chain: seq<string>, x: string, y: string)
  {
    && chain != [] && chain[0] == x && chain[|chain| - 1] == y
    && forall i :: 0 <= i < |chain| - 1 ==> AreJoined(naming, entries, spines, rules, chain[i], chain[i + 1])
  }

  lemma AcceptedEitherWay(naming: Naming, spines: map<string, set<string>>, rules: set<Reason>, a: Entry, b: Entry)
    requires IsAccepted(naming, spines, rules, a, b)
    ensures IsAccepted(naming, spines, rules, b, a)
  {
    SameSquashedIs(naming.key, a, b);
    SameSquashedIs(naming.key, b, a);
    ShareInitialsByWords(naming.key, a, b);
    ShareInitialsByWords(naming.key, b, a);
    FragmentedByWords(naming, a, b);
    FragmentedByWords(naming, b, a);
  }

  // ── Every edge is a test ──────────────────────────────────────────────────

  ghost predicate FilesKeys(file: Entry -> seq<Item<string>>)
  {
    forall e: Entry, item :: item in file(e) ==> item.value == e.key
  }

  lemma TheseFileKeys(ak: string -> string, spines: map<string, set<string>>)
    ensures FilesKeys(FileIdentity(spines)) && FilesKeys(FileSquashed(ak))
  {
  }

  /** Two keys filed under one tag are those of two entries. */
  lemma FiledAreEntries(file: Entry -> seq<Item<string>>, entries: seq<Entry>, x: string, y: string) returns (p: nat, q: nat)
    requires SameTag(file, entries, x, y) && FilesKeys(file)
    ensures p < |entries| && q < |entries| && entries[p].key == x && entries[q].key == y
  {
    var tag, i, j :| 0 <= i < |entries| && 0 <= j < |entries| && Item(tag, x) in file(entries[i]) && Item(tag, y) in file(entries[j]);
    p, q := i, j;
  }

  lemma StarEdgeIsAccepted(naming: Naming, entries: seq<Entry>, spines: map<string, set<string>>, rules: set<Reason>, e: Edge) returns (p: nat, q: nat)
    requires Listed(entries) && e.reason in rules
    requires if e.reason == Identity then e in IdentityEdges(entries, spines)
             else e.reason == Spelling && e in SpellingEdges(naming.key, entries)
    ensures p < |entries| && q < |entries| && entries[p].key == e.left && entries[q].key == e.right
    ensures IsAccepted(naming, spines, rules, entries[p], entries[q])
  {
    if e.reason == Identity {
      TheseFileKeys(naming.key, spines);
      p, q := IdentityEdgeIsAccepted(entries, spines, e);
    } else {
      TheseFileKeys(naming.key, spines);
      p, q := SpellingEdgeIsAccepted(naming.key, entries, e);
    }
  }

  lemma IdentityEdgeIsAccepted(entries: seq<Entry>, spines: map<string, set<string>>, e: Edge) returns (p: nat, q: nat)
    requires Listed(entries) && e in IdentityEdges(entries, spines) && FilesKeys(FileIdentity(spines))
    ensures p < |entries| && q < |entries| && entries[p].key == e.left && entries[q].key == e.right && ShareSpine(spines, entries[p], entries[q])
  {
    StarsAreFor(BucketsOf(Filed(FileIdentity(spines), entries)), Identity);
    assert e == Edge(e.left, e.right, Identity);
    EdgeIsSameTag(FileIdentity(spines), entries, Identity, e.left, e.right);
    p, q := FiledAreEntries(FileIdentity(spines), entries, e.left, e.right);
    IdentityIsSharedSpine(spines, entries, p, q);
  }

  lemma SpellingEdgeIsAccepted(ak: string -> string, entries: seq<Entry>, e: Edge) returns (p: nat, q: nat)
    requires Listed(entries) && e in SpellingEdges(ak, entries) && FilesKeys(FileSquashed(ak))
    ensures p < |entries| && q < |entries| && entries[p].key == e.left && entries[q].key == e.right && SameSquashed(ak, entries[p], entries[q])
  {
    StarsAreFor(BucketsOf(Filed(FileSquashed(ak), entries)), Spelling);
    assert e == Edge(e.left, e.right, Spelling);
    EdgeIsSameTag(FileSquashed(ak), entries, Spelling, e.left, e.right);
    p, q := FiledAreEntries(FileSquashed(ak), entries, e.left, e.right);
    SpellingIsSameSquashed(ak, entries, p, q);
  }

  /** Whatever the budget: an edge joins two people a chosen test accepts. */
  lemma EdgeIsAccepted(naming: Naming, entries: seq<Entry>, spines: map<string, set<string>>, rules: set<Reason>, allowance: int, e: Edge)
      returns (p: nat, q: nat)
    requires WalksWords(naming) && Listed(entries) && e in EdgesFor(naming, entries, spines, rules, allowance)
    ensures p < |entries| && q < |entries| && entries[p].key == e.left && entries[q].key == e.right
    ensures IsAccepted(naming, spines, rules, entries[p], entries[q])
  {
    EdgesByReason(naming, entries, spines, rules, allowance, e);
    match e.reason
    case Initials => p, q := InitialsEdgeIsTested(naming.key, entries, allowance, e);
    case Fragment => p, q := FragmentEdgeIsTested(naming, entries, LeftForFragments(naming.key, entries, rules, allowance), e);
    case _ => p, q := StarEdgeIsAccepted(naming, entries, spines, rules, e);
  }

  lemma AdjacentAreJoined(naming: Naming, entries: seq<Entry>, spines: map<string, set<string>>, rules: set<Reason>, allowance: int, x: string, y: string)
    requires WalksWords(naming) && Listed(entries) && Adjacent(Links(EdgesFor(naming, entries, spines, rules, allowance)), x, y)
    ensures x == y || AreJoined(naming, entries, spines, rules, x, y)
  {
    var edges := EdgesFor(naming, entries, spines, rules, allowance);
    var l :| l in Links(edges) && ((l.left == x && l.right == y) || (l.left == y && l.right == x));
    var i :| 0 <= i < |edges| && Links(edges)[i] == l;
    assert edges[i] in edges;
    var p, q := EdgeIsAccepted(naming, entries, spines, rules, allowance, edges[i]);
    AcceptedEitherWay(naming, spines, rules, entries[p], entries[q]);
  }

  lemma {:induction false} WalkIsAChain(naming: Naming, entries: seq<Entry>, spines: map<string, set<string>>, rules: set<Reason>, allowance: int,
                                        walk: seq<string>, x: string, y: string) returns (chain: seq<string>)
    requires WalksWords(naming) && Listed(entries) && Walk(Links(EdgesFor(naming, entries, spines, rules, allowance)), walk, x, y)
    ensures IsChain(naming, entries, spines, rules, chain, x, y)
    decreases |walk|
  {
    if |walk| == 1 {
      chain := walk;
    } else {
      var rest := walk[1..];
      forall i | 0 <= i < |rest| - 1 ensures Adjacent(Links(EdgesFor(naming, entries, spines, rules, allowance)), rest[i], rest[i + 1]) {
        assert rest[i] == walk[i + 1] && rest[i + 1] == walk[i + 2];
      }
      chain := WalkIsAChain(naming, entries, spines, rules, allowance, rest, walk[1], y);
      AdjacentAreJoined(naming, entries, spines, rules, allowance, walk[0], walk[1]);
      if walk[0] != walk[1] {
        chain := ChainInFront(naming, entries, spines, rules, chain, x, walk[1], y);
      }
    }
  }

  lemma ChainInFront(naming: Naming, entries: seq<Entry>, spines: map<string, set<string>>, rules: set<Reason>, chain: seq<string>,
                     x: string, y: string, z: string) returns (longer: seq<string>)
    requires AreJoined(naming, entries, spines, rules, x, y) && IsChain(naming, entries, spines, rules, chain, y, z)
    ensures IsChain(naming, entries, spines, rules, longer, x, z)
  {
    longer := [x] + chain;
    forall i | 0 <= i < |longer| - 1 ensures AreJoined(naming, entries, spines, rules, longer[i], longer[i + 1]) {
      if i > 0 { assert longer[i] == chain[i - 1] && longer[i + 1] == chain[i]; }
    }
  }

  // ── Every test is an edge, or a way round ─────────────────────────────────

  lemma JoinedIsConnected(edges: seq<Edge>, hub: string, x: string, reason: Reason)
    requires Joined(edges, hub, x, reason)
    ensures Connected(Links(edges), hub, x)
  {
    if hub == x {
      ConnectedToItself(Links(edges), x);
    } else {
      DrawnIsConnected(edges, Edge(hub, x, reason));
    }
  }

  lemma DrawnIsConnected(edges: seq<Edge>, e: Edge)
    requires e in edges
    ensures Connected(Links(edges), e.left, e.right)
  {
    var i :| 0 <= i < |edges| && edges[i] == e;
    assert Links(edges)[i] == Link(e.left, e.right);
    AdjacentIsConnected(Links(edges), Link(e.left, e.right));
  }

  /** Two under one tag are connected through what everything under it is joined to. */
  lemma SameTagIsConnected(file: Entry -> seq<Item<string>>, entries: seq<Entry>, reason: Reason, all: seq<Edge>, x: string, y: string)
    requires SameTag(file, entries, x, y) && forall e :: e in Stars(BucketsOf(Filed(file, entries)), reason) ==> e in all
    ensures Connected(Links(all), x, y)
  {
    var edges := Stars(BucketsOf(Filed(file, entries)), reason);
    var hub := SameTagIsJoined(file, entries, reason, x, y);
    JoinedIsConnected(edges, hub, x, reason);
    JoinedIsConnected(edges, hub, y, reason);
    ConnectedBack(Links(edges), hub, x);
    ConnectedOn(Links(edges), x, hub, y);
    LinksOfMore(edges, all);
    MoreEdgesConnectMore(Links(edges), Links(all), x, y);
  }

  /** No surname and no word is shared by more names than a bucket may hold, and the budget covers every
      comparison. */
  ghost predicate IsWithinBudget(naming: Naming, entries: seq<Entry>, rules: set<Reason>, allowance: int)
  {
    && (Initials in rules ==> NoneOversized(Filed(FileSurname(naming.key), entries)))
    && (Fragment in rules ==> NoneOversized(Filed(FileWords(naming), entries)))
    && PairsOffered(naming, entries, rules) <= allowance
  }

  lemma ComparedIsDrawn(naming: Naming, entries: seq<Entry>, spines: map<string, set<string>>, rules: set<Reason>, allowance: int, p: nat, q: nat)
    requires WalksWords(naming) && IsWithinBudget(naming, entries, rules, allowance) && p < q < |entries|
    requires (Initials in rules && ShareInitials(naming.key, entries[p], entries[q]))
             || (Fragment in rules && Fragmented(naming.key, entries[p], entries[q]))
    ensures Connected(Links(EdgesFor(naming, entries, spines, rules, allowance)), entries[p].key, entries[q].key)
  {
    var reason := if Initials in rules && ShareInitials(naming.key, entries[p], entries[q]) then Initials else Fragment;
    var e := Edge(entries[p].key, entries[q].key, reason);
    if reason == Initials {
      TestedIsAnInitialsEdge(naming.key, entries, allowance, p, q);
    } else {
      TestedIsAFragmentEdge(naming, entries, LeftForFragments(naming.key, entries, rules, allowance), p, q);
    }
    EdgesByReason(naming, entries, spines, rules, allowance, e);
    DrawnIsConnected(EdgesFor(naming, entries, spines, rules, allowance), e);
  }

  lemma GroupedIsConnected(naming: Naming, entries: seq<Entry>, spines: map<string, set<string>>, rules: set<Reason>, allowance: int, p: nat, q: nat)
    requires Listed(entries) && p < |entries| && q < |entries|
    requires (Identity in rules && ShareSpine(spines, entries[p], entries[q]))
             || (Spelling in rules && SameSquashed(naming.key, entries[p], entries[q]))
    ensures Connected(Links(EdgesFor(naming, entries, spines, rules, allowance)), entries[p].key, entries[q].key)
  {
    var all := EdgesFor(naming, entries, spines, rules, allowance);
    if Identity in rules && ShareSpine(spines, entries[p], entries[q]) {
      IdentityIsSharedSpine(spines, entries, p, q);
      SameTagIsConnected(FileIdentity(spines), entries, Identity, all, entries[p].key, entries[q].key);
    } else {
      SpellingIsSameSquashed(naming.key, entries, p, q);
      SameTagIsConnected(FileSquashed(naming.key), entries, Spelling, all, entries[p].key, entries[q].key);
    }
  }

  lemma AcceptedIsConnected(naming: Naming, entries: seq<Entry>, spines: map<string, set<string>>, rules: set<Reason>, allowance: int, p: nat, q: nat)
    requires WalksWords(naming) && Listed(entries) && IsWithinBudget(naming, entries, rules, allowance)
    requires p < |entries| && q < |entries| && p != q && IsAccepted(naming, spines, rules, entries[p], entries[q])
    ensures Connected(Links(EdgesFor(naming, entries, spines, rules, allowance)), entries[p].key, entries[q].key)
  {
    if (Identity in rules && ShareSpine(spines, entries[p], entries[q])) || (Spelling in rules && SameSquashed(naming.key, entries[p], entries[q])) {
      GroupedIsConnected(naming, entries, spines, rules, allowance, p, q);
    } else if p < q {
      ComparedIsDrawn(naming, entries, spines, rules, allowance, p, q);
    } else {
      ShareInitialsByWords(naming.key, entries[p], entries[q]);
      ShareInitialsByWords(naming.key, entries[q], entries[p]);
      FragmentedByWords(naming, entries[p], entries[q]);
      FragmentedByWords(naming, entries[q], entries[p]);
      ComparedIsDrawn(naming, entries, spines, rules, allowance, q, p);
      ConnectedBack(Links(EdgesFor(naming, entries, spines, rules, allowance)), entries[q].key, entries[p].key);
    }
  }

  lemma {:induction false} ChainIsConnected(naming: Naming, entries: seq<Entry>, spines: map<string, set<string>>, rules: set<Reason>, allowance: int,
                                            chain: seq<string>, x: string, y: string)
    requires WalksWords(naming) && Listed(entries) && IsWithinBudget(naming, entries, rules, allowance)
    requires IsChain(naming, entries, spines, rules, chain, x, y)
    ensures Connected(Links(EdgesFor(naming, entries, spines, rules, allowance)), x, y)
    decreases |chain|
  {
    var links := Links(EdgesFor(naming, entries, spines, rules, allowance));
    if |chain| == 1 {
      ConnectedToItself(links, x);
    } else {
      var rest := chain[1..];
      forall i | 0 <= i < |rest| - 1 ensures AreJoined(naming, entries, spines, rules, rest[i], rest[i + 1]) {
        assert rest[i] == chain[i + 1] && rest[i + 1] == chain[i + 2];
      }
      ChainIsConnected(naming, entries, spines, rules, allowance, rest, chain[1], y);
      assert AreJoined(naming, entries, spines, rules, chain[0], chain[1]);
      var p, q :| 0 <= p < |entries| && 0 <= q < |entries| && p != q && entries[p].key == chain[0] && entries[q].key == chain[1]
               && IsAccepted(naming, spines, rules, entries[p], entries[q]);
      AcceptedIsConnected(naming, entries, spines, rules, allowance, p, q);
      ConnectedOn(links, x, chain[1], y);
    }
  }

  // ── So the groups are the chains ──────────────────────────────────────────

  /** Whatever the budget, the edges connect nobody a chain of accepted tests does not; and within it they
      connect everybody one does. */
  lemma ConnectedIffChained(naming: Naming, entries: seq<Entry>, spines: map<string, set<string>>, rules: set<Reason>, allowance: int, x: string, y: string)
    requires WalksWords(naming) && Listed(entries)
    ensures var connected := Connected(Links(EdgesFor(naming, entries, spines, rules, allowance)), x, y);
            && (connected ==> exists chain :: IsChain(naming, entries, spines, rules, chain, x, y))
            && (IsWithinBudget(naming, entries, rules, allowance) ==>
                  (connected <==> exists chain :: IsChain(naming, entries, spines, rules, chain, x, y)))
  {
    if walk :| Walk(Links(EdgesFor(naming, entries, spines, rules, allowance)), walk, x, y) {
      var chain := WalkIsAChain(naming, entries, spines, rules, allowance, walk, x, y);
    }
    if IsWithinBudget(naming, entries, rules, allowance) {
      if chain :| IsChain(naming, entries, spines, rules, chain, x, y) {
        ChainIsConnected(naming, entries, spines, rules, allowance, chain, x, y);
      }
    }
  }

  /** In what is offered, everybody of a group is reached from everybody else of it by a chain of accepted
      tests; and within the budget, with no more groups than are shown, two listed people are offered
      together exactly where such a chain leads from one to the other. */
  lemma OfferedIffChained(naming: Naming, entries: seq<Entry>, spines: map<string, set<string>>, rules: set<Reason>, offered: seq<Suggestion>,
                          x: string, y: string)
    requires WalksWords(naming) && Listed(entries)
    requires IsOffered(NameBy(entries), EdgesFor(naming, entries, spines, rules, MAX_COMPARISONS), offered)
    ensures (exists g :: g in offered && x in g.keys && y in g.keys) ==> exists chain :: IsChain(naming, entries, spines, rules, chain, x, y)
    ensures |offered| < 100 && IsWithinBudget(naming, entries, rules, MAX_COMPARISONS) && x != y && x in KeySet(entries) && y in KeySet(entries) ==>
              ((exists g :: g in offered && x in g.keys && y in g.keys) <==> exists chain :: IsChain(naming, entries, spines, rules, chain, x, y))
  {
    var edges := EdgesFor(naming, entries, spines, rules, MAX_COMPARISONS);
    NameByReads(entries);
    ConnectedIffChained(naming, entries, spines, rules, MAX_COMPARISONS, x, y);
    TogetherIffConnected(NameBy(entries), edges, offered, x, y);
  }

  lemma TogetherIffConnected(names: map<string, string>, edges: seq<Edge>, offered: seq<Suggestion>, x: string, y: string)
    requires IsOffered(names, edges, offered)
    ensures (exists g :: g in offered && x in g.keys && y in g.keys) ==> Connected(Links(edges), x, y)
    ensures |offered| < 100 && x != y && x in names && y in names && Connected(Links(edges), x, y) ==>
              exists g :: g in offered && x in g.keys && y in g.keys
  {
    var all :| IsGrouping(names, edges, all) && IsCut(all, offered) && offered <= Rank(all);
    if g: Suggestion :| g in offered && x in g.keys && y in g.keys {
      assert IsGroup(names, edges, g);
    }
    if |offered| < 100 && x != y && x in names && y in names && Connected(Links(edges), x, y) {
      var g: Suggestion :| g in all && x in g.keys;
      assert IsGroup(names, edges, g) && g in offered;
    }
  }
}
