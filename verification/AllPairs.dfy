/** What the rules find, told without buckets or budgets: each agrees with the test
    a reader would put to every two names. */
module AllPairs {
  import opened Strings
  import opened Index
  import opened Buckets
  import opened Rules

  // ── The tests ─────────────────────────────────────────────────────────────

  /** Some word before the last is a single letter. */
  predicate Abbreviates(words: seq<string>)
  {
    exists i :: 0 <= i < |words| - 1 && |words[i]| == 1
  }

  /** Two or more words each, the last the same, the first of one letter, and one of them abbreviated. */
  predicate InitialsAgree(wa: seq<string>, wb: seq<string>)
  {
    && |wa| > 1 && |wb| > 1
    && wa[|wa| - 1] == wb[|wb| - 1]
    && wa[0] != "" && wb[0] != "" && wa[0][0] == wb[0][0]
    && (Abbreviates(wa) || Abbreviates(wb))
  }

  /** Two names that end alike and start with one letter, one of them with an initial before its last word. */
  ghost predicate ShareInitials(ak: string -> string, a: Entry, b: Entry)
  {
    exists wa, wb :: AreRuns(Just(' '), ak(a.name), wa) && AreRuns(Just(' '), ak(b.name), wb) && InitialsAgree(wa, wb)
  }

  lemma ShareInitialsByWords(ak: string -> string, a: Entry, b: Entry)
    ensures ShareInitials(ak, a, b) <==> InitialsAgree(Words(ak(a.name)), Words(ak(b.name)))
  {
    WordsAreTheRuns(ak(a.name), Words(ak(a.name)));
    WordsAreTheRuns(ak(b.name), Words(ak(b.name)));
    if wa, wb :| AreRuns(Just(' '), ak(a.name), wa) && AreRuns(Just(' '), ak(b.name), wb) && InitialsAgree(wa, wb) {
      WordsAreTheRuns(ak(a.name), wa);
      WordsAreTheRuns(ak(b.name), wb);
    }
  }

  /** The words of one are two or more, and a proper part of those of the other. */
  predicate OneHoldsTheOther(wa: set<string>, wb: set<string>)
  {
    (|wa| >= 2 && wa < wb) || (|wb| >= 2 && wb < wa)
  }

  ghost predicate Fragmented(ak: string -> string, a: Entry, b: Entry)
  {
    exists wa, wb :: AreRuns(Just(' '), ak(a.name), wa) && AreRuns(Just(' '), ak(b.name), wb) && OneHoldsTheOther((set w | w in wa), (set w | w in wb))
  }

  lemma FragmentedByWords(naming: Naming, a: Entry, b: Entry)
    ensures Fragmented(naming.key, a, b) <==> OneHoldsTheOther(WordSet(naming, a), WordSet(naming, b))
  {
    var ka, kb := naming.key(a.name), naming.key(b.name);
    WordsAreTheRuns(ka, Words(ka));
    WordsAreTheRuns(kb, Words(kb));
    if wa, wb :| AreRuns(Just(' '), ka, wa) && AreRuns(Just(' '), kb, wb) && OneHoldsTheOther((set w | w in wa), (set w | w in wb)) {
      WordsAreTheRuns(ka, wa);
      WordsAreTheRuns(kb, wb);
    }
  }

  /** Both carry exactly one number under the authority file, and it is the same one. */
  predicate ShareSpine(spines: map<string, set<string>>, a: Entry, b: Entry)
  {
    && a.key in spines && |spines[a.key]| == 1
    && b.key in spines && spines[a.key] == spines[b.key]
  }

  /** The same name with the spaces moved. */
  ghost predicate SameSquashed(ak: string -> string, a: Entry, b: Entry)
  {
    exists wa, wb :: AreRuns(Just(' '), ak(a.name), wa) && AreRuns(Just(' '), ak(b.name), wb) && RunTogether(wa) == RunTogether(wb)
  }

  lemma SameSquashedIs(ak: string -> string, a: Entry, b: Entry)
    ensures SameSquashed(ak, a, b) <==> Unspaced(ak(a.name)) == Unspaced(ak(b.name))
  {
    var ka, kb := ak(a.name), ak(b.name);
    WordsAreTheRuns(ka, Words(ka));
    WordsAreTheRuns(kb, Words(kb));
    UnspacedIsRunTogether(ka, Words(ka));
    UnspacedIsRunTogether(kb, Words(kb));
    if wa, wb :| AreRuns(Just(' '), ka, wa) && AreRuns(Just(' '), kb, wb) && RunTogether(wa) == RunTogether(wb) {
      UnspacedIsRunTogether(ka, wa);
      UnspacedIsRunTogether(kb, wb);
    }
  }

  // ── Initials ──────────────────────────────────────────────────────────────

  lemma SurnamesFileOnce(ak: string -> string)
    ensures FilesOnce(FileSurname(ak))
  {
  }

  lemma SurnamePairsAreEntries(ak: string -> string, entries: seq<Entry>, a: Surnamed, b: Surnamed)
    ensures (a, b) in SurnamePairs(ak, entries) ==> exists tag, p, q :: FiledUnder(FileSurname(ak), entries, tag, a, b, p, q)
    ensures NoneOversized(Filed(FileSurname(ak), entries)) && (exists tag, p, q :: FiledUnder(FileSurname(ak), entries, tag, a, b, p, q)) ==>
              (a, b) in SurnamePairs(ak, entries)
  {
    var items := Filed(FileSurname(ak), entries);
    BucketingIsAllPairs(items, a, b);
    SurnamesFileOnce(ak);
    if (a, b) in SurnamePairs(ak, entries) {
      var tag, i, j :| FiledAt(items, tag, a, b, i, j);
      ItemPairsAreEntryPairs(FileSurname(ak), entries, tag, a, b);
    }
    if tag, p, q :| FiledUnder(FileSurname(ak), entries, tag, a, b, p, q) {
      ItemPairsAreEntryPairs(FileSurname(ak), entries, tag, a, b);
      var i, j :| FiledAt(items, tag, a, b, i, j);
    }
  }

  lemma FiledSurname(ak: string -> string, e: Entry, tag: string, a: Surnamed)
    requires Item(tag, a) in FileSurname(ak)(e)
    ensures var words := Words(ak(e.name));
            |words| > 1 && tag == words[|words| - 1] && a == Surnamed(e.key, words[0][0], Abbreviates(words))
  {
  }

  lemma InitialsEdgeWasCompared(ak: string -> string, entries: seq<Entry>, left: int, e: Edge) returns (a: Surnamed, b: Surnamed)
    requires e in InitialsEdges(ak, entries, left)
    ensures (a, b) in SurnamePairs(ak, entries) && SameInitial(a, b) && e == Edge(a.key, b.key, Initials)
  {
    var pairs := SurnamePairs(ak, entries);
    var found := Accepted(SameInitial, pairs[..Allowed(left, |pairs|)]);
    var i :| 0 <= i < |found| && InitialsFound(found)[i] == e;
    AcceptedIsFiltered(SameInitial, pairs[..Allowed(left, |pairs|)]);
    assert found[i] in pairs;
    a, b := found[i].0, found[i].1;
  }

  /** Soundness, whatever was skipped or left uncompared: an edge joins two names the test accepts. */
  lemma InitialsEdgeIsTested(ak: string -> string, entries: seq<Entry>, left: int, e: Edge) returns (p: nat, q: nat)
    requires e in InitialsEdges(ak, entries, left)
    ensures e.reason == Initials && p < q < |entries| && entries[p].key == e.left && entries[q].key == e.right
    ensures ShareInitials(ak, entries[p], entries[q])
  {
    var a, b := InitialsEdgeWasCompared(ak, entries, left, e);
    SurnamePairsAreEntries(ak, entries, a, b);
    var tag, m, n :| FiledUnder(FileSurname(ak), entries, tag, a, b, m, n);
    p, q := m, n;
    FiledSurname(ak, entries[p], tag, a);
    FiledSurname(ak, entries[q], tag, b);
    ShareInitialsByWords(ak, entries[p], entries[q]);
  }

  /** Completeness: with no surname oversized and the budget unspent, every two names the test accepts are joined. */
  lemma TestedIsAnInitialsEdge(ak: string -> string, entries: seq<Entry>, left: int, p: nat, q: nat)
    requires NoneOversized(Filed(FileSurname(ak), entries)) && left >= |SurnamePairs(ak, entries)|
    requires p < q < |entries| && ShareInitials(ak, entries[p], entries[q])
    ensures Edge(entries[p].key, entries[q].key, Initials) in InitialsEdges(ak, entries, left)
  {
    ShareInitialsByWords(ak, entries[p], entries[q]);
    var pairs := SurnamePairs(ak, entries);
    var wa, wb := Words(ak(entries[p].name)), Words(ak(entries[q].name));
    var a := Surnamed(entries[p].key, wa[0][0], Abbreviates(wa));
    var b := Surnamed(entries[q].key, wb[0][0], Abbreviates(wb));
    assert FileSurname(ak)(entries[p]) == [Item(wa[|wa| - 1], a)];
    assert FileSurname(ak)(entries[q]) == [Item(wb[|wb| - 1], b)];
    assert FiledUnder(FileSurname(ak), entries, wa[|wa| - 1], a, b, p, q);
    SurnamePairsAreEntries(ak, entries, a, b);
    PairIsFound(ak, entries, left, a, b);
  }

  lemma PairIsFound(ak: string -> string, entries: seq<Entry>, left: int, a: Surnamed, b: Surnamed)
    requires (a, b) in SurnamePairs(ak, entries) && SameInitial(a, b) && left >= |SurnamePairs(ak, entries)|
    ensures Edge(a.key, b.key, Initials) in InitialsEdges(ak, entries, left)
  {
    var pairs := SurnamePairs(ak, entries);
    assert pairs[..Allowed(left, |pairs|)] == pairs;
    AcceptedIsFiltered(SameInitial, pairs);
    var found := Accepted(SameInitial, pairs);
    var i :| 0 <= i < |found| && found[i] == (a, b);
    assert InitialsFound(found)[i] == Edge(a.key, b.key, Initials);
  }

  // ── Fragments ─────────────────────────────────────────────────────────────

  lemma WordsFileOnce(naming: Naming)
    requires WalksWords(naming)
    ensures FilesOnce(FileWords(naming))
  {
    forall e: Entry ensures OncePerTag(FileWords(naming)(e)) {
      var tokens, items := naming.tokens(e.name), FileWords(naming)(e);
      assert forall i :: 0 <= i < |items| ==> items[i].tag == tokens[i];
    }
  }

  lemma WordPairsAreEntries(naming: Naming, entries: seq<Entry>, a: Worded, b: Worded)
    requires WalksWords(naming)
    ensures (a, b) in WordPairs(naming, entries) ==> exists tag, p, q :: FiledUnder(FileWords(naming), entries, tag, a, b, p, q)
    ensures NoneOversized(Filed(FileWords(naming), entries)) && (exists tag, p, q :: FiledUnder(FileWords(naming), entries, tag, a, b, p, q)) ==>
              (a, b) in WordPairs(naming, entries)
  {
    var items := Filed(FileWords(naming), entries);
    BucketingIsAllPairs(items, a, b);
    WordsFileOnce(naming);
    if (a, b) in WordPairs(naming, entries) {
      var tag, i, j :| FiledAt(items, tag, a, b, i, j);
      ItemPairsAreEntryPairs(FileWords(naming), entries, tag, a, b);
    }
    if tag, p, q :| FiledUnder(FileWords(naming), entries, tag, a, b, p, q) {
      ItemPairsAreEntryPairs(FileWords(naming), entries, tag, a, b);
      var i, j :| FiledAt(items, tag, a, b, i, j);
    }
  }

  lemma FiledWordIsTheirs(naming: Naming, e: Entry, tag: string, a: Worded)
    requires Item(tag, a) in FileWords(naming)(e)
    ensures a == Worded(e.key, WordSet(naming, e)) && tag in naming.tokens(e.name)
  {
  }

  lemma FragmentEdgeIsTested(naming: Naming, entries: seq<Entry>, left: int, e: Edge) returns (p: nat, q: nat)
    requires WalksWords(naming) && e in FragmentEdges(naming, entries, left)
    ensures e.reason == Fragment && p < q < |entries| && entries[p].key == e.left && entries[q].key == e.right
    ensures Fragmented(naming.key, entries[p], entries[q])
  {
    var pairs := WordPairs(naming, entries);
    var found := Accepted(OneInsideOther, pairs[..Allowed(left, |pairs|)]);
    var i :| 0 <= i < |found| && FragmentsFound(found)[i] == e;
    AcceptedIsFiltered(OneInsideOther, pairs[..Allowed(left, |pairs|)]);
    assert found[i] in pairs;
    var a, b := found[i].0, found[i].1;
    WordPairsAreEntries(naming, entries, a, b);
    var tag, m, n :| FiledUnder(FileWords(naming), entries, tag, a, b, m, n);
    p, q := m, n;
    FiledWordIsTheirs(naming, entries[p], tag, a);
    FiledWordIsTheirs(naming, entries[q], tag, b);
    FragmentedByWords(naming, entries[p], entries[q]);
  }

  lemma ProperSubsetIsSmaller(a: set<string>, b: set<string>)
    requires a < b
    ensures |a| < |b|
  {
    assert b == a + (b - a);
    assert b - a != {};
  }

  lemma TestedIsAFragmentEdge(naming: Naming, entries: seq<Entry>, left: int, p: nat, q: nat)
    requires WalksWords(naming)
    requires NoneOversized(Filed(FileWords(naming), entries)) && left >= |WordPairs(naming, entries)|
    requires p < q < |entries| && Fragmented(naming.key, entries[p], entries[q])
    ensures Edge(entries[p].key, entries[q].key, Fragment) in FragmentEdges(naming, entries, left)
  {
    FragmentedByWords(naming, entries[p], entries[q]);
    var pairs := WordPairs(naming, entries);
    var a, b := Worded(entries[p].key, WordSet(naming, entries[p])), Worded(entries[q].key, WordSet(naming, entries[q]));
    if a.words < b.words { ProperSubsetIsSmaller(a.words, b.words); } else { ProperSubsetIsSmaller(b.words, a.words); }
    assert OneInsideOther(a, b);
    // A word both have: any word of the smaller set.
    var shorter := if a.words < b.words then a.words else b.words;
    assert shorter != {};
    var tag :| tag in shorter;
    TokenIsFiled(naming, entries[p], tag);
    TokenIsFiled(naming, entries[q], tag);
    assert FiledUnder(FileWords(naming), entries, tag, a, b, p, q);
    WordPairsAreEntries(naming, entries, a, b);
    assert pairs[..Allowed(left, |pairs|)] == pairs;
    AcceptedIsFiltered(OneInsideOther, pairs);
    var found := Accepted(OneInsideOther, pairs);
    var i :| 0 <= i < |found| && found[i] == (a, b);
    assert FragmentsFound(found)[i] == Edge(entries[p].key, entries[q].key, Fragment);
  }

  lemma TokenIsFiled(naming: Naming, e: Entry, tag: string)
    requires WalksWords(naming) && tag in WordSet(naming, e)
    ensures Item(tag, Worded(e.key, WordSet(naming, e))) in FileWords(naming)(e)
  {
    var tokens := naming.tokens(e.name);
    assert tag in tokens;
    var i :| 0 <= i < |tokens| && tokens[i] == tag;
    assert FileWords(naming)(e)[i] == Item(tag, Worded(e.key, WordSet(naming, e)));
  }

  // ── Equal values ──────────────────────────────────────────────────────────

  /** Two entries under one tag. */
  ghost predicate SameTag(file: Entry -> seq<Item<string>>, entries: seq<Entry>, x: string, y: string)
  {
    exists tag, p, q :: 0 <= p < |entries| && 0 <= q < |entries| && Item(tag, x) in file(entries[p]) && Item(tag, y) in file(entries[q])
  }

  /** The same key, or joined to it by an edge. */
  ghost predicate Joined(edges: seq<Edge>, hub: string, x: string, reason: Reason)
  {
    hub == x || Edge(hub, x, reason) in edges
  }

  /** Grouping on an equal value joins nothing else, and everything that shares one through one hub. */
  lemma StarsAreSameTag(file: Entry -> seq<Item<string>>, entries: seq<Entry>, reason: Reason, x: string, y: string)
    ensures var edges := Stars(BucketsOf(Filed(file, entries)), reason);
            && (Edge(x, y, reason) in edges ==> SameTag(file, entries, x, y))
            && (SameTag(file, entries, x, y) ==> exists hub :: Joined(edges, hub, x, reason) && Joined(edges, hub, y, reason))
  {
    var edges := Stars(BucketsOf(Filed(file, entries)), reason);
    if Edge(x, y, reason) in edges {
      EdgeIsSameTag(file, entries, reason, x, y);
    }
    if SameTag(file, entries, x, y) {
      var hub := SameTagIsJoined(file, entries, reason, x, y);
    }
  }

  lemma SameTagIsJoined(file: Entry -> seq<Item<string>>, entries: seq<Entry>, reason: Reason, x: string, y: string) returns (hub: string)
    requires SameTag(file, entries, x, y)
    ensures var edges := Stars(BucketsOf(Filed(file, entries)), reason);
            Joined(edges, hub, x, reason) && Joined(edges, hub, y, reason)
  {
    var tag, p, q :| 0 <= p < |entries| && 0 <= q < |entries| && Item(tag, x) in file(entries[p]) && Item(tag, y) in file(entries[q]);
    hub := HubOf(file, entries, tag);
    TaggedIsJoined(file, entries, reason, tag, p, x, hub);
    TaggedIsJoined(file, entries, reason, tag, q, y, hub);
  }

  lemma EdgeIsSameTag(file: Entry -> seq<Item<string>>, entries: seq<Entry>, reason: Reason, x: string, y: string)
    requires Edge(x, y, reason) in Stars(BucketsOf(Filed(file, entries)), reason)
    ensures SameTag(file, entries, x, y)
  {
    var items := Filed(file, entries);
    var buckets, tags := BucketsOf(items), Tags(items);
    StarsJoinBuckets(buckets, reason);
    var b :| 0 <= b < |buckets| && x in buckets[b] && y in buckets[b];
    var p := BucketedIsFiled(file, entries, tags[b], x);
    var q := BucketedIsFiled(file, entries, tags[b], y);
  }

  /** What everything under a tag is joined to. */
  ghost function HubOf(file: Entry -> seq<Item<string>>, entries: seq<Entry>, tag: string): string
  {
    var bucket := Bucket(Filed(file, entries), tag);
    if bucket == [] then "" else bucket[0]
  }

  lemma TaggedIsJoined(
    file: Entry -> seq<Item<string>>, entries: seq<Entry>, reason: Reason, tag: string, p: nat, x: string, hub: string)
    requires p < |entries| && Item(tag, x) in file(entries[p]) && hub == HubOf(file, entries, tag)
    ensures Joined(Stars(BucketsOf(Filed(file, entries)), reason), hub, x, reason)
  {
    var items := Filed(file, entries);
    var buckets, tags := BucketsOf(items), Tags(items);
    var i := FiledGoesTo(file, entries, p, Item(tag, x));
    assert tag in tags;
    var b :| 0 <= b < |tags| && tags[b] == tag;
    var at := BucketPlace(items, tag, i);
    assert buckets[b] == Bucket(items, tag) && buckets[b][at] == x;
    StarsJoinBuckets(buckets, reason);
  }

  lemma BucketedIsFiled(file: Entry -> seq<Item<string>>, entries: seq<Entry>, tag: string, x: string) returns (p: nat)
    requires x in Bucket(Filed(file, entries), tag)
    ensures p < |entries| && Item(tag, x) in file(entries[p])
  {
    var bucket := Bucket(Filed(file, entries), tag);
    var a :| 0 <= a < |bucket| && bucket[a] == x;
    var i := ItemWasFiled(Filed(file, entries), tag, a);
    p := FiledComesFrom(file, entries, i);
  }

  lemma SpellingIsSameSquashed(ak: string -> string, entries: seq<Entry>, p: nat, q: nat)
    requires Listed(entries) && p < |entries| && q < |entries|
    ensures SameTag(FileSquashed(ak), entries, entries[p].key, entries[q].key) <==> SameSquashed(ak, entries[p], entries[q])
  {
    var file := FileSquashed(ak);
    SameSquashedIs(ak, entries[p], entries[q]);
    if SameSquashed(ak, entries[p], entries[q]) {
      var tag := Unspaced(ak(entries[p].name));
      assert Item(tag, entries[p].key) in file(entries[p]) && Item(tag, entries[q].key) in file(entries[q]);
    }
    if tag, i, j :| 0 <= i < |entries| && 0 <= j < |entries| && Item(tag, entries[p].key) in file(entries[i]) && Item(tag, entries[q].key) in file(entries[j]) {
      OneEntryPerKey(entries, i, p);
      OneEntryPerKey(entries, j, q);
    }
  }

  lemma OneEntryPerKey(entries: seq<Entry>, i: nat, p: nat)
    requires Listed(entries) && i < |entries| && p < |entries| && entries[i].key == entries[p].key
    ensures i == p
  {
  }

  lemma IdentityIsSharedSpine(spines: map<string, set<string>>, entries: seq<Entry>, p: nat, q: nat)
    requires Listed(entries) && p < |entries| && q < |entries|
    ensures SameTag(FileIdentity(spines), entries, entries[p].key, entries[q].key) <==> ShareSpine(spines, entries[p], entries[q])
  {
    var file := FileIdentity(spines);
    if ShareSpine(spines, entries[p], entries[q]) {
      var tag := Only(spines[entries[p].key]);
      assert Item(tag, entries[p].key) in file(entries[p]) && Item(tag, entries[q].key) in file(entries[q]);
    }
    if tag, i, j :| 0 <= i < |entries| && 0 <= j < |entries| && Item(tag, entries[p].key) in file(entries[i]) && Item(tag, entries[q].key) in file(entries[j]) {
      OneEntryPerKey(entries, i, p);
      OneEntryPerKey(entries, j, q);
      SameOnly(spines[entries[p].key], spines[entries[q].key]);
    }
  }

  lemma SameOnly(a: set<string>, b: set<string>)
    requires |a| == 1 && |b| == 1 && Only(a) == Only(b)
    ensures a == b
  {
    assert forall v :: v in a ==> v == Only(a);
    assert forall v :: v in b ==> v == Only(b);
  }
}
