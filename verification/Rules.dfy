/** The four rules that propose two names are one person: `_edges_on_identity`,
    `_edges_on_squashed_key`, `_edges_on_initials`, `_edges_on_fragments`, and the order they run in. */
module Rules {
  import opened Buckets
  import opened Index
  import opened Sequences
  import opened Strings

  datatype Reason = Identity | Spelling | Initials | Fragment

  /** Two people one rule would join. */
  datatype Edge = Edge(left: string, right: string, reason: Reason)

  /** How names are read: their key, and the words of a key in the order a set of them is walked,
      which is arbitrary and stays the same. */
  datatype Naming = Naming(key: string -> string, tokens: string -> seq<string>)

  /** The words of a key: its parts between single spaces. */
  function Words(key: string): seq<string>
  {
    NonEmpty(SplitOn(' ', key))
  }

  /** They are its longest stretches without a space, in order, and nothing else is. */
  lemma WordsAreTheRuns(key: string, words: seq<string>)
    ensures AreRuns(Just(' '), key, words) <==> words == Words(key)
  {
    SplitIsRuns(' ', key);
    if AreRuns(Just(' '), key, words) {
      RunsAreUnique(Just(' '), key, words, Words(key));
    }
  }

  /** So the words of words joined by spaces are those words. */
  lemma WordsOfJoin(words: seq<string>)
    requires FreeOf(' ', words) && forall i :: 0 <= i < |words| ==> words[i] != ""
    ensures Words(Join(" ", words)) == words
  {
    assert " " == [' '];
    JoinedAreRuns(' ', words);
    WordsAreTheRuns(Join(" ", words), words);
  }

  lemma OneWord(a: string)
    requires ' ' !in a && a != ""
    ensures SplitOn(' ', a) == [a]
  {
    SplitJoin(' ', [a]);
  }

  lemma TwoWords(a: string, b: string)
    requires ' ' !in a && ' ' !in b && a != "" && b != ""
    ensures Words(a + " " + b) == [a, b]
  {
    assert " " == [' '];
    SplitAtSeparator(' ', a, b);
    OneWord(b);
    assert a + [' '] + b == a + " " + b && [a] + [b] == [a, b];
    assert [a, b][1..] == [b] && [b][1..] == [];
    assert NonEmpty([a, b]) == [a] + NonEmpty([b]) && NonEmpty([b]) == [b] + NonEmpty([]);
  }

  function Unspaced(key: string): string
  {
    if key == "" then "" else (if key[0] == ' ' then "" else [key[0]]) + Unspaced(key[1..])
  }

  /** These words run together. */
  function RunTogether(words: seq<string>): string
  {
    Join("", words)
  }

  lemma {:induction false} UnspacedConcat(a: string, b: string)
    ensures Unspaced(a + b) == Unspaced(a) + Unspaced(b)
  {
    if a == "" {
      assert a + b == b;
    } else {
      assert (a + b)[1..] == a[1..] + b;
      UnspacedConcat(a[1..], b);
    }
  }

  lemma {:induction false} UnspacedWord(word: string)
    requires ' ' !in word
    ensures Unspaced(word) == word
  {
    if word != "" {
      UnspacedWord(word[1..]);
      assert word == [word[0]] + word[1..];
    }
  }

  lemma {:induction false} UnspacedSpaces(text: string)
    requires forall p :: 0 <= p < |text| ==> text[p] == ' '
    ensures Unspaced(text) == ""
  {
    if text != "" {
      UnspacedSpaces(text[1..]);
    }
  }

  lemma UnspacedOfThree(before: string, word: string, rest: string)
    requires ' ' !in word && forall p :: 0 <= p < |before| ==> before[p] == ' '
    ensures Unspaced(before + word + rest) == word + Unspaced(rest)
  {
    UnspacedSpaces(before);
    UnspacedWord(word);
    UnspacedConcat(before, word);
    UnspacedConcat(before + word, rest);
  }

  lemma UnspacedFrom(key: string, word: string, at: nat)
    requires IsNextRun(Just(' '), key, word, at)
    ensures Unspaced(key) == word + Unspaced(key[at + |word|..])
  {
    UnspacedOfThree(key[..at], word, key[at + |word|..]);
    InThree(key, at, at + |word|);
  }

  lemma RunTogetherOneMore(words: seq<string>)
    requires words != []
    ensures RunTogether(words) == words[0] + RunTogether(words[1..])
  {
  }

  /** A key without its spaces is its words run together. */
  lemma {:induction false} UnspacedIsRunTogether(key: string, words: seq<string>)
    requires AreRuns(Just(' '), key, words)
    ensures Unspaced(key) == RunTogether(words)
    decreases |words|
  {
    if words == [] {
      UnspacedSpaces(key);
    } else {
      var at := FirstRun(Just(' '), key, words);
      UnspacedIsRunTogether(key[at + |words[0]|..], words[1..]);
      UnspacedFrom(key, words[0], at);
      RunTogetherOneMore(words);
    }
  }

  /** Each of these words once, and no other. */
  ghost predicate WalksOnce(tokens: seq<string>, words: seq<string>)
  {
    && (forall i, j :: 0 <= i < j < |tokens| ==> tokens[i] != tokens[j])
    && (forall w :: w in tokens <==> w in words)
  }

  /** The walk of a name's words visits each of them once. */
  ghost predicate WalksWords(naming: Naming)
  {
    forall name: string :: WalksOnce(naming.tokens(name), Words(naming.key(name)))
  }

  function Alphabetical(key: string -> string): string -> seq<string>
  {
    name => SortedKeys(Words(key(name)))
  }

  lemma SortedWalksOnce(words: seq<string>)
    ensures WalksOnce(SortedKeys(words), words)
  {
    SortedKeysAreAscending(words);
    var keys := SortedKeys(words);
    forall i, j | 0 <= i < j < |keys| ensures keys[i] != keys[j] {
      BeforeIsStrict(keys[i], keys[j]);
    }
  }

  /** One such walk. */
  lemma AlphabeticalWalksWords(key: string -> string)
    ensures WalksWords(Naming(key, Alphabetical(key)))
  {
    var naming := Naming(key, Alphabetical(key));
    forall name: string {
      WalksAlphabetically(naming, name);
    }
  }

  lemma WalksAlphabetically(naming: Naming, name: string)
    requires naming.tokens == Alphabetical(naming.key)
    ensures WalksOnce(naming.tokens(name), Words(naming.key(name)))
  {
    SortedWalksOnce(Words(naming.key(name)));
  }

  ghost predicate Listed(entries: seq<Entry>)
  {
    forall i, j :: 0 <= i < j < |entries| ==> entries[i].key != entries[j].key
  }

  // ── Filing ────────────────────────────────────────────────────────────────

  /** What a rule files for each entry, entry by entry. */
  function Filed<T>(file: Entry -> seq<Item<T>>, entries: seq<Entry>): seq<Item<T>>
  {
    if entries == [] then []
    else Filed(file, entries[..|entries| - 1]) + file(entries[|entries| - 1])
  }

  method FileAll<T>(file: Entry -> seq<Item<T>>, entries: seq<Entry>) returns (items: seq<Item<T>>)
    ensures items == Filed(file, entries)
  {
    items := [];
    for i := 0 to |entries|
      invariant items == Filed(file, entries[..i])
    {
      assert entries[..i + 1][..i] == entries[..i];
      items := items + file(entries[i]);
    }
    assert entries[..|entries|] == entries;
  }

  /** No entry is filed twice under one tag. */
  ghost predicate FilesOnce<T>(file: Entry -> seq<Item<T>>)
  {
    forall e: Entry :: OncePerTag(file(e))
  }

  ghost predicate OncePerTag<T>(items: seq<Item<T>>)
  {
    forall i, j :: 0 <= i < j < |items| ==> items[i].tag != items[j].tag
  }

  /** Two entries, the earlier filed as `x` and the later as `y`, under one tag. */
  ghost predicate FiledUnder<T(!new)>(file: Entry -> seq<Item<T>>, entries: seq<Entry>, tag: string, x: T, y: T, p: int, q: int)
  {
    0 <= p < q < |entries| && Item(tag, x) in file(entries[p]) && Item(tag, y) in file(entries[q])
  }

  lemma {:induction false} FiledComesFrom<T>(file: Entry -> seq<Item<T>>, entries: seq<Entry>, i: nat) returns (p: nat)
    requires i < |Filed(file, entries)|
    ensures p < |entries| && Filed(file, entries)[i] in file(entries[p])
  {
    var n := |entries| - 1;
    if i < |Filed(file, entries[..n])| {
      p := FiledComesFrom(file, entries[..n], i);
    } else {
      p := n;
    }
  }

  lemma {:induction false} FiledGoesTo<T>(file: Entry -> seq<Item<T>>, entries: seq<Entry>, p: nat, item: Item<T>) returns (i: nat)
    requires p < |entries| && item in file(entries[p])
    ensures i < |Filed(file, entries)| && Filed(file, entries)[i] == item
  {
    var n := |entries| - 1;
    if p < n {
      i := FiledGoesTo(file, entries[..n], p, item);
    } else {
      var j :| 0 <= j < |file(entries[n])| && file(entries[n])[j] == item;
      i := |Filed(file, entries[..n])| + j;
    }
  }

  lemma {:induction false} ItemPairIsAnEntryPair<T(!new)>(
    file: Entry -> seq<Item<T>>, entries: seq<Entry>, tag: string, x: T, y: T, i: int, j: int) returns (p: int, q: int)
    requires FilesOnce(file) && FiledAt(Filed(file, entries), tag, x, y, i, j)
    ensures FiledUnder(file, entries, tag, x, y, p, q)
  {
    var n := |entries| - 1;
    var init, last := entries[..n], file(entries[n]);
    var before := Filed(file, init);
    if j < |before| {
      p, q := ItemPairIsAnEntryPair(file, init, tag, x, y, i, j);
    } else {
      assert OncePerTag(last);
      assert last[j - |before|] == Item(tag, y);
      assert i < |before|;
      p := FiledComesFrom(file, init, i);
      q := n;
    }
  }

  lemma {:induction false} EntryPairIsAnItemPair<T(!new)>(
    file: Entry -> seq<Item<T>>, entries: seq<Entry>, tag: string, x: T, y: T, p: int, q: int) returns (i: int, j: int)
    requires FiledUnder(file, entries, tag, x, y, p, q)
    ensures FiledAt(Filed(file, entries), tag, x, y, i, j)
  {
    var n := |entries| - 1;
    var init, last := entries[..n], file(entries[n]);
    var before := Filed(file, init);
    assert init[p] == entries[p];
    if q < n {
      assert init[q] == entries[q];
      i, j := EntryPairIsAnItemPair(file, init, tag, x, y, p, q);
    } else {
      i := FiledGoesTo(file, init, p, Item(tag, x));
      var k :| 0 <= k < |last| && last[k] == Item(tag, y);
      j := |before| + k;
    }
  }

  /** The pairs of items under a tag are the pairs of entries filed under it. */
  lemma ItemPairsAreEntryPairs<T(!new)>(file: Entry -> seq<Item<T>>, entries: seq<Entry>, tag: string, x: T, y: T)
    requires FilesOnce(file)
    ensures (exists i, j :: FiledAt(Filed(file, entries), tag, x, y, i, j))
       <==> (exists p, q :: FiledUnder(file, entries, tag, x, y, p, q))
  {
    if exists i, j :: FiledAt(Filed(file, entries), tag, x, y, i, j) {
      var i, j :| FiledAt(Filed(file, entries), tag, x, y, i, j);
      var p, q := ItemPairIsAnEntryPair(file, entries, tag, x, y, i, j);
    } else {
      forall p, q ensures !FiledUnder(file, entries, tag, x, y, p, q) {
        if FiledUnder(file, entries, tag, x, y, p, q) {
          var i, j := EntryPairIsAnItemPair(file, entries, tag, x, y, p, q);
        }
      }
    }
  }

  // ── Rules that group by a shared value ─────────────────────────────────

  function FileIdentity(spines: map<string, set<string>>): Entry -> seq<Item<string>>
  {
    (e: Entry) => if e.key in spines && |spines[e.key]| == 1 then [Item(Only(spines[e.key]), e.key)] else []
  }

  /** The one element of a set of one. */
  function Only(values: set<string>): string
    requires |values| == 1
  {
    assert exists v :: v in values && forall w :: w in values ==> w == v by {
      var v :| v in values;
      forall w | w in values ensures w == v { OnlyOne(values, v, w); }
    }
    var v :| v in values && forall w :: w in values ==> w == v; v
  }

  lemma OnlyOne(values: set<string>, v: string, w: string)
    requires |values| == 1 && v in values && w in values
    ensures v == w
  {
    assert |values - {v}| == 0;
    assert w !in values - {v};
  }

  function FileSquashed(ak: string -> string): Entry -> seq<Item<string>>
  {
    (e: Entry) => [Item(Unspaced(ak(e.name)), e.key)]
  }

  /** The first key of a bucket against each of the rest. */
  function Star(bucket: seq<string>, reason: Reason): seq<Edge>
  {
    if bucket == [] then [] else seq(|bucket| - 1, i requires 0 <= i < |bucket| - 1 => Edge(bucket[0], bucket[i + 1], reason))
  }

  function Stars(buckets: seq<seq<string>>, reason: Reason): seq<Edge>
  {
    if buckets == [] then [] else Star(buckets[0], reason) + Stars(buckets[1..], reason)
  }

  method DrawStars(buckets: seq<seq<string>>, reason: Reason) returns (edges: seq<Edge>)
    ensures edges == Stars(buckets, reason)
  {
    edges := [];
    assert buckets[0..] == buckets;
    for b := 0 to |buckets|
      invariant edges + Stars(buckets[b..], reason) == Stars(buckets, reason)
    {
      var star := Star(buckets[b], reason);
      ghost var rest := Stars(buckets[b + 1..], reason);
      TailOf(buckets, b);
      Assoc(edges, star, rest);
      edges := edges + star;
    }
  }

  /** An edge of a star joins two keys of one bucket, and every key of a bucket is its first or joined to it. */
  lemma {:induction false} StarsJoinBuckets(buckets: seq<seq<string>>, reason: Reason)
    ensures forall e: Edge :: e in Stars(buckets, reason) ==> e.reason == reason && exists b :: 0 <= b < |buckets| && e.left in buckets[b] && e.right in buckets[b]
    ensures forall b, i :: 0 <= b < |buckets| && 0 < i < |buckets[b]| ==> Edge(buckets[b][0], buckets[b][i], reason) in Stars(buckets, reason)
  {
    if buckets != [] {
      StarsJoinBuckets(buckets[1..], reason);
      var star, rest := Star(buckets[0], reason), Stars(buckets[1..], reason);
      forall e: Edge | e in star + rest
        ensures e.reason == reason && exists b :: 0 <= b < |buckets| && e.left in buckets[b] && e.right in buckets[b]
      {
        if e in star {
          var i :| 0 <= i < |star| && star[i] == e;
          assert e.left in buckets[0] && e.right in buckets[0];
        } else {
          var b :| 0 <= b < |buckets| - 1 && e.left in buckets[1..][b] && e.right in buckets[1..][b];
          assert e.left in buckets[b + 1];
        }
      }
      forall b, i | 0 <= b < |buckets| && 0 < i < |buckets[b]| ensures Edge(buckets[b][0], buckets[b][i], reason) in star + rest {
        if b == 0 {
          assert star[i - 1] == Edge(buckets[0][0], buckets[0][i], reason);
        } else {
          assert buckets[1..][b - 1] == buckets[b];
        }
      }
    }
  }

  function IdentityEdges(entries: seq<Entry>, spines: map<string, set<string>>): seq<Edge>
  {
    Stars(BucketsOf(Filed(FileIdentity(spines), entries)), Identity)
  }

  function SpellingEdges(ak: string -> string, entries: seq<Entry>): seq<Edge>
  {
    Stars(BucketsOf(Filed(FileSquashed(ak), entries)), Spelling)
  }

  method EdgesOnIdentity(entries: seq<Entry>, spines: map<string, set<string>>) returns (edges: seq<Edge>)
    ensures edges == IdentityEdges(entries, spines)
  {
    var items := FileAll(FileIdentity(spines), entries);
    var tags, buckets := Fill(items);
    edges := DrawStars(buckets, Identity);
  }

  method EdgesOnSquashedKey(ak: string -> string, entries: seq<Entry>) returns (edges: seq<Edge>)
    ensures edges == SpellingEdges(ak, entries)
  {
    var items := FileAll(FileSquashed(ak), entries);
    var tags, buckets := Fill(items);
    edges := DrawStars(buckets, Spelling);
  }

  // ── The rules that compare pairs ──────────────────────────────────────────

  /** A name as the initials rule compares it. */
  datatype Surnamed = Surnamed(key: string, initial: char, abbreviated: bool)

  function FileSurname(ak: string -> string): Entry -> seq<Item<Surnamed>>
  {
    (e: Entry) =>
      var words := Words(ak(e.name));
      if |words| > 1
      then [Item(words[|words| - 1], Surnamed(e.key, words[0][0], exists i :: 0 <= i < |words| - 1 && |words[i]| == 1))]
      else []
  }

  predicate SameInitial(a: Surnamed, b: Surnamed)
  {
    a.initial == b.initial && (a.abbreviated || b.abbreviated)
  }

  /** A name as the fragment rule compares it. */
  datatype Worded = Worded(key: string, words: set<string>)

  function WordSet(naming: Naming, e: Entry): set<string>
  {
    set w | w in Words(naming.key(e.name))
  }

  function FileWords(naming: Naming): Entry -> seq<Item<Worded>>
  {
    (e: Entry) =>
      var tokens := naming.tokens(e.name);
      seq(|tokens|, i requires 0 <= i < |tokens| => Item(tokens[i], Worded(e.key, WordSet(naming, e))))
  }

  predicate OneInsideOther(a: Worded, b: Worded)
  {
    var shorter, longer := if |a.words| < |b.words| then a.words else b.words, if |a.words| < |b.words| then b.words else a.words;
    |shorter| >= 2 && shorter < longer
  }

  function SurnamePairs(ak: string -> string, entries: seq<Entry>): seq<(Surnamed, Surnamed)>
  {
    Compared(BucketsOf(Filed(FileSurname(ak), entries)))
  }

  function WordPairs(naming: Naming, entries: seq<Entry>): seq<(Worded, Worded)>
  {
    Compared(BucketsOf(Filed(FileWords(naming), entries)))
  }

  function InitialsFound(pairs: seq<(Surnamed, Surnamed)>): (edges: seq<Edge>)
    ensures |edges| == |pairs|
  {
    seq(|pairs|, i requires 0 <= i < |pairs| => Edge(pairs[i].0.key, pairs[i].1.key, Initials))
  }

  function FragmentsFound(pairs: seq<(Worded, Worded)>): (edges: seq<Edge>)
    ensures |edges| == |pairs|
  {
    seq(|pairs|, i requires 0 <= i < |pairs| => Edge(pairs[i].0.key, pairs[i].1.key, Fragment))
  }

  function InitialsEdges(ak: string -> string, entries: seq<Entry>, left: int): seq<Edge>
  {
    var pairs := SurnamePairs(ak, entries);
    InitialsFound(Accepted(SameInitial, pairs[..Allowed(left, |pairs|)]))
  }

  function FragmentEdges(naming: Naming, entries: seq<Entry>, left: int): seq<Edge>
  {
    var pairs := WordPairs(naming, entries);
    FragmentsFound(Accepted(OneInsideOther, pairs[..Allowed(left, |pairs|)]))
  }

  method EdgesOnInitials(ak: string -> string, entries: seq<Entry>, budget: Budget) returns (edges: seq<Edge>)
    modifies budget
    ensures edges == InitialsEdges(ak, entries, old(budget.left))
    ensures budget.left == old(budget.left) - Allowed(old(budget.left), |SurnamePairs(ak, entries)|)
  {
    var items := FileAll(FileSurname(ak), entries);
    var tags, buckets := Fill(items);
    var found := ComparePairs(buckets, SameInitial, budget);
    edges := InitialsFound(found);
  }

  method EdgesOnFragments(naming: Naming, entries: seq<Entry>, budget: Budget) returns (edges: seq<Edge>)
    modifies budget
    ensures edges == FragmentEdges(naming, entries, old(budget.left))
    ensures budget.left == old(budget.left) - Allowed(old(budget.left), |WordPairs(naming, entries)|)
  {
    var items := FileAll(FileWords(naming), entries);
    var tags, buckets := Fill(items);
    var found := ComparePairs(buckets, OneInsideOther, budget);
    edges := FragmentsFound(found);
  }
}
