/** A shelf on which the fragment rule alone finds what the default does not, at the budget the
    pass has.

    Eleven surnames of two hundred people each are compared first by the default, and spend it;
    the first two names of the shelf are a name and the same name with a word more. */
module Starved {
  import opened Wrappers
  import opened Strings
  import opened Spelling
  import opened Aliases
  import opened Index
  import opened Listings
  import opened Repoint
  import opened Buckets
  import opened Rules
  import opened AllPairs
  import opened Suggest
  import opened Preview
  import opened Review
  import opened Unmerged

  // ── Counting what is compared ─────────────────────────────────────────────

  lemma {:induction false} PairsInCount<T>(xs: seq<T>)
    ensures 2 * |PairsIn(xs)| == |xs| * (|xs| - 1)
  {
    if xs != [] {
      var n := |xs| - 1;
      PairsInCount(xs[1..]);
      assert (n + 1) * n == n * (n - 1) + 2 * n;
    }
  }

  lemma {:induction false} ComparedOfMore<T>(buckets: seq<seq<T>>, bucket: seq<T>)
    requires |bucket| <= MAX_BUCKET
    ensures |Compared(buckets + [bucket])| == |Compared(buckets)| + |PairsIn(bucket)|
  {
    if buckets == [] {
      assert buckets + [bucket] == [bucket] && [bucket][1..] == [];
    } else {
      assert (buckets + [bucket])[1..] == buckets[1..] + [bucket];
      ComparedOfMore(buckets[1..], bucket);
    }
  }

  ghost predicate AllTagged<T>(items: seq<Item<T>>, tag: string)
  {
    forall i :: 0 <= i < |items| ==> items[i].tag == tag
  }

  lemma {:induction false} BucketOfConcat<T>(a: seq<Item<T>>, b: seq<Item<T>>, tag: string)
    ensures Bucket(a + b, tag) == Bucket(a, tag) + Bucket(b, tag)
  {
    if b == [] {
      assert a + b == a;
    } else {
      assert (a + b)[..|a + b| - 1] == a + b[..|b| - 1];
      BucketOfConcat(a, b[..|b| - 1], tag);
    }
  }

  lemma {:induction false} BucketOfTagged<T>(items: seq<Item<T>>, tag: string)
    requires AllTagged(items, tag)
    ensures |Bucket(items, tag)| == |items|
  {
    if items != [] {
      BucketOfTagged(items[..|items| - 1], tag);
    }
  }

  lemma {:induction false} TagsOfBlock<T>(a: seq<Item<T>>, b: seq<Item<T>>, tag: string)
    requires b != [] && AllTagged(b, tag) && tag !in Tags(a)
    ensures Tags(a + b) == Tags(a) + [tag]
  {
    var init := b[..|b| - 1];
    assert (a + b)[..|a + b| - 1] == a + init;
    if init == [] {
      assert a + init == a;
    } else {
      TagsOfBlock(a, init, tag);
    }
  }

  lemma UntouchedBucket<T>(a: seq<Item<T>>, b: seq<Item<T>>, tag: string, t: string)
    requires AllTagged(b, tag) && t != tag
    ensures Bucket(a + b, t) == Bucket(a, t)
  {
    BucketOfConcat(a, b, t);
    UntaggedIsEmpty(b, t);
  }

  lemma NewBucket<T>(a: seq<Item<T>>, b: seq<Item<T>>, tag: string)
    requires tag !in Tags(a)
    ensures Bucket(a + b, tag) == Bucket(b, tag)
  {
    BucketOfConcat(a, b, tag);
    UntaggedIsEmpty(a, tag);
  }

  lemma BucketsAre<T>(items: seq<Item<T>>, tags: seq<string>, tag: string, buckets: seq<seq<T>>, bucket: seq<T>)
    requires Tags(items) == tags + [tag] && |buckets| == |tags| && bucket == Bucket(items, tag)
    requires forall i :: 0 <= i < |buckets| ==> buckets[i] == Bucket(items, tags[i])
    ensures BucketsOf(items) == buckets + [bucket]
  {
  }

  lemma BucketsOfBlock<T>(a: seq<Item<T>>, b: seq<Item<T>>, tag: string)
    requires b != [] && AllTagged(b, tag) && tag !in Tags(a)
    ensures BucketsOf(a + b) == BucketsOf(a) + [Bucket(b, tag)]
  {
    var tags := Tags(a);
    TagsOfBlock(a, b, tag);
    forall i | 0 <= i < |tags| ensures BucketsOf(a)[i] == Bucket(a + b, tags[i]) {
      UntouchedBucket(a, b, tag, tags[i]);
    }
    NewBucket(a, b, tag);
    BucketsAre(a + b, tags, tag, BucketsOf(a), Bucket(b, tag));
  }

  /** Names filed under a tag of their own are compared with each other, besides what was. */
  lemma BlockAddsItsPairs<T>(a: seq<Item<T>>, b: seq<Item<T>>, tag: string)
    requires b != [] && AllTagged(b, tag) && tag !in Tags(a) && |b| <= MAX_BUCKET
    ensures 2 * |Compared(BucketsOf(a + b))| == 2 * |Compared(BucketsOf(a))| + |b| * (|b| - 1)
  {
    BucketsOfBlock(a, b, tag);
    BucketOfTagged(b, tag);
    ComparedOfMore(BucketsOf(a), Bucket(b, tag));
    PairsInCount(Bucket(b, tag));
  }

  lemma {:induction false} FiledOfConcat<T>(file: Entry -> seq<Item<T>>, a: seq<Entry>, b: seq<Entry>)
    ensures Filed(file, a + b) == Filed(file, a) + Filed(file, b)
  {
    if b == [] {
      assert a + b == a;
    } else {
      assert (a + b)[..|a + b| - 1] == a + b[..|b| - 1];
      FiledOfConcat(file, a, b[..|b| - 1]);
    }
  }

  lemma {:induction false} FiledUnderOne<T>(file: Entry -> seq<Item<T>>, entries: seq<Entry>, tag: string)
    requires forall i :: 0 <= i < |entries| ==> |file(entries[i])| == 1 && file(entries[i])[0].tag == tag
    ensures |Filed(file, entries)| == |entries| && AllTagged(Filed(file, entries), tag)
  {
    if entries != [] {
      FiledUnderOne(file, entries[..|entries| - 1], tag);
    }
  }

  // ── What is compared first ────────────────────────────────────────────────

  lemma {:induction false} FirstTag<T>(items: seq<Item<T>>)
    requires items != []
    ensures Tags(items) != [] && Tags(items)[0] == items[0].tag
  {
    if |items| > 1 {
      FirstTag(items[..|items| - 1]);
    }
  }

  lemma {:induction false} BucketOfOne<T>(items: seq<Item<T>>, i: nat)
    requires OncePerTag(items) && i < |items|
    ensures Bucket(items, items[i].tag) == [items[i].value]
  {
    var init := items[..|items| - 1];
    if i == |items| - 1 {
      UntaggedIsEmpty(init, items[i].tag);
    } else {
      BucketOfOne(init, i);
    }
  }

  /** Where only the first two file anything under the first tag, they are the first pair compared. */
  lemma FirstPair<T>(x: seq<Item<T>>, y: seq<Item<T>>, rest: seq<Item<T>>, j: nat)
    requires x != [] && OncePerTag(x) && OncePerTag(y) && j < |y| && y[j].tag == x[0].tag
    requires forall i :: 0 <= i < |rest| ==> rest[i].tag != x[0].tag
    ensures var pairs := Compared(BucketsOf(x + y + rest)); pairs != [] && pairs[0] == (x[0].value, y[j].value)
  {
    var items, tag, v, w := x + y + rest, x[0].tag, x[0].value, y[j].value;
    FirstTag(items);
    BucketOfConcat(x + y, rest, tag);
    BucketOfConcat(x, y, tag);
    BucketOfOne(x, 0);
    BucketOfOne(y, j);
    UntaggedIsEmpty(rest, tag);
    assert BucketsOf(items)[0] == [v, w];
    assert [v, w][1..] == [w] && [w][1..] == [];
    assert RowOf(v, [w])[0] == (v, w);
    assert PairsIn([v, w])[0] == (v, w);
  }

  // ── The names ─────────────────────────────────────────────────────────────

  const SHORTER := "aa ab"
  const LONGER := "aa ab ac"
  const SURNAMES := 11

  function Letter(s: nat): char
    requires s < SURNAMES
  {
    ('b' as int + s) as char
  }

  function FirstName(s: nat, i: nat): string
    requires s < SURNAMES
  {
    [Letter(s)] + seq(i, _ => 'a')
  }

  function Surname(s: nat): string
    requires s < SURNAMES
  {
    ['z', Letter(s)]
  }

  function Name(s: nat, i: nat): string
    requires s < SURNAMES
  {
    FirstName(s, i) + " " + Surname(s)
  }

  /** Two hundred people of one surname, which is as many as a bucket may hold. */
  function Block(s: nat): (names: seq<string>)
    requires s < SURNAMES
    ensures |names| == MAX_BUCKET
  {
    seq(MAX_BUCKET, i requires 0 <= i => Name(s, i))
  }

  /** A name, the same name with a word more, and so many surnames. */
  function Names(n: nat): (names: seq<string>)
    requires n <= SURNAMES
    ensures |names| == 2 + MAX_BUCKET * n && names[0] == SHORTER && names[1] == LONGER
  {
    if n == 0 then [SHORTER, LONGER] else Names(n - 1) + Block(n - 1)
  }

  lemma ShorterWords()
    ensures Words(SHORTER) == ["aa", "ab"]
  {
    TwoWords("aa", "ab");
    assert "aa" + " " + "ab" == SHORTER;
  }

  lemma LongerWords()
    ensures Words(LONGER) == ["aa", "ab", "ac"]
  {
    assert "aa" + [' '] + ("ab" + " " + "ac") == LONGER;
    SplitAtSeparator(' ', "aa", "ab" + " " + "ac");
    assert " " == [' '];
    SplitAtSeparator(' ', "ab", "ac");
    OneWord("ac");
    assert ["ab"] + ["ac"] == ["ab", "ac"];
    assert ["aa"] + ["ab", "ac"] == ["aa", "ab", "ac"];
    assert ["aa", "ab", "ac"][1..] == ["ab", "ac"] && ["ab", "ac"][1..] == ["ac"] && ["ac"][1..] == [];
  }

  lemma NameWords(s: nat, i: nat)
    requires s < SURNAMES
    ensures Words(Name(s, i)) == [FirstName(s, i), Surname(s)]
  {
    TwoWords(FirstName(s, i), Surname(s));
  }

  // ── The surnames spend the budget ─────────────────────────────────────────

  /** Entries by these names, in this order. */
  ghost predicate KeyedAs(ak: string -> string, entries: seq<Entry>, names: seq<string>)
  {
    |entries| == |names| && forall i :: 0 <= i < |names| ==> ak(entries[i].name) == names[i]
  }

  /** One of the first two names' last words, or one of the first `n` surnames. */
  ghost predicate IsAmong(tag: string, n: nat)
  {
    |tag| == 2 && (tag[0] == 'z' ==> (tag[1] as int) < 'b' as int + n)
  }

  ghost predicate TagsAmong<T>(items: seq<Item<T>>, n: nat)
  {
    forall i :: 0 <= i < |items| ==> IsAmong(items[i].tag, n)
  }

  lemma BlockIsFiled(ak: string -> string, entries: seq<Entry>, s: nat)
    requires s < SURNAMES && KeyedAs(ak, entries, Block(s))
    ensures var items := Filed(FileSurname(ak), entries); |items| == MAX_BUCKET && AllTagged(items, Surname(s))
  {
    forall i | 0 <= i < |entries| ensures |FileSurname(ak)(entries[i])| == 1 && FileSurname(ak)(entries[i])[0].tag == Surname(s) {
      NameWords(s, i);
    }
    FiledUnderOne(FileSurname(ak), entries, Surname(s));
  }

  lemma FiledOfTwo<T>(file: Entry -> seq<Item<T>>, entries: seq<Entry>)
    requires |entries| == 2
    ensures Filed(file, entries) == file(entries[0]) + file(entries[1])
  {
    assert entries[..1][..0] == [] && entries[..2][..1] == entries[..1] && entries[..2] == entries;
    assert Filed(file, entries[..1]) == file(entries[0]);
  }

  lemma FiledLastWord(ak: string -> string, e: Entry)
    requires |Words(ak(e.name))| > 1
    ensures |FileSurname(ak)(e)| == 1 && FileSurname(ak)(e)[0].tag == Words(ak(e.name))[|Words(ak(e.name))| - 1]
  {
  }

  lemma FirstTwoAreFiled(ak: string -> string, entries: seq<Entry>)
    requires KeyedAs(ak, entries, [SHORTER, LONGER])
    ensures TagsAmong(Filed(FileSurname(ak), entries), 0)
  {
    ShorterWords();
    LongerWords();
    var x, y := FileSurname(ak)(entries[0]), FileSurname(ak)(entries[1]);
    FiledLastWord(ak, entries[0]);
    FiledLastWord(ak, entries[1]);
    FiledOfTwo(FileSurname(ak), entries);
    TagsOfTwo(x, y, "ab", "ac");
  }

  lemma TagsOfTwo<T>(x: seq<Item<T>>, y: seq<Item<T>>, v: string, w: string)
    requires |x| == 1 && x[0].tag == v && |y| == 1 && y[0].tag == w && IsAmong(v, 0) && IsAmong(w, 0)
    ensures TagsAmong(x + y, 0)
  {
  }

  lemma FreshTag<T>(items: seq<Item<T>>, n: nat)
    requires n < SURNAMES && TagsAmong(items, n)
    ensures Surname(n) !in Tags(items)
  {
  }

  lemma SplitAtBlock(ak: string -> string, entries: seq<Entry>, n: nat) returns (before: seq<Entry>, block: seq<Entry>)
    requires 0 < n <= SURNAMES && KeyedAs(ak, entries, Names(n))
    ensures entries == before + block && KeyedAs(ak, before, Names(n - 1)) && KeyedAs(ak, block, Block(n - 1))
  {
    var names, earlier, last := Names(n), Names(n - 1), Block(n - 1);
    var m := |earlier|;
    before, block := entries[..m], entries[m..];
    assert names == earlier + last;
    assert forall i :: 0 <= i < |last| ==> last[i] == names[m + i];
  }

  /** Every surname adds 19,900 pairs. */
  lemma {:induction false} SurnamesAddUp(ak: string -> string, entries: seq<Entry>, n: nat)
    requires n <= SURNAMES && KeyedAs(ak, entries, Names(n))
    ensures TagsAmong(Filed(FileSurname(ak), entries), n)
    ensures |SurnamePairs(ak, entries)| >= 19_900 * n
    decreases n
  {
    if n == 0 {
      FirstTwoAreFiled(ak, entries);
    } else {
      var before, block := SplitAtBlock(ak, entries, n);
      SurnamesAddUp(ak, before, n - 1);
      BlockIsFiled(ak, block, n - 1);
      FiledOfConcat(FileSurname(ak), before, block);
      SurnameAdds(Filed(FileSurname(ak), before), Filed(FileSurname(ak), block), n - 1);
    }
  }

  lemma SurnameAdds<T>(a: seq<Item<T>>, b: seq<Item<T>>, n: nat)
    requires n < SURNAMES && TagsAmong(a, n) && |b| == MAX_BUCKET && AllTagged(b, Surname(n))
    ensures TagsAmong(a + b, n + 1)
    ensures |Compared(BucketsOf(a + b))| == |Compared(BucketsOf(a))| + 19_900
  {
    FreshTag(a, n);
    BlockAddsItsPairs(a, b, Surname(n));
    forall i | 0 <= i < |a + b| ensures IsAmong((a + b)[i].tag, n + 1) {
      if i < |a| { assert IsAmong(a[i].tag, n); }
    }
  }

  // ── And the first pair of words is a fragment ─────────────────────────────

  lemma BlockStandsApart(s: nat, i: nat)
    requires s < SURNAMES
    ensures forall w :: w in Words(Name(s, i)) ==> w !in ["aa", "ab"]
  {
    NameWords(s, i);
    assert FirstName(s, i)[0] == Letter(s) && Surname(s)[0] == 'z';
  }

  lemma NamesOneMore(n: nat, i: nat)
    requires 0 < n <= SURNAMES && i < |Names(n)|
    ensures Names(n)[i] == if i < |Names(n - 1)| then Names(n - 1)[i] else Name(n - 1, i - |Names(n - 1)|)
  {
  }

  /** Which block a later name is of, and where in it. */
  lemma {:induction false} BlockOf(n: nat, i: nat) returns (s: nat, j: nat)
    requires n <= SURNAMES && 2 <= i < |Names(n)|
    ensures s < n && Names(n)[i] == Name(s, j)
  {
    NamesOneMore(n, i);
    if i < |Names(n - 1)| {
      s, j := BlockOf(n - 1, i);
    } else {
      s, j := n - 1, i - |Names(n - 1)|;
    }
  }

  lemma FilesOf(file: Entry -> seq<Item<Worded>>, entries: seq<Entry>)
    requires |entries| >= 2
    ensures Filed(file, entries) == file(entries[0]) + file(entries[1]) + Filed(file, entries[2..])
  {
    FiledOfTwo(file, entries[..2]);
    assert entries == entries[..2] + entries[2..];
    FiledOfConcat(file, entries[..2], entries[2..]);
  }

  lemma OthersFileElsewhere(naming: Naming, entries: seq<Entry>, n: nat, i: nat)
    requires WalksWords(naming) && n <= SURNAMES && KeyedAs(naming.key, entries, Names(n))
    requires i < |Filed(FileWords(naming), entries[2..])|
    ensures Filed(FileWords(naming), entries[2..])[i].tag !in ["aa", "ab"]
  {
    var p := FiledComesFrom(FileWords(naming), entries[2..], i);
    var e := entries[p + 2];
    FiledWordIsTheirs(naming, e, Filed(FileWords(naming), entries[2..])[i].tag, Filed(FileWords(naming), entries[2..])[i].value);
    assert WalksOnce(naming.tokens(e.name), Words(naming.key(e.name)));
    var s, j := BlockOf(n, p + 2);
    BlockStandsApart(s, j);
  }

  lemma TokenPlace(naming: Naming, e: Entry, tag: string) returns (j: nat)
    requires WalksWords(naming) && tag in Words(naming.key(e.name))
    ensures j < |FileWords(naming)(e)| && FileWords(naming)(e)[j] == Item(tag, Worded(e.key, WordSet(naming, e)))
  {
    assert WalksOnce(naming.tokens(e.name), Words(naming.key(e.name)));
    j :| 0 <= j < |naming.tokens(e.name)| && naming.tokens(e.name)[j] == tag;
  }

  lemma OneIsInside(naming: Naming, a: Entry, b: Entry)
    requires naming.key(a.name) == SHORTER && naming.key(b.name) == LONGER
    ensures OneInsideOther(Worded(a.key, WordSet(naming, a)), Worded(b.key, WordSet(naming, b)))
  {
    ShorterWords();
    LongerWords();
    WordsOfTwo(Words(SHORTER), Words(LONGER), "aa", "ab", "ac");
  }

  lemma WordsOfTwo(few: seq<string>, more: seq<string>, v: string, w: string, x: string)
    requires few == [v, w] && more == [v, w, x] && v != w && x != v && x != w
    ensures var a, b := set t | t in few, set t | t in more; |a| >= 2 && a < b && |a| < |b|
  {
    var a, b := set t | t in few, set t | t in more;
    assert few[0] in few && few[1] in few && more[0] in more && more[1] in more && more[2] in more;
    assert a == {v, w} && b == {v, w, x};
    ProperSubsetIsSmaller(a, b);
  }

  lemma FirstWordPair(naming: Naming, entries: seq<Entry>, n: nat)
    requires WalksWords(naming) && n <= SURNAMES && KeyedAs(naming.key, entries, Names(n))
    ensures DrawsAt(WordPairs(naming, entries), 0, Edge(entries[0].key, entries[1].key, Fragment))
  {
    var file, a, b := FileWords(naming), entries[0], entries[1];
    var x, y, rest := file(a), file(b), Filed(file, entries[2..]);
    ShorterWords();
    LongerWords();
    WordsFileOnce(naming);
    var j := TokenPlace(naming, a, "aa");
    FiledWordIsTheirs(naming, a, x[0].tag, x[0].value);
    assert WalksOnce(naming.tokens(a.name), Words(naming.key(a.name)));
    j := TokenPlace(naming, b, x[0].tag);
    forall i | 0 <= i < |rest| ensures rest[i].tag != x[0].tag {
      OthersFileElsewhere(naming, entries, n, i);
    }
    FilesOf(file, entries);
    FirstPair(x, y, rest, j);
    OneIsInside(naming, a, b);
  }

  /** So many surnames have as many pairs as the budget. */
  predicate IsEnough(n: nat)
  {
    n <= SURNAMES && 19_900 * n >= MAX_COMPARISONS
  }

  /** Between the first two of these the fragment rule alone draws an edge, and the default none. */
  ghost predicate AreStarved(naming: Naming, entries: seq<Entry>, spines: map<string, set<string>>, x: string, y: string)
  {
    && Edge(x, y, Fragment) in EdgesFor(naming, entries, spines, {Fragment}, MAX_COMPARISONS)
    && Edge(x, y, Fragment) !in EdgesFor(naming, entries, spines, DEFAULT_MATCHER, MAX_COMPARISONS)
  }

  /** Read in this order, these names give the default no fragment edge, and the fragment rule alone one. */
  lemma NamesStarve(naming: Naming, entries: seq<Entry>, spines: map<string, set<string>>, n: nat)
    requires WalksWords(naming) && IsEnough(n) && KeyedAs(naming.key, entries, Names(n))
    ensures AreStarved(naming, entries, spines, entries[0].key, entries[1].key)
  {
    SurnamesAddUp(naming.key, entries, n);
    FirstWordPair(naming, entries, n);
    SurnamesCanStarveFragments(naming, entries, spines, MAX_COMPARISONS, 0, Edge(entries[0].key, entries[1].key, Fragment));
  }

  // ── The shelf ─────────────────────────────────────────────────────────────

  /** Lower-case words with one space between. */
  ghost predicate IsLowerCase(text: string)
  {
    && text != "" && (forall i :: 0 <= i < |text| ==> 'a' <= text[i] <= 'z' || text[i] == ' ')
    && (forall i :: 0 <= i < |text| && text[i] == ' ' ==> IsInside(text, i))
  }

  predicate IsInside(text: string, i: nat)
  {
    0 < i < |text| - 1 && text[i + 1] != ' '
  }

  lemma LowerCaseIsClean(u: Unicode, text: string)
    requires KeepsLowerCase(u) && IsLowerCase(text)
    ensures Clean(u, text) && NAME_SEPARATOR !in text
    ensures forall i :: 0 <= i < |text| ==> KeyOf(u, text[i]) == [text[i]]
  {
    forall i | 0 <= i < |text|
      ensures KeyOf(u, text[i]) == [text[i]] && text[i] != NAME_SEPARATOR
      ensures u.isSpace(text[i]) ==> text[i] == ' ' && 0 < i < |text| - 1 && !u.isSpace(text[i + 1])
    {
      if text[i] == ' ' {
        assert 'a' <= text[i + 1] <= 'z';
      }
    }
  }

  lemma LowerCaseIsItsKey(u: Unicode, text: string)
    requires KeepsLowerCase(u) && IsLowerCase(text)
    ensures AuthorKey(u, text) == text && SplitCredit(u, Some(text)) == [text]
  {
    LowerCaseIsClean(u, text);
    FoldAllFixes(u, text);
    CleanIsTidy(u, text);
    LineOfOneName(u, text);
  }

  lemma NameIsLowerCase(s: nat, i: nat)
    requires s < SURNAMES
    ensures IsLowerCase(Name(s, i))
  {
    var name, first := Name(s, i), FirstName(s, i);
    assert |name| == |first| + 3 && name[|first|] == ' ' && name[|first| + 1] == 'z' && name[|first| + 2] == Letter(s);
    assert forall j :: 0 <= j < |first| ==> name[j] == first[j];
  }

  lemma NamesAreLowerCase(n: nat, i: nat)
    requires n <= SURNAMES && i < |Names(n)|
    ensures IsLowerCase(Names(n)[i])
    ensures (Names(n)[i][0] as int) < 'b' as int + n
  {
    if i >= 2 {
      var s, j := BlockOf(n, i);
      NameIsLowerCase(s, j);
    }
  }

  lemma {:induction false} ShorterRunIsBefore(i: nat, j: nat, rest: string)
    requires i < j
    ensures Before(seq(i, _ => 'a') + " " + rest, seq(j, _ => 'a') + " " + rest)
  {
    var a, b := seq(i, _ => 'a') + " " + rest, seq(j, _ => 'a') + " " + rest;
    if i > 0 {
      assert a[1..] == seq(i - 1, _ => 'a') + " " + rest && b[1..] == seq(j - 1, _ => 'a') + " " + rest;
      ShorterRunIsBefore(i - 1, j - 1, rest);
    }
  }

  lemma BlockIsInOrder(s: nat, i: nat, j: nat)
    requires s < SURNAMES && i < j
    ensures Before(Name(s, i), Name(s, j))
  {
    ShorterRunIsBefore(i, j, Surname(s));
    assert Name(s, i)[1..] == seq(i, _ => 'a') + " " + Surname(s);
    assert Name(s, j)[1..] == seq(j, _ => 'a') + " " + Surname(s);
  }

  lemma EarlierLetterIsBefore(a: string, b: string)
    requires a != "" && b != "" && a[0] < b[0]
    ensures Before(a, b)
  {
  }

  lemma InOrderWithBlock(names: seq<string>, s: nat)
    requires s < SURNAMES && Ascending(names)
    requires forall i :: 0 <= i < |names| ==> names[i] != "" && names[i][0] < Letter(s)
    ensures Ascending(names + Block(s))
  {
    var all, m := names + Block(s), |names|;
    forall i, j | 0 <= i < j < |all| ensures Before(all[i], all[j]) {
      if i >= m {
        BlockIsInOrder(s, i - m, j - m);
      } else if j >= m {
        EarlierLetterIsBefore(names[i], Name(s, j - m));
      }
    }
  }

  lemma FirstTwoAreInOrder()
    ensures Ascending([SHORTER, LONGER])
  {
    assert LONGER == SHORTER + " ac";
    PrefixIsBefore(SHORTER, " ac");
  }

  /** They are in alphabetical order, the one an index is shown in. */
  lemma {:induction false} NamesAreInOrder(n: nat)
    requires n <= SURNAMES
    ensures Ascending(Names(n))
  {
    if n > 0 {
      NamesAreInOrder(n - 1);
      var names := Names(n - 1);
      forall i | 0 <= i < |names| ensures names[i] != "" && names[i][0] < Letter(n - 1) {
        NamesAreLowerCase(n - 1, i);
      }
      InOrderWithBlock(names, n - 1);
    } else {
      FirstTwoAreInOrder();
    }
  }

  lemma {:induction false} PrefixIsBefore(a: string, more: string)
    requires more != ""
    ensures Before(a, a + more)
  {
    if a != "" {
      assert (a + more)[1..] == a[1..] + more;
      PrefixIsBefore(a[1..], more);
    }
  }

  function EntriesBy(index: map<string, Entry>, names: seq<string>): (entries: seq<Entry>)
    requires forall i :: 0 <= i < |names| ==> names[i] in index
    ensures |entries| == |names|
  {
    seq(|names|, i requires 0 <= i < |names| => index[names[i]])
  }

  lemma ListedByName(index: map<string, Entry>, names: seq<string>)
    requires Ascending(names) && index.Keys == (set n | n in names)
    requires forall k :: k in index ==> index[k].key == k
    ensures Lists(EntriesBy(index, names), index)
  {
    var entries := EntriesBy(index, names);
    forall i, j | 0 <= i < j < |entries| ensures entries[i].key != entries[j].key {
      BeforeIsStrict(names[i], names[j]);
    }
    forall e ensures e in entries <==> e.key in index && index[e.key] == e {
      if e.key in index && index[e.key] == e {
        var i :| 0 <= i < |names| && names[i] == e.key;
        assert entries[i] == e;
      }
    }
  }

  lemma ByNameIsKeyed(ak: string -> string, index: map<string, Entry>, names: seq<string>)
    requires Headed(ak, index) && forall i :: 0 <= i < |names| ==> names[i] in index
    ensures KeyedAs(ak, EntriesBy(index, names), names)
    ensures forall i :: 0 <= i < |names| ==> EntriesBy(index, names)[i].key == names[i]
  {
  }

  lemma TheirOwnKeys(ak: string -> string, names: seq<string>)
    requires forall i :: 0 <= i < |names| ==> ak(names[i]) == names[i]
    ensures Requested(ak, names) == set n | n in names
  {
    forall n | n in names ensures ak(n) == n {
      var i :| 0 <= i < |names| && names[i] == n;
    }
  }

  /** These names are their own keys and split into themselves. */
  ghost predicate ReadAsWritten(r: Reading, names: seq<string>)
  {
    forall i :: 0 <= i < |names| ==> r.key(names[i]) == names[i] && r.split(Some(names[i])) == [names[i]]
  }

  lemma NamesAreReadAsWritten(u: Unicode, n: nat)
    requires KeepsLowerCase(u) && n <= SURNAMES
    ensures ReadAsWritten(ReadingOf(u), Names(n))
  {
    var names := Names(n);
    forall i | 0 <= i < |names| ensures AuthorKey(u, names[i]) == names[i] && SplitCredit(u, Some(names[i])) == [names[i]] {
      NamesAreLowerCase(n, i);
      LowerCaseIsItsKey(u, names[i]);
    }
  }

  lemma OwnNamesAreIndexed(r: Reading, names: seq<string>)
    requires ReadAsWritten(r, names)
    ensures Headed(r.key, IndexOf(r, OneEach(names), [])) && IndexOf(r, OneEach(names), []).Keys == set n | n in names
  {
    forall n | n in names ensures r.split(Some(n)) == [n] {
      var i :| 0 <= i < |names| && names[i] == n;
    }
    OneEachIsIndexed(r, names);
    TheirOwnKeys(r.key, names);
    IndexIsHeaded(r, OneEach(names), []);
  }

  /** Headed by themselves, too, since each is the only name with its key. */
  lemma OwnNamesAreHeadings(r: Reading, names: seq<string>, i: nat)
    requires ReadAsWritten(r, names) && i < |names|
    ensures names[i] in IndexOf(r, OneEach(names), []) && IndexOf(r, OneEach(names), [])[names[i]].name == names[i]
  {
    OwnNamesAreIndexed(r, names);
    forall n | n in names ensures r.split(Some(n)) == [n] && r.key(n) == n {
      var j :| 0 <= j < |names| && names[j] == n;
    }
    OneEachBooks(r, names, names[i]);
  }

  /** The index as its one sorted list, which is these names. */
  ghost predicate IsTheirList(casefold: string -> string, entries: seq<Entry>, index: map<string, Entry>, names: seq<string>)
  {
    && Lists(entries, index) && IsSorted(casefold, entries)
    && |entries| == |names| && forall i :: 0 <= i < |names| ==> entries[i].key == names[i]
  }

  /** Whose case folding is what they are. */
  ghost predicate FoldsToThemselves(casefold: string -> string, names: seq<string>)
  {
    forall i :: 0 <= i < |names| ==> casefold(names[i]) == names[i]
  }

  lemma SortedByName(casefold: string -> string, entries: seq<Entry>, names: seq<string>)
    requires Ascending(names) && FoldsToThemselves(casefold, names)
    requires |entries| == |names| && forall i :: 0 <= i < |names| ==> entries[i].name == names[i]
    ensures IsSorted(casefold, entries)
  {
    forall i, j | 0 <= i < j < |entries| ensures ShownBefore(casefold, entries[i], entries[j]) {
      assert Before(names[i], names[j]);
    }
  }

  ghost predicate IsByName(entries: seq<Entry>, index: map<string, Entry>, names: seq<string>)
  {
    (forall i :: 0 <= i < |names| ==> names[i] in index) && entries == EntriesBy(index, names)
  }

  /** Headed by these names, each under its own. */
  ghost predicate HeadedBy(index: map<string, Entry>, names: seq<string>)
  {
    forall i :: 0 <= i < |names| ==> names[i] in index && index[names[i]].name == names[i]
  }

  lemma ByNameIsTheirList(casefold: string -> string, ak: string -> string, entries: seq<Entry>, index: map<string, Entry>, names: seq<string>)
    requires Ascending(names) && FoldsToThemselves(casefold, names) && Headed(ak, index) && index.Keys == (set n | n in names)
    requires HeadedBy(index, names) && IsByName(entries, index, names)
    ensures IsTheirList(casefold, entries, index, names)
  {
    ListedByName(index, names);
    ByNameIsKeyed(ak, index, names);
    SortedByName(casefold, entries, names);
  }

  lemma OwnNamesAreListed(r: Reading, casefold: string -> string, names: seq<string>, entries: seq<Entry>)
    requires Ascending(names) && ReadAsWritten(r, names) && FoldsToThemselves(casefold, names)
    requires IsByName(entries, IndexOf(r, OneEach(names), []), names)
    ensures IsTheirList(casefold, entries, IndexOf(r, OneEach(names), []), names)
  {
    OwnNamesAreIndexed(r, names);
    HeadedByOwnNames(r, names);
    ByNameIsTheirList(casefold, r.key, entries, IndexOf(r, OneEach(names), []), names);
  }

  lemma HeadedByOwnNames(r: Reading, names: seq<string>)
    requires ReadAsWritten(r, names)
    ensures HeadedBy(IndexOf(r, OneEach(names), []), names)
  {
    forall i: nat | i < |names| {
      OwnNamesAreHeadings(r, names, i);
    }
  }

  lemma EntriesStarve(index: map<string, Entry>, names: seq<string>, naming: Naming, spines: map<string, set<string>>, n: nat)
      returns (entries: seq<Entry>)
    requires WalksWords(naming) && Headed(naming.key, index) && IsEnough(n) && names == Names(n)
    requires index.Keys == set n | n in names
    ensures IsByName(entries, index, names)
    ensures AreStarved(naming, entries, spines, SHORTER, LONGER)
  {
    entries := EntriesBy(index, names);
    ByNameIsKeyed(naming.key, index, names);
    NamesStarve(naming, entries, spines, n);
  }

  lemma ShelfStarves(r: Reading, casefold: string -> string, names: seq<string>, naming: Naming, spines: map<string, set<string>>, n: nat)
      returns (entries: seq<Entry>)
    requires WalksWords(naming) && naming.key == r.key && IsEnough(n) && names == Names(n) && Ascending(names)
    requires ReadAsWritten(r, names) && FoldsToThemselves(casefold, names)
    ensures IsTheirList(casefold, entries, IndexOf(r, OneEach(names), []), names)
    ensures AreStarved(naming, entries, spines, SHORTER, LONGER)
  {
    OwnNamesAreIndexed(r, names);
    entries := EntriesStarve(IndexOf(r, OneEach(names), []), names, naming, spines, n);
    OwnNamesAreListed(r, casefold, names, entries);
  }

  /** A case folding that leaves lower case alone. */
  ghost predicate FoldsLowerCase(casefold: string -> string)
  {
    forall text :: IsLowerCase(text) ==> casefold(text) == text
  }

  lemma NamesFoldToThemselves(casefold: string -> string, n: nat)
    requires n <= SURNAMES && FoldsLowerCase(casefold)
    ensures FoldsToThemselves(casefold, Names(n))
  {
    forall i | 0 <= i < |Names(n)| ensures casefold(Names(n)[i]) == Names(n)[i] {
      NamesAreLowerCase(n, i);
    }
  }

  lemma SurnamesStarve(u: Unicode, tokens: string -> seq<string>, casefold: string -> string, spines: map<string, set<string>>, n: nat)
      returns (entries: seq<Entry>)
    requires KeepsLowerCase(u) && FoldsLowerCase(casefold) && WalksWords(Naming(Keyer(u), tokens)) && IsEnough(n)
    ensures Ascending(Names(n)) && IsTheirList(casefold, entries, IndexOf(ReadingOf(u), OneEach(Names(n)), []), Names(n))
    ensures AreStarved(Naming(Keyer(u), tokens), entries, spines, SHORTER, LONGER)
  {
    NamesAreReadAsWritten(u, n);
    NamesAreInOrder(n);
    NamesFoldToThemselves(casefold, n);
    entries := ShelfStarves(ReadingOf(u), casefold, Names(n), Naming(Keyer(u), tokens), spines, n);
  }

  /** The index of one book by each of these names, before anybody has merged any, as its one sorted list,
      which is the names in order: the default draws no edge between the first two, and the fragment
      rule alone draws one. */
  lemma StarvedShelf(u: Unicode, tokens: string -> seq<string>, casefold: string -> string, spines: map<string, set<string>>)
      returns (entries: seq<Entry>)
    requires KeepsLowerCase(u) && FoldsLowerCase(casefold) && WalksWords(Naming(Keyer(u), tokens))
    ensures Ascending(Names(SURNAMES))
    ensures IsTheirList(casefold, entries, IndexOf(ReadingOf(u), OneEach(Names(SURNAMES)), []), Names(SURNAMES))
    ensures AreStarved(Naming(Keyer(u), tokens), entries, spines, SHORTER, LONGER)
  {
    entries := SurnamesStarve(u, tokens, casefold, spines, SURNAMES);
  }

  // ── So which matchers are narrower ────────────────────────────────────────

  /** On every shelf and every table these rules find only what the default finds. */
  ghost predicate NeverFindsMore(r: Reading, naming: Naming, casefold: string -> string, rules: set<Reason>)
  {
    forall shelf, rows, spines, entries :: Lists(entries, IndexOf(r, shelf, rows)) && IsSorted(casefold, entries) ==>
      FindsNoMore(naming, entries, spines, rules, MAX_COMPARISONS)
  }

  lemma FragmentAloneIsFragmentWithout(naming: Naming, entries: seq<Entry>, spines: map<string, set<string>>, rules: set<Reason>, e: Edge)
    requires Fragment in rules && Initials !in rules && e.reason == Fragment && e in EdgesFor(naming, entries, spines, {Fragment}, MAX_COMPARISONS)
    ensures e in EdgesFor(naming, entries, spines, rules, MAX_COMPARISONS)
  {
    EdgesByReason(naming, entries, spines, {Fragment}, MAX_COMPARISONS, e);
    EdgesByReason(naming, entries, spines, rules, MAX_COMPARISONS, e);
  }

  lemma StarvedFindsMore(naming: Naming, entries: seq<Entry>, spines: map<string, set<string>>, rules: set<Reason>, x: string, y: string)
    requires Fragment in rules && Initials !in rules && AreStarved(naming, entries, spines, x, y)
    ensures !FindsNoMore(naming, entries, spines, rules, MAX_COMPARISONS)
  {
    FragmentAloneIsFragmentWithout(naming, entries, spines, rules, Edge(x, y, Fragment));
  }

  lemma OneShelfIsEnough(r: Reading, naming: Naming, casefold: string -> string, rules: set<Reason>,
                         shelf: seq<Credit>, rows: seq<Alias>, spines: map<string, set<string>>, entries: seq<Entry>)
    requires Lists(entries, IndexOf(r, shelf, rows)) && IsSorted(casefold, entries)
    requires !FindsNoMore(naming, entries, spines, rules, MAX_COMPARISONS)
    ensures !NeverFindsMore(r, naming, casefold, rules)
  {
  }

  lemma NarrowerNeverFindsMore(r: Reading, naming: Naming, casefold: string -> string, rules: set<Reason>)
    requires Fragment !in rules || Initials in rules
    ensures NeverFindsMore(r, naming, casefold, rules)
  {
    forall entries, spines {
      NarrowerFindsLess(naming, entries, spines, rules, MAX_COMPARISONS);
    }
  }

  lemma StarvedOnceFindsMore(r: Reading, naming: Naming, casefold: string -> string, rules: set<Reason>, shelf: seq<Credit>,
                             entries: seq<Entry>, names: seq<string>)
    requires Fragment in rules && Initials !in rules && AreStarved(naming, entries, map[], SHORTER, LONGER)
    requires IsTheirList(casefold, entries, IndexOf(r, shelf, []), names)
    ensures !NeverFindsMore(r, naming, casefold, rules)
  {
    StarvedFindsMore(naming, entries, map[], rules, SHORTER, LONGER);
    OneShelfIsEnough(r, naming, casefold, rules, shelf, [], map[], entries);
  }

  lemma StarvedMatcherFindsMore(u: Unicode, tokens: string -> seq<string>, casefold: string -> string, rules: set<Reason>, n: nat)
    requires KeepsLowerCase(u) && FoldsLowerCase(casefold) && WalksWords(Naming(Keyer(u), tokens)) && IsEnough(n)
    requires Fragment in rules && Initials !in rules
    ensures !NeverFindsMore(ReadingOf(u), Naming(Keyer(u), tokens), casefold, rules)
  {
    var entries := SurnamesStarve(u, tokens, casefold, map[], n);
    StarvedOnceFindsMore(ReadingOf(u), Naming(Keyer(u), tokens), casefold, rules, OneEach(Names(n)), entries, Names(n));
  }

  /** A choice of rules finds only what the default finds on every shelf, at the budget the pass has, if
      and only if it leaves the fragment rule out or keeps the initials rule before it. */
  lemma NeverFindsMoreIff(u: Unicode, tokens: string -> seq<string>, casefold: string -> string, rules: set<Reason>)
    requires KeepsLowerCase(u) && FoldsLowerCase(casefold) && WalksWords(Naming(Keyer(u), tokens))
    ensures NeverFindsMore(ReadingOf(u), Naming(Keyer(u), tokens), casefold, rules) <==> Fragment !in rules || Initials in rules
  {
    if Fragment !in rules || Initials in rules {
      NarrowerNeverFindsMore(ReadingOf(u), Naming(Keyer(u), tokens), casefold, rules);
    } else {
      StarvedMatcherFindsMore(u, tokens, casefold, rules, SURNAMES);
    }
  }
}
