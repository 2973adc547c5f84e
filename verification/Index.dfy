/** The author index derived from the credit lines in sight and the table of aliases:
    `build_index`, `_entry_for` and `book_ids_for`. */
module Index {
  import opened Sequences
  import opened Wrappers
  import opened Strings
  import opened Aliases

  /** One visible book and its credit line. */
  datatype Credit = Credit(book: int, line: Option<string>)

  /** One spelling on one book. */
  datatype Occurrence = Occurrence(book: int, spelling: string)

  /** One person on this shelf. `spellings` counts the books each is printed on; `folded`
      holds the spellings' keys that a row resolves here. */
  datatype Entry = Entry(key: string, name: string, books: set<int>, spellings: map<string, nat>, folded: set<string>)

  /** How names are keyed and how credit lines are split. */
  datatype Reading = Reading(key: string -> string, split: Option<string> -> seq<string>)

  function OnBook(book: int, names: seq<string>): (occ: seq<Occurrence>)
    ensures |occ| == |names|
  {
    seq(|names|, i requires 0 <= i < |names| => Occurrence(book, names[i]))
  }

  /** Every spelling on every book, in reading order. */
  function Occurrences(split: Option<string> -> seq<string>, shelf: seq<Credit>): seq<Occurrence>
  {
    if shelf == [] then []
    else Occurrences(split, shelf[..|shelf| - 1]) + OnBook(shelf[|shelf| - 1].book, split(shelf[|shelf| - 1].line))
  }

  function Spelled(occ: seq<Occurrence>): (names: seq<string>)
    ensures |names| == |occ|
  {
    seq(|occ|, i requires 0 <= i < |occ| => occ[i].spelling)
  }

  /** Who a spelling means, through the resolved map. */
  function Meaning(ak: string -> string, resolved: map<string, string>): string -> string
  {
    spelling => Person(ak, resolved, ak(spelling))
  }

  /** The key a spelling is folded by, where a row folds it. */
  function FoldKey(ak: string -> string, resolved: map<string, string>): string -> Option<string>
  {
    spelling => if ak(spelling) in resolved then Some(ak(spelling)) else None
  }

  // ── The naive definition ──────────────────────────────────────────────────

  ghost function People(who: string -> string, occ: seq<Occurrence>): set<string>
  {
    set o | o in occ :: who(o.spelling)
  }

  ghost function BooksOf(who: string -> string, occ: seq<Occurrence>, k: string): set<int>
  {
    set o | o in occ && who(o.spelling) == k :: o.book
  }

  ghost function FoldedOf(who: string -> string, fold: string -> Option<string>, occ: seq<Occurrence>, k: string): set<string>
  {
    set o | o in occ && who(o.spelling) == k && fold(o.spelling).Some? :: fold(o.spelling).value
  }

  ghost function CountsOf(who: string -> string, occ: seq<Occurrence>, k: string): map<string, nat>
  {
    map s | s in Spelled(occ) && who(s) == k :: multiset(Spelled(occ))[s]
  }

  /** The most used spelling, the first in order among equals. */
  ghost predicate Preferred(counts: map<string, nat>, s: string)
  {
    s in counts && forall t :: t in counts && t != s ==> counts[s] > counts[t] || (counts[s] == counts[t] && Before(s, t))
  }

  lemma PreferredIsUnique(counts: map<string, nat>, s: string, t: string)
    requires Preferred(counts, s) && Preferred(counts, t)
    ensures s == t
  {
    BeforeIsStrict(s, t);
  }

  /** The rows' names in id order, each followed to the end of its chain. */
  function ResolvedNames(ak: string -> string, rows: seq<Alias>): seq<string>
  {
    var m := AsMap(rows);
    seq(|rows|, i requires 0 <= i < |rows| => Chase(ak, m, rows[i].canonical, |m|))
  }

  /** The name a merge chose for each person: of several rows naming one, the last wins. */
  function Chosen(ak: string -> string, names: seq<string>): map<string, string>
  {
    if names == [] then map[]
    else Chosen(ak, names[..|names| - 1])[ak(names[|names| - 1]) := names[|names| - 1]]
  }

  /** The entry `k` must have, told from the occurrences alone. */
  ghost predicate IsEntryFor(who: string -> string, fold: string -> Option<string>, chosen: map<string, string>,
                             occ: seq<Occurrence>, k: string, e: Entry)
  {
    && e.key == k
    && e.books == BooksOf(who, occ, k)
    && e.spellings == CountsOf(who, occ, k)
    && e.folded == FoldedOf(who, fold, occ, k)
    && (if k in chosen then e.name == chosen[k] else Preferred(e.spellings, e.name))
  }

  /** One entry per person some spelling means, and each the one its occurrences say. */
  ghost predicate IndexedBy(who: string -> string, fold: string -> Option<string>, chosen: map<string, string>,
                            occ: seq<Occurrence>, index: map<string, Entry>)
  {
    && index.Keys == People(who, occ)
    && forall k :: k in index ==> IsEntryFor(who, fold, chosen, occ, k, index[k])
  }

  ghost predicate Indexes(r: Reading, shelf: seq<Credit>, rows: seq<Alias>, index: map<string, Entry>)
  {
    var resolved := Resolved(r.key, AsMap(rows));
    IndexedBy(Meaning(r.key, resolved), FoldKey(r.key, resolved), Chosen(r.key, ResolvedNames(r.key, rows)),
              Occurrences(r.split, shelf), index)
  }

  lemma {:induction false} SomethingIsPreferred(counts: map<string, nat>) returns (top: string)
    requires counts != map[]
    ensures Preferred(counts, top)
  {
    var s :| s in counts;
    var rest := counts - {s};
    assert forall t :: t in counts && t != s ==> t in rest;
    if rest == map[] {
      top := s;
    } else {
      top := SomethingIsPreferred(rest);
      BeforeIsStrict(s, top);
      forall t | t in rest && t != top && Before(s, top) && Before(top, t) ensures Before(s, t) {
        BeforeIsTransitive(s, top, t);
      }
      if counts[s] > counts[top] || (counts[s] == counts[top] && Before(s, top)) {
        top := s;
      }
    }
  }

  ghost function TopSpelling(counts: map<string, nat>): (top: string)
    ensures counts != map[] ==> Preferred(counts, top)
  {
    if counts == map[] then ""
    else
      assert exists s :: Preferred(counts, s) by { var s := SomethingIsPreferred(counts); }
      var s :| Preferred(counts, s); s
  }

  lemma CountsAreNotEmpty(who: string -> string, occ: seq<Occurrence>, k: string)
    requires k in People(who, occ)
    ensures CountsOf(who, occ, k) != map[]
  {
    var o :| o in occ && who(o.spelling) == k;
    var i :| 0 <= i < |occ| && occ[i] == o;
    assert Spelled(occ)[i] == o.spelling;
    assert o.spelling in CountsOf(who, occ, k);
  }

  ghost function TheEntry(who: string -> string, fold: string -> Option<string>, chosen: map<string, string>,
                          occ: seq<Occurrence>, k: string): (e: Entry)
    ensures k in People(who, occ) ==> IsEntryFor(who, fold, chosen, occ, k, e)
  {
    var counts := CountsOf(who, occ, k);
    assert k in People(who, occ) ==> counts != map[] by {
      if k in People(who, occ) { CountsAreNotEmpty(who, occ, k); }
    }
    Entry(k, if k in chosen then chosen[k] else TopSpelling(counts), BooksOf(who, occ, k), counts, FoldedOf(who, fold, occ, k))
  }

  /** The index those occurrences have. */
  ghost function TheIndex(who: string -> string, fold: string -> Option<string>, chosen: map<string, string>,
                          occ: seq<Occurrence>): (index: map<string, Entry>)
    ensures IndexedBy(who, fold, chosen, occ, index)
  {
    map k | k in People(who, occ) :: TheEntry(who, fold, chosen, occ, k)
  }

  ghost function IndexOf(r: Reading, shelf: seq<Credit>, rows: seq<Alias>): (index: map<string, Entry>)
    ensures Indexes(r, shelf, rows, index)
  {
    assert exists index :: Indexes(r, shelf, rows, index) by {
      var resolved := Resolved(r.key, AsMap(rows));
      assert Indexes(r, shelf, rows, TheIndex(Meaning(r.key, resolved), FoldKey(r.key, resolved),
                                              Chosen(r.key, ResolvedNames(r.key, rows)), Occurrences(r.split, shelf)));
    }
    var index :| Indexes(r, shelf, rows, index); index
  }

  lemma IndexIsUnique(who: string -> string, fold: string -> Option<string>, chosen: map<string, string>,
                      occ: seq<Occurrence>, a: map<string, Entry>, b: map<string, Entry>)
    requires IndexedBy(who, fold, chosen, occ, a) && IndexedBy(who, fold, chosen, occ, b)
    ensures a == b
  {
    forall k | k in a ensures a[k] == b[k] {
      if k !in chosen {
        PreferredIsUnique(a[k].spellings, a[k].name, b[k].name);
      }
    }
  }

  // ── Building it ───────────────────────────────────────────────────────────

  /** The books dictionary after these occurrences. */
  ghost predicate BooksTallied(who: string -> string, occ: seq<Occurrence>, books: map<string, set<int>>)
  {
    books.Keys == People(who, occ) && forall k :: k in books ==> books[k] == BooksOf(who, occ, k)
  }

  ghost predicate CountsTallied(who: string -> string, occ: seq<Occurrence>, counts: map<string, map<string, nat>>)
  {
    counts.Keys == People(who, occ) && forall k :: k in counts ==> counts[k] == CountsOf(who, occ, k)
  }

  ghost predicate FoldedTallied(who: string -> string, fold: string -> Option<string>, occ: seq<Occurrence>, folded: map<string, set<string>>)
  {
    forall k :: At(folded, k) == FoldedOf(who, fold, occ, k)
  }

  function At(sets: map<string, set<string>>, k: string): set<string>
  {
    if k in sets then sets[k] else {}
  }

  lemma PeopleOneMore(who: string -> string, occ: seq<Occurrence>, o: Occurrence)
    ensures People(who, occ + [o]) == People(who, occ) + {who(o.spelling)}
  {
  }

  lemma BooksOneMore(who: string -> string, occ: seq<Occurrence>, o: Occurrence, books: map<string, set<int>>)
    requires BooksTallied(who, occ, books)
    ensures var k := who(o.spelling);
            BooksTallied(who, occ + [o], books[k := (if k in books then books[k] else {}) + {o.book}])
  {
    PeopleOneMore(who, occ, o);
    forall j ensures BooksOf(who, occ + [o], j) == BooksOf(who, occ, j) + (if who(o.spelling) == j then {o.book} else {}) {
    }
    assert who(o.spelling) !in books ==> BooksOf(who, occ, who(o.spelling)) == {};
  }

  lemma FoldedOneMore(who: string -> string, fold: string -> Option<string>, occ: seq<Occurrence>, o: Occurrence, folded: map<string, set<string>>)
    requires FoldedTallied(who, fold, occ, folded)
    ensures var k := who(o.spelling);
            FoldedTallied(who, fold, occ + [o], if fold(o.spelling).Some? then folded[k := At(folded, k) + {fold(o.spelling).value}] else folded)
  {
    forall j ensures FoldedOf(who, fold, occ + [o], j)
                  == FoldedOf(who, fold, occ, j) + (if who(o.spelling) == j && fold(o.spelling).Some? then {fold(o.spelling).value} else {}) {
    }
  }

  lemma CountsOneMore(who: string -> string, occ: seq<Occurrence>, o: Occurrence, counts: map<string, map<string, nat>>)
    requires CountsTallied(who, occ, counts)
    ensures var k := who(o.spelling);
            var was := if k in counts then counts[k] else map[];
            CountsTallied(who, occ + [o], counts[k := was[o.spelling := (if o.spelling in was then was[o.spelling] else 0) + 1]])
  {
    PeopleOneMore(who, occ, o);
    var k := who(o.spelling);
    if k !in counts {
      UncountedIsUnspelled(who, occ, k);
    }
    forall j ensures j != k ==> CountsOf(who, occ + [o], j) == CountsOf(who, occ, j) {
      CountOneMore(who, occ, o, j);
    }
    CountOneMore(who, occ, o, k);
  }

  lemma CountOneMore(who: string -> string, occ: seq<Occurrence>, o: Occurrence, k: string)
    ensures who(o.spelling) != k ==> CountsOf(who, occ + [o], k) == CountsOf(who, occ, k)
    ensures who(o.spelling) == k ==>
              var was := CountsOf(who, occ, k);
              CountsOf(who, occ + [o], k) == was[o.spelling := (if o.spelling in was then was[o.spelling] else 0) + 1]
  {
    assert Spelled(occ + [o]) == Spelled(occ) + [o.spelling];
    OneNameMore(who, Spelled(occ), o.spelling, Spelled(occ + [o]), k);
  }

  lemma OneNameMore(who: string -> string, names: seq<string>, name: string, more: seq<string>, k: string)
    requires more == names + [name]
    ensures var was := map s | s in names && who(s) == k :: multiset(names)[s];
            var now := map s | s in more && who(s) == k :: multiset(more)[s];
            now == if who(name) == k then was[name := (if name in was then was[name] else 0) + 1] else was
  {
    assert multiset(more) == multiset(names) + multiset{name};
    forall s ensures s in more <==> s in names || s == name
             ensures s !in names ==> multiset(names)[s] == 0 {
    }
  }

  lemma UncountedIsUnspelled(who: string -> string, occ: seq<Occurrence>, k: string)
    requires k !in People(who, occ)
    ensures CountsOf(who, occ, k) == map[]
  {
    forall s | s in Spelled(occ) ensures who(s) != k {
      var i :| 0 <= i < |occ| && Spelled(occ)[i] == s;
      assert occ[i] in occ;
    }
  }

  method MostUsed(counts: map<string, nat>) returns (name: string)
    requires counts != map[]
    ensures Preferred(counts, name)
  {
    var left := counts.Keys;
    name :| name in left;
    left := left - {name};
    while left != {}
      invariant left <= counts.Keys && name in counts.Keys - left
      invariant forall t :: t in counts.Keys - left && t != name ==>
                  counts[name] > counts[t] || (counts[name] == counts[t] && Before(name, t))
      decreases |left|
    {
      var s :| s in left;
      left := left - {s};
      BeforeIsStrict(name, s);
      if counts[s] > counts[name] || (counts[s] == counts[name] && Before(s, name)) {
        forall t | t in counts.Keys - left && t != s
          ensures counts[s] > counts[t] || (counts[s] == counts[t] && Before(s, t))
        {
          if t != name && counts[s] == counts[name] == counts[t] {
            BeforeIsTransitive(s, name, t);
          }
        }
        name := s;
      }
    }
  }

  /** The first pass of `build_index`, over one book's names. */
  method TallyBook(who: string -> string, fold: string -> Option<string>, book: int, names: seq<string>, ghost earlier: seq<Occurrence>,
                   books0: map<string, set<int>>, counts0: map<string, map<string, nat>>, folded0: map<string, set<string>>)
      returns (books: map<string, set<int>>, counts: map<string, map<string, nat>>, folded: map<string, set<string>>)
    requires BooksTallied(who, earlier, books0) && CountsTallied(who, earlier, counts0) && FoldedTallied(who, fold, earlier, folded0)
    ensures BooksTallied(who, earlier + OnBook(book, names), books)
    ensures CountsTallied(who, earlier + OnBook(book, names), counts)
    ensures FoldedTallied(who, fold, earlier + OnBook(book, names), folded)
  {
    books, counts, folded := books0, counts0, folded0;
    ghost var here := OnBook(book, names);
    ghost var done := earlier;
    for n := 0 to |names|
      invariant done == earlier + here[..n]
      invariant BooksTallied(who, done, books) && CountsTallied(who, done, counts) && FoldedTallied(who, fold, done, folded)
    {
      var spelling := names[n];
      BooksOneMore(who, done, here[n], books);
      CountsOneMore(who, done, here[n], counts);
      FoldedOneMore(who, fold, done, here[n], folded);
      OneMore(here, n);
      Assoc(earlier, here[..n], [here[n]]);
      done := done + [here[n]];
      var key := who(spelling);
      if fold(spelling).Some? {
        folded := folded[key := At(folded, key) + {fold(spelling).value}];
      }
      books := books[key := (if key in books then books[key] else {}) + {book}];
      var was := if key in counts then counts[key] else map[];
      counts := counts[key := was[spelling := (if spelling in was then was[spelling] else 0) + 1]];
    }
    assert here[..|names|] == here;
  }

  /** The first pass of `build_index`: every spelling of every row, tallied under who it means. */
  method Tally(who: string -> string, fold: string -> Option<string>, split: Option<string> -> seq<string>, shelf: seq<Credit>)
      returns (books: map<string, set<int>>, counts: map<string, map<string, nat>>, folded: map<string, set<string>>)
    ensures BooksTallied(who, Occurrences(split, shelf), books)
    ensures CountsTallied(who, Occurrences(split, shelf), counts)
    ensures FoldedTallied(who, fold, Occurrences(split, shelf), folded)
  {
    books, counts, folded := map[], map[], map[];
    ghost var done: seq<Occurrence> := [];
    for i := 0 to |shelf|
      invariant done == Occurrences(split, shelf[..i])
      invariant BooksTallied(who, done, books) && CountsTallied(who, done, counts) && FoldedTallied(who, fold, done, folded)
    {
      var names := split(shelf[i].line);
      books, counts, folded := TallyBook(who, fold, shelf[i].book, names, done, books, counts, folded);
      assert shelf[..i + 1][..i] == shelf[..i];
      done := done + OnBook(shelf[i].book, names);
    }
    assert shelf[..|shelf|] == shelf;
  }

  function EntryNamed(chosen: map<string, string>, books: map<string, set<int>>, counts: map<string, map<string, nat>>,
                      folded: map<string, set<string>>, k: string, top: string): Entry
    requires k in books && k in counts
  {
    Entry(k, if k in chosen then chosen[k] else top, books[k], counts[k], At(folded, k))
  }

  /** The second pass: one entry per person counted, headed by the name chosen for them or
      else by the spelling most used. */
  method Assemble(chosen: map<string, string>, books: map<string, set<int>>, counts: map<string, map<string, nat>>,
                  folded: map<string, set<string>>)
      returns (index: map<string, Entry>)
    requires books.Keys == counts.Keys
    requires forall k :: k in counts ==> counts[k] != map[]
    ensures index.Keys == counts.Keys
    ensures forall k :: k in index ==> exists top :: Preferred(counts[k], top) && index[k] == EntryNamed(chosen, books, counts, folded, k, top)
  {
    index := map[];
    var left := counts.Keys;
    while left != {}
      invariant left <= counts.Keys && index.Keys == counts.Keys - left
      invariant forall k :: k in index ==> exists top :: Preferred(counts[k], top) && index[k] == EntryNamed(chosen, books, counts, folded, k, top)
      decreases |left|
    {
      var k :| k in left;
      left := left - {k};
      var top := MostUsed(counts[k]);
      index := index[k := EntryNamed(chosen, books, counts, folded, k, top)];
    }
  }

  lemma TalliesMakeTheIndex(who: string -> string, fold: string -> Option<string>, chosen: map<string, string>, occ: seq<Occurrence>,
                            books: map<string, set<int>>, counts: map<string, map<string, nat>>, folded: map<string, set<string>>,
                            index: map<string, Entry>)
    requires BooksTallied(who, occ, books) && CountsTallied(who, occ, counts) && FoldedTallied(who, fold, occ, folded)
    requires index.Keys == counts.Keys
    requires forall k :: k in index ==> exists top :: Preferred(counts[k], top) && index[k] == EntryNamed(chosen, books, counts, folded, k, top)
    ensures IndexedBy(who, fold, chosen, occ, index)
  {
    forall k | k in index ensures IsEntryFor(who, fold, chosen, occ, k, index[k]) {
      var top :| Preferred(counts[k], top) && index[k] == EntryNamed(chosen, books, counts, folded, k, top);
    }
  }

  method BuildIndex(r: Reading, shelf: seq<Credit>, rows: seq<Alias>) returns (index: map<string, Entry>)
    requires WellKeyed(rows)
    ensures index == IndexOf(r, shelf, rows)
  {
    var resolved := ResolveAliasMap(r.key, rows);
    var chosen := Chosen(r.key, ResolvedNames(r.key, rows));
    var who, fold := Meaning(r.key, resolved), FoldKey(r.key, resolved);
    ghost var occ := Occurrences(r.split, shelf);
    var books, counts, folded := Tally(who, fold, r.split, shelf);
    forall k | k in counts ensures counts[k] != map[] {
      CountsAreNotEmpty(who, occ, k);
    }
    index := Assemble(chosen, books, counts, folded);
    TalliesMakeTheIndex(who, fold, chosen, occ, books, counts, folded, index);
    IndexIsUnique(who, fold, chosen, occ, index, IndexOf(r, shelf, rows));
  }

  /** `_entry_for`: whom somebody asking under this name is shown. */
  function Lookup(who: string -> string, index: map<string, Entry>, author: string): Option<Entry>
  {
    if who(author) in index then Some(index[who(author)]) else None
  }

  method EntryFor(r: Reading, shelf: seq<Credit>, rows: seq<Alias>, author: string) returns (found: Option<Entry>)
    requires WellKeyed(rows)
    ensures found == Lookup(Meaning(r.key, Resolved(r.key, AsMap(rows))), IndexOf(r, shelf, rows), author)
    ensures forall k :: Means(r.key, AsMap(rows), author, k) ==>
              found == if k in IndexOf(r, shelf, rows) then Some(IndexOf(r, shelf, rows)[k]) else None
  {
    forall k {
      MeansThroughTheMap(r.key, AsMap(rows), author, k);
    }
    var entries := BuildIndex(r, shelf, rows);
    var resolved := ResolveAliasMap(r.key, rows);
    var key := r.key(author);
    if key in resolved { key := r.key(resolved[key]); }
    found := if key in entries then Some(entries[key]) else None;
  }

  function BookIdsFor(who: string -> string, index: map<string, Entry>, author: string): set<int>
  {
    var found := Lookup(who, index, author);
    if found.Some? then found.value.books else {}
  }

  // ── What the index says of the shelf ──────────────────────────────────────

  /** Some book of this number prints this spelling. */
  ghost predicate IsPrintedOn(r: Reading, shelf: seq<Credit>, spelling: string, book: int)
  {
    exists c :: c in shelf && c.book == book && spelling in r.split(c.line)
  }

  ghost predicate IsPrinted(r: Reading, shelf: seq<Credit>, spelling: string)
  {
    exists c :: c in shelf && spelling in r.split(c.line)
  }

  /** How often the shelf prints a spelling. */
  ghost function TimesPrinted(r: Reading, shelf: seq<Credit>, spelling: string): nat
  {
    if shelf == [] then 0 else TimesPrinted(r, shelf[1..], spelling) + multiset(r.split(shelf[0].line))[spelling]
  }

  lemma {:induction false} OccursIffPrinted(r: Reading, shelf: seq<Credit>, o: Occurrence)
    ensures o in Occurrences(r.split, shelf) <==> IsPrintedOn(r, shelf, o.spelling, o.book)
  {
    if shelf != [] {
      var init, last := shelf[..|shelf| - 1], shelf[|shelf| - 1];
      OccursIffPrinted(r, init, o);
      var here := OnBook(last.book, r.split(last.line));
      assert o in here <==> o.book == last.book && o.spelling in r.split(last.line) by {
        if o.book == last.book && o.spelling in r.split(last.line) {
          var i :| 0 <= i < |here| && r.split(last.line)[i] == o.spelling;
          assert here[i] == o;
        }
      }
      assert forall c :: c in shelf <==> c in init || c == last;
    }
  }

  lemma SpelledOnBook(book: int, names: seq<string>)
    ensures Spelled(OnBook(book, names)) == names
  {
  }

  lemma SpelledConcat(a: seq<Occurrence>, b: seq<Occurrence>)
    ensures Spelled(a + b) == Spelled(a) + Spelled(b)
  {
  }

  lemma {:induction false} CountIsTimesPrinted(r: Reading, shelf: seq<Credit>, spelling: string)
    ensures multiset(Spelled(Occurrences(r.split, shelf)))[spelling] == TimesPrinted(r, shelf, spelling)
  {
    if shelf != [] {
      var first, rest := shelf[0], shelf[1..];
      CountIsTimesPrinted(r, rest, spelling);
      assert shelf == [first] + rest;
      OccurrencesOfConcat(r.split, [first], rest);
      assert [first][..0] == [];
      var here := OnBook(first.book, r.split(first.line));
      assert Occurrences(r.split, [first]) == here;
      SpelledOnBook(first.book, r.split(first.line));
      SpelledConcat(here, Occurrences(r.split, rest));
    }
  }

  /** Somebody the shelf prints a name of, under whom every spelling that means them is counted as often as
      it is printed, every book that prints one is listed, and every key a row folds into them. */
  ghost predicate IsTold(r: Reading, shelf: seq<Credit>, rows: seq<Alias>, e: Entry)
  {
    && (forall s :: s in e.spellings <==> IsPrinted(r, shelf, s) && Means(r.key, AsMap(rows), s, e.key))
    && (forall s :: s in e.spellings ==> e.spellings[s] == TimesPrinted(r, shelf, s))
    && (forall b :: b in e.books <==> exists s :: IsPrintedOn(r, shelf, s, b) && Means(r.key, AsMap(rows), s, e.key))
    && (forall a :: a in e.folded <==>
          a in AsMap(rows) && exists s :: IsPrinted(r, shelf, s) && r.key(s) == a && Means(r.key, AsMap(rows), s, e.key))
  }

  /** The index, told from the credit lines and the rows themselves. */
  lemma IndexIsTold(r: Reading, shelf: seq<Credit>, rows: seq<Alias>, k: string)
    ensures k in IndexOf(r, shelf, rows) <==> exists s :: IsPrinted(r, shelf, s) && Means(r.key, AsMap(rows), s, k)
    ensures k in IndexOf(r, shelf, rows) ==> IndexOf(r, shelf, rows)[k].key == k && IsTold(r, shelf, rows, IndexOf(r, shelf, rows)[k])
  {
    var occ, resolved := Occurrences(r.split, shelf), Resolved(r.key, AsMap(rows));
    var who, fold := Meaning(r.key, resolved), FoldKey(r.key, resolved);
    forall s ensures Means(r.key, AsMap(rows), s, k) <==> who(s) == k {
      MeansThroughTheMap(r.key, AsMap(rows), s, k);
    }
    forall o ensures o in occ <==> IsPrintedOn(r, shelf, o.spelling, o.book) {
      OccursIffPrinted(r, shelf, o);
    }
    IndexTells(r, shelf, rows, k, who, fold, Chosen(r.key, ResolvedNames(r.key, rows)), occ, IndexOf(r, shelf, rows));
  }

  lemma IndexTells(r: Reading, shelf: seq<Credit>, rows: seq<Alias>, k: string, who: string -> string, fold: string -> Option<string>,
                   chosen: map<string, string>, occ: seq<Occurrence>, index: map<string, Entry>)
    requires IndexedBy(who, fold, chosen, occ, index) && occ == Occurrences(r.split, shelf)
    requires forall s :: Means(r.key, AsMap(rows), s, k) <==> who(s) == k
    requires forall o :: o in occ <==> IsPrintedOn(r, shelf, o.spelling, o.book)
    requires forall s :: fold(s) == if r.key(s) in AsMap(rows) then Some(r.key(s)) else None
    ensures k in index <==> exists s :: IsPrinted(r, shelf, s) && Means(r.key, AsMap(rows), s, k)
    ensures k in index ==> index[k].key == k && IsTold(r, shelf, rows, index[k])
  {
    forall s {
      PrintedIsAnOccurrence(r, shelf, occ, s);
    }
    PeopleAreTold(r, shelf, rows, k, who, occ);
    if k in index {
      assert IsEntryFor(who, fold, chosen, occ, k, index[k]);
      SpellingsAreTold(r, shelf, rows, k, who, occ);
      FoldedAreTold(r, shelf, rows, k, who, fold, occ);
    }
  }

  lemma PeopleAreTold(r: Reading, shelf: seq<Credit>, rows: seq<Alias>, k: string, who: string -> string, occ: seq<Occurrence>)
    requires forall s :: Means(r.key, AsMap(rows), s, k) <==> who(s) == k
    requires forall o :: o in occ <==> IsPrintedOn(r, shelf, o.spelling, o.book)
    requires forall s :: IsPrinted(r, shelf, s) <==> exists o :: o in occ && o.spelling == s
    ensures k in People(who, occ) <==> exists s :: IsPrinted(r, shelf, s) && Means(r.key, AsMap(rows), s, k)
    ensures forall b :: b in BooksOf(who, occ, k) <==> exists s :: IsPrintedOn(r, shelf, s, b) && Means(r.key, AsMap(rows), s, k)
  {
    if s :| IsPrinted(r, shelf, s) && Means(r.key, AsMap(rows), s, k) {
      var o :| o in occ && o.spelling == s;
    }
    forall b ensures b in BooksOf(who, occ, k) <==> exists s :: IsPrintedOn(r, shelf, s, b) && Means(r.key, AsMap(rows), s, k) {
      if s :| IsPrintedOn(r, shelf, s, b) && Means(r.key, AsMap(rows), s, k) {
        assert Occurrence(b, s) in occ;
      }
    }
  }

  lemma SpellingsAreTold(r: Reading, shelf: seq<Credit>, rows: seq<Alias>, k: string, who: string -> string, occ: seq<Occurrence>)
    requires occ == Occurrences(r.split, shelf) && forall s :: Means(r.key, AsMap(rows), s, k) <==> who(s) == k
    requires forall s :: IsPrinted(r, shelf, s) <==> exists o :: o in occ && o.spelling == s
    ensures forall s :: s in CountsOf(who, occ, k) <==> IsPrinted(r, shelf, s) && Means(r.key, AsMap(rows), s, k)
    ensures forall s :: s in CountsOf(who, occ, k) ==> CountsOf(who, occ, k)[s] == TimesPrinted(r, shelf, s)
  {
    forall s ensures s in Spelled(occ) <==> IsPrinted(r, shelf, s) {
      SpelledIsAnOccurrence(occ, s);
    }
    forall s {
      CountIsTimesPrinted(r, shelf, s);
    }
  }

  lemma FoldedAreTold(r: Reading, shelf: seq<Credit>, rows: seq<Alias>, k: string, who: string -> string, fold: string -> Option<string>,
                      occ: seq<Occurrence>)
    requires forall s :: Means(r.key, AsMap(rows), s, k) <==> who(s) == k
    requires forall s :: IsPrinted(r, shelf, s) <==> exists o :: o in occ && o.spelling == s
    requires forall s :: fold(s) == if r.key(s) in AsMap(rows) then Some(r.key(s)) else None
    ensures forall a :: a in FoldedOf(who, fold, occ, k) <==>
              a in AsMap(rows) && exists s :: IsPrinted(r, shelf, s) && r.key(s) == a && Means(r.key, AsMap(rows), s, k)
  {
    forall a
      ensures a in FoldedOf(who, fold, occ, k)
         <==> a in AsMap(rows) && exists s :: IsPrinted(r, shelf, s) && r.key(s) == a && Means(r.key, AsMap(rows), s, k)
    {
      if a in AsMap(rows) {
        if s :| IsPrinted(r, shelf, s) && r.key(s) == a && Means(r.key, AsMap(rows), s, k) {
          var o :| o in occ && o.spelling == s;
        }
      }
    }
  }

  lemma PrintedIsAnOccurrence(r: Reading, shelf: seq<Credit>, occ: seq<Occurrence>, s: string)
    requires forall o :: o in occ <==> IsPrintedOn(r, shelf, o.spelling, o.book)
    ensures IsPrinted(r, shelf, s) <==> exists o :: o in occ && o.spelling == s
  {
    if c :| c in shelf && s in r.split(c.line) {
      assert IsPrintedOn(r, shelf, s, c.book);
      assert Occurrence(c.book, s) in occ;
    }
  }

  lemma SpelledIsAnOccurrence(occ: seq<Occurrence>, s: string)
    ensures s in Spelled(occ) <==> exists o :: o in occ && o.spelling == s
  {
    if s in Spelled(occ) {
      var i :| 0 <= i < |occ| && Spelled(occ)[i] == s;
      assert occ[i] in occ;
    }
    if o :| o in occ && o.spelling == s {
      var i :| 0 <= i < |occ| && occ[i] == o;
      assert Spelled(occ)[i] == s;
    }
  }

  // ── What the index promises ───────────────────────────────────────────────

  /** The last of the names with this key, which is the one that decides. */
  ghost predicate LastNamed(ak: string -> string, names: seq<string>, k: string, i: int)
  {
    0 <= i < |names| && ak(names[i]) == k && forall j :: i < j < |names| ==> ak(names[j]) != k
  }

  /** Every chosen name is filed under its own key, and the last row to name a person decides. */
  lemma {:induction false} ChosenIsLastChoice(ak: string -> string, names: seq<string>, k: string)
    ensures k in Chosen(ak, names) <==> exists i :: 0 <= i < |names| && ak(names[i]) == k
    ensures k in Chosen(ak, names) ==> exists i :: LastNamed(ak, names, k, i) && Chosen(ak, names)[k] == names[i]
  {
    if names != [] {
      var init, n := names[..|names| - 1], |names| - 1;
      ChosenIsLastChoice(ak, init, k);
      if ak(names[n]) == k {
        assert LastNamed(ak, names, k, n) && Chosen(ak, names)[k] == names[n];
      } else if k in Chosen(ak, init) {
        var i :| LastNamed(ak, init, k, i) && Chosen(ak, init)[k] == init[i];
        assert LastNamed(ak, names, k, i) && names[i] == init[i];
      }
    }
  }

  /** A spelling a row folds means somebody a row names. */
  lemma FoldedIsChosen(ak: string -> string, rows: seq<Alias>, spelling: string)
    requires ak(spelling) in AsMap(rows)
    ensures Meaning(ak, Resolved(ak, AsMap(rows)))(spelling) in Chosen(ak, ResolvedNames(ak, rows))
  {
    var i := AsMapFinds(rows, ak(spelling));
    var names := ResolvedNames(ak, rows);
    assert ak(names[i]) == Meaning(ak, Resolved(ak, AsMap(rows)))(spelling);
    ChosenIsLastChoice(ak, names, ak(names[i]));
  }

  /** An entry is addressed by the key of the name it is headed with. */
  lemma NameCarriesKey(r: Reading, shelf: seq<Credit>, rows: seq<Alias>, k: string)
    requires k in IndexOf(r, shelf, rows)
    ensures r.key(IndexOf(r, shelf, rows)[k].name) == k
  {
    var index := IndexOf(r, shelf, rows);
    var names := ResolvedNames(r.key, rows);
    ChosenIsLastChoice(r.key, names, k);
    if k !in Chosen(r.key, names) {
      var spelling := index[k].name;
      assert Meaning(r.key, Resolved(r.key, AsMap(rows)))(spelling) == k;
      if r.key(spelling) in AsMap(rows) {
        FoldedIsChosen(r.key, rows, spelling);
      }
    }
  }

  /** The row at `i` names this person by this name: the end of the walk from its own. */
  ghost predicate IsNamedBy(ak: string -> string, rows: seq<Alias>, i: nat, k: string, name: string)
  {
    && i < |rows| && ak(name) == k
    && exists walk :: IsFollowed(ak, AsMap(rows), rows[i].canonical, |AsMap(rows)|, walk) && walk[|walk| - 1] == name
  }

  lemma NamedByIs(ak: string -> string, rows: seq<Alias>, i: nat, k: string, name: string)
    requires i < |rows|
    ensures IsNamedBy(ak, rows, i, k, name) <==> ResolvedNames(ak, rows)[i] == name && ak(name) == k
  {
    var m := AsMap(rows);
    var found := ChaseIsAWalk(ak, m, rows[i].canonical, |m|);
    if walk :| IsFollowed(ak, m, rows[i].canonical, |m|, walk) && walk[|walk| - 1] == name {
      WalkIsTheChase(ak, m, rows[i].canonical, |m|, walk);
    }
  }

  /** A person some row names is headed by the name of the last such row, and anybody else by the spelling
      printed most often, the first of equals. */
  lemma HeadingIsTold(r: Reading, shelf: seq<Credit>, rows: seq<Alias>, k: string)
    requires k in IndexOf(r, shelf, rows)
    ensures var e := IndexOf(r, shelf, rows)[k];
            if exists i, name :: IsNamedBy(r.key, rows, i, k, name)
            then exists i :: IsNamedBy(r.key, rows, i, k, e.name) && forall j, name :: i < j ==> !IsNamedBy(r.key, rows, j, k, name)
            else Preferred(e.spellings, e.name)
  {
    var names := ResolvedNames(r.key, rows);
    ChosenIsLastChoice(r.key, names, k);
    forall i: nat, name | i < |rows| {
      NamedByIs(r.key, rows, i, k, name);
    }
    if k in Chosen(r.key, names) {
      var i :| LastNamed(r.key, names, k, i) && Chosen(r.key, names)[k] == names[i];
      assert IsNamedBy(r.key, rows, i, k, names[i]);
    }
    if i: nat, name :| IsNamedBy(r.key, rows, i, k, name) {
      assert names[i] == name;
    }
  }

  /** Conservation: a spelling on a book is counted under one person, with every book it is
      on, as often as it is printed. */
  lemma EachOccurrenceLandsOnce(who: string -> string, fold: string -> Option<string>, chosen: map<string, string>,
                                occ: seq<Occurrence>, index: map<string, Entry>, o: Occurrence)
    requires IndexedBy(who, fold, chosen, occ, index) && o in occ
    ensures var k := who(o.spelling);
            && k in index && o.book in index[k].books
            && o.spelling in index[k].spellings
            && index[k].spellings[o.spelling] == multiset(Spelled(occ))[o.spelling]
    ensures forall j :: j in index && o.spelling in index[j].spellings ==> j == who(o.spelling)
  {
    var i :| 0 <= i < |occ| && occ[i] == o;
    assert Spelled(occ)[i] == o.spelling;
    var k := who(o.spelling);
    assert IsEntryFor(who, fold, chosen, occ, k, index[k]);
    assert o.spelling in CountsOf(who, occ, k);
    forall j | j in index && o.spelling in index[j].spellings ensures j == k {
      assert IsEntryFor(who, fold, chosen, occ, j, index[j]);
    }
  }

  /** And nothing else is in the index: a book is listed only for a spelling printed on it. */
  lemma NothingElseIsIndexed(who: string -> string, fold: string -> Option<string>, chosen: map<string, string>,
                             occ: seq<Occurrence>, index: map<string, Entry>, k: string, book: int)
    requires IndexedBy(who, fold, chosen, occ, index) && k in index && book in index[k].books
    ensures exists o :: o in occ && o.book == book && o.spelling in index[k].spellings
  {
    assert IsEntryFor(who, fold, chosen, occ, k, index[k]);
    var o :| o in occ && who(o.spelling) == k && o.book == book;
    EachOccurrenceLandsOnce(who, fold, chosen, occ, index, o);
  }

  /** Every spelling finds the books it is printed on, whatever the alias table holds. */
  lemma SpellingFindsItsBook(r: Reading, shelf: seq<Credit>, rows: seq<Alias>, o: Occurrence)
    requires o in Occurrences(r.split, shelf)
    ensures o.book in BookIdsFor(Meaning(r.key, Resolved(r.key, AsMap(rows))), IndexOf(r, shelf, rows), o.spelling)
  {
    var index := IndexOf(r, shelf, rows);
    var resolved := Resolved(r.key, AsMap(rows));
    EachOccurrenceLandsOnce(Meaning(r.key, resolved), FoldKey(r.key, resolved), Chosen(r.key, ResolvedNames(r.key, rows)),
                            Occurrences(r.split, shelf), index, o);
  }

  /** A link carrying an entry's key answers that entry's books, on a table acyclic apart
      from self rows and for a key that is its own key. */
  lemma KeyFindsItsEntry(r: Reading, shelf: seq<Credit>, rows: seq<Alias>, k: string)
    requires k in IndexOf(r, shelf, rows) && r.key(k) == k && Acyclic(r.key, AsMap(rows))
    ensures BookIdsFor(Meaning(r.key, Resolved(r.key, AsMap(rows))), IndexOf(r, shelf, rows), k) == IndexOf(r, shelf, rows)[k].books
  {
    var who := Meaning(r.key, Resolved(r.key, AsMap(rows)));
    var occ := Occurrences(r.split, shelf);
    assert k in People(who, occ);
    var o :| o in occ && who(o.spelling) == k;
    PersonIsSettled(r.key, AsMap(rows), r.key(o.spelling));
  }

  // ── Row order ─────────────────────────────────────────────────────────────

  lemma {:induction false} OccurrencesOfConcat(split: Option<string> -> seq<string>, a: seq<Credit>, b: seq<Credit>)
    ensures Occurrences(split, a + b) == Occurrences(split, a) + Occurrences(split, b)
  {
    if b == [] {
      assert a + b == a;
    } else {
      var init, last := b[..|b| - 1], b[|b| - 1];
      assert (a + b)[..|a + b| - 1] == a + init && (a + b)[|a + b| - 1] == last;
      OccurrencesOfConcat(split, a, init);
      Assoc(Occurrences(split, a), Occurrences(split, init), OnBook(last.book, split(last.line)));
    }
  }

  /** The last element of one list, found in any permutation of it and taken out of both. */
  lemma TakeOut<T>(a: seq<T>, b: seq<T>) returns (before: seq<T>, after: seq<T>)
    requires a != [] && multiset(a) == multiset(b)
    ensures b == before + [a[|a| - 1]] + after
    ensures multiset(a[..|a| - 1]) == multiset(before + after)
  {
    var init, last := a[..|a| - 1], a[|a| - 1];
    assert a == init + [last];
    assert last in multiset(b);
    var i :| 0 <= i < |b| && b[i] == last;
    before, after := b[..i], b[i + 1..];
    assert b == before + [last] + after;
    OutOfBoth(init, last, before, after);
  }

  lemma OutOfBoth<T>(init: seq<T>, last: T, before: seq<T>, after: seq<T>)
    requires multiset(init + [last]) == multiset(before + [last] + after)
    ensures multiset(init) == multiset(before + after)
  {
    assert multiset(before + after) == multiset(before) + multiset(after);
    assert multiset(init) == multiset(init + [last]) - multiset{last};
  }

  lemma EmptyPermutation<T>(a: seq<T>, b: seq<T>)
    requires multiset(a) == multiset(b)
    ensures a == [] <==> b == []
  {
    if a != [] { assert a[0] in multiset(a) && a[0] in multiset(b); }
    if b != [] { assert b[0] in multiset(b) && b[0] in multiset(a); }
  }

  /** What one book adds, wherever it stands. */
  lemma OccurrencesAround(split: Option<string> -> seq<string>, before: seq<Credit>, c: Credit, after: seq<Credit>)
    ensures multiset(Occurrences(split, before + [c] + after))
         == multiset(Occurrences(split, before + after)) + multiset(Occurrences(split, [c]))
  {
    OccurrencesOfConcat(split, before + [c], after);
    OccurrencesOfConcat(split, before, [c]);
    OccurrencesOfConcat(split, before, after);
  }

  lemma OccurrencesInFront(split: Option<string> -> seq<string>, a: seq<Credit>)
    requires a != []
    ensures multiset(Occurrences(split, a)) == multiset(Occurrences(split, a[..|a| - 1])) + multiset(Occurrences(split, [a[|a| - 1]]))
  {
    OccurrencesOfConcat(split, a[..|a| - 1], [a[|a| - 1]]);
    assert a == a[..|a| - 1] + [a[|a| - 1]];
  }

  lemma {:induction false} OccurrencesOfPermutation(split: Option<string> -> seq<string>, a: seq<Credit>, b: seq<Credit>)
    requires multiset(a) == multiset(b)
    ensures multiset(Occurrences(split, a)) == multiset(Occurrences(split, b))
  {
    EmptyPermutation(a, b);
    if a != [] {
      var init, last := a[..|a| - 1], a[|a| - 1];
      var before, after := TakeOut(a, b);
      OccurrencesOfPermutation(split, init, before + after);
      OccurrencesAround(split, before, last, after);
      OccurrencesInFront(split, a);
    }
  }

  lemma {:induction false} SpelledOfPermutation(a: seq<Occurrence>, b: seq<Occurrence>)
    requires multiset(a) == multiset(b)
    ensures multiset(Spelled(a)) == multiset(Spelled(b))
  {
    EmptyPermutation(a, b);
    if a != [] {
      var init, last := a[..|a| - 1], a[|a| - 1];
      var before, after := TakeOut(a, b);
      SpelledOfPermutation(init, before + after);
      assert Spelled(a) == Spelled(init) + [last.spelling];
      assert Spelled(before + after) == Spelled(before) + Spelled(after);
      assert Spelled(b) == Spelled(before) + [last.spelling] + Spelled(after);
    }
  }

  lemma SameElements<T>(a: seq<T>, b: seq<T>)
    requires multiset(a) == multiset(b)
    ensures forall x :: x in a <==> x in b
  {
    forall x ensures x in a <==> x in b {
      assert x in a <==> x in multiset(a);
      assert x in b <==> x in multiset(b);
    }
  }

  lemma PermutedOccurrences(who: string -> string, fold: string -> Option<string>, chosen: map<string, string>,
                            aa: seq<Occurrence>, bb: seq<Occurrence>, index: map<string, Entry>)
    requires multiset(aa) == multiset(bb)
    requires IndexedBy(who, fold, chosen, aa, index)
    ensures IndexedBy(who, fold, chosen, bb, index)
  {
    SpelledOfPermutation(aa, bb);
    SameElements(aa, bb);
    SameElements(Spelled(aa), Spelled(bb));
    SameElementsSameEntries(who, fold, aa, bb);
    forall k | k in index ensures IsEntryFor(who, fold, chosen, bb, k, index[k]) {
      assert IsEntryFor(who, fold, chosen, aa, k, index[k]);
    }
  }

  /** The order the books were read in decides nothing: neither who is listed, nor a count, nor a name. */
  lemma RowOrderDoesNotMatter(r: Reading, a: seq<Credit>, b: seq<Credit>, rows: seq<Alias>)
    requires multiset(a) == multiset(b)
    ensures IndexOf(r, a, rows) == IndexOf(r, b, rows)
  {
    var resolved := Resolved(r.key, AsMap(rows));
    var who, fold, chosen := Meaning(r.key, resolved), FoldKey(r.key, resolved), Chosen(r.key, ResolvedNames(r.key, rows));
    var aa, bb := Occurrences(r.split, a), Occurrences(r.split, b);
    OccurrencesOfPermutation(r.split, a, b);
    PermutedOccurrences(who, fold, chosen, aa, bb, IndexOf(r, a, rows));
    IndexIsUnique(who, fold, chosen, bb, IndexOf(r, a, rows), IndexOf(r, b, rows));
  }

  lemma SameElementsSameEntries(who: string -> string, fold: string -> Option<string>, aa: seq<Occurrence>, bb: seq<Occurrence>)
    requires forall o :: o in aa <==> o in bb
    requires forall s :: s in Spelled(aa) <==> s in Spelled(bb)
    requires multiset(Spelled(aa)) == multiset(Spelled(bb))
    ensures People(who, aa) == People(who, bb)
    ensures forall k :: BooksOf(who, aa, k) == BooksOf(who, bb, k)
    ensures forall k :: CountsOf(who, aa, k) == CountsOf(who, bb, k)
    ensures forall k :: FoldedOf(who, fold, aa, k) == FoldedOf(who, fold, bb, k)
  {
  }
}
