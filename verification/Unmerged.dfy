/** A shelf of one book by each of some names, before anybody has merged any of them.

    With no row in the table everybody is listed under the key of their own name, and nobody
    else can be asked for. */
module Unmerged {
  import opened Wrappers
  import opened Strings
  import opened Spelling
  import opened Aliases
  import opened Index
  import opened Repoint
  import opened Decisions

  lemma NobodyIsFolded(who: string -> string, fold: string -> Option<string>, chosen: map<string, string>, occ: seq<Occurrence>,
                       index: map<string, Entry>)
    requires IndexedBy(who, fold, chosen, occ, index) && forall s :: fold(s).None?
    ensures index.Keys == People(who, occ) == ReachableIn(index)
  {
    forall k | k in index ensures index[k].folded == {} {
      assert FoldedOf(who, fold, occ, k) == {};
    }
  }

  lemma SamePeople(a: string -> string, b: string -> string, occ: seq<Occurrence>)
    requires forall s :: a(s) == b(s)
    ensures People(a, occ) == People(b, occ)
  {
    forall k ensures k in People(a, occ) <==> k in People(b, occ) {
      if k in People(a, occ) { var o :| o in occ && a(o.spelling) == k; assert b(o.spelling) == k; }
      if k in People(b, occ) { var o :| o in occ && b(o.spelling) == k; assert a(o.spelling) == k; }
    }
  }

  /** With no row in the table, everybody printed is listed under their own key, and nobody else can be
      asked for. */
  lemma NothingIsFoldedYet(r: Reading, shelf: seq<Credit>)
    ensures IndexOf(r, shelf, []).Keys == People(r.key, Occurrences(r.split, shelf)) == ReachableIn(IndexOf(r, shelf, []))
  {
    var resolved, occ := Resolved(r.key, AsMap([])), Occurrences(r.split, shelf);
    assert resolved == map[];
    NobodyIsFolded(Meaning(r.key, resolved), FoldKey(r.key, resolved), Chosen(r.key, ResolvedNames(r.key, [])), occ, IndexOf(r, shelf, []));
    SamePeople(Meaning(r.key, resolved), r.key, occ);
  }

  /** One book by each. */
  function OneEach(names: seq<string>): (shelf: seq<Credit>)
    ensures |shelf| == |names|
  {
    seq(|names|, i requires 0 <= i < |names| => Credit(i, Some(names[i])))
  }

  lemma {:induction false} OneOccurrenceEach(split: Option<string> -> seq<string>, names: seq<string>)
    requires forall n :: n in names ==> split(Some(n)) == [n]
    ensures Spelled(Occurrences(split, OneEach(names))) == names
    ensures forall i :: 0 <= i < |names| ==> Occurrences(split, OneEach(names))[i] == Occurrence(i, names[i])
  {
    if names != [] {
      var last := |names| - 1;
      assert OneEach(names)[..last] == OneEach(names[..last]);
      OneOccurrenceEach(split, names[..last]);
      assert names[last] in names;
      assert names == names[..last] + [names[last]];
    }
  }

  lemma PeopleAreSpelled(who: string -> string, occ: seq<Occurrence>, k: string)
    ensures k in People(who, occ) <==> exists s :: s in Spelled(occ) && who(s) == k
  {
    if k in People(who, occ) {
      var o :| o in occ && who(o.spelling) == k;
      var i :| 0 <= i < |occ| && occ[i] == o;
      assert Spelled(occ)[i] == o.spelling;
    }
    if s :| s in Spelled(occ) && who(s) == k {
      var i :| 0 <= i < |occ| && Spelled(occ)[i] == s;
      assert occ[i] in occ;
    }
  }

  /** Its people are those names' keys. */
  lemma OneEachIsIndexed(r: Reading, names: seq<string>)
    requires forall n :: n in names ==> r.split(Some(n)) == [n]
    ensures IndexOf(r, OneEach(names), []).Keys == Requested(r.key, names) == ReachableIn(IndexOf(r, OneEach(names), []))
  {
    var occ := Occurrences(r.split, OneEach(names));
    NothingIsFoldedYet(r, OneEach(names));
    OneOccurrenceEach(r.split, names);
    forall k ensures k in People(r.key, occ) <==> k in Requested(r.key, names) {
      PeopleAreSpelled(r.key, occ, k);
    }
  }

  lemma NothingIsChosen(ak: string -> string)
    ensures Resolved(ak, AsMap([])) == map[] && Chosen(ak, ResolvedNames(ak, [])) == map[]
  {
    assert ResolvedNames(ak, []) == [];
  }

  /** An entry with the books its key's occurrences say, headed by one of their spellings. */
  ghost predicate IsPrinted(key: string -> string, occ: seq<Occurrence>, k: string, e: Entry)
  {
    e.books == BooksOf(key, occ, k) && e.name in Spelled(occ) && key(e.name) == k
  }

  lemma EntryIsPrinted(r: Reading, shelf: seq<Credit>, k: string)
    requires k in IndexOf(r, shelf, [])
    ensures IsPrinted(r.key, Occurrences(r.split, shelf), k, IndexOf(r, shelf, [])[k])
  {
    var resolved := Resolved(r.key, AsMap([]));
    NothingIsChosen(r.key);
    UnchosenEntry(Meaning(r.key, resolved), FoldKey(r.key, resolved), Chosen(r.key, ResolvedNames(r.key, [])),
                  Occurrences(r.split, shelf), IndexOf(r, shelf, []), k, r.key);
  }

  lemma UnchosenEntry(who: string -> string, fold: string -> Option<string>, chosen: map<string, string>, occ: seq<Occurrence>,
                      index: map<string, Entry>, k: string, key: string -> string)
    requires IndexedBy(who, fold, chosen, occ, index) && k in index && chosen == map[]
    requires forall s :: who(s) == key(s)
    ensures IsPrinted(key, occ, k, index[k])
  {
    assert IsEntryFor(who, fold, chosen, occ, k, index[k]);
    assert index[k].name in CountsOf(who, occ, k);
    SameBooks(who, key, occ, k);
  }

  lemma SameBooks(a: string -> string, b: string -> string, occ: seq<Occurrence>, k: string)
    requires forall s :: a(s) == b(s)
    ensures BooksOf(a, occ, k) == BooksOf(b, occ, k)
  {
    forall o | o in occ ensures a(o.spelling) == b(o.spelling) {
    }
  }

  /** The books of one of these names are the places it is listed at. */
  lemma OneEachBooks(r: Reading, names: seq<string>, k: string)
    requires forall n :: n in names ==> r.split(Some(n)) == [n]
    requires k in IndexOf(r, OneEach(names), [])
    ensures IndexOf(r, OneEach(names), [])[k].books == set i | 0 <= i < |names| && r.key(names[i]) == k
    ensures IndexOf(r, OneEach(names), [])[k].name in names && r.key(IndexOf(r, OneEach(names), [])[k].name) == k
  {
    EntryIsPrinted(r, OneEach(names), k);
    OneOccurrenceEach(r.split, names);
    BooksByPlace(r.key, Occurrences(r.split, OneEach(names)), names, k);
  }

  lemma BooksByPlace(who: string -> string, occ: seq<Occurrence>, names: seq<string>, k: string)
    requires |occ| == |names| && forall i :: 0 <= i < |names| ==> occ[i] == Occurrence(i, names[i])
    ensures BooksOf(who, occ, k) == set i | 0 <= i < |names| && who(names[i]) == k
  {
    forall b ensures b in BooksOf(who, occ, k) <==> 0 <= b < |names| && who(names[b]) == k {
      if b in BooksOf(who, occ, k) {
        var o :| o in occ && who(o.spelling) == k && o.book == b;
        var i :| 0 <= i < |occ| && occ[i] == o;
      }
      if 0 <= b < |names| && who(names[b]) == k {
        assert occ[b] in occ;
      }
    }
  }

  /** A line that is one clean name splits into it. */
  lemma LineOfOneName(u: Unicode, name: string)
    requires u.isSpace(' ') && Clean(u, name) && NAME_SEPARATOR !in name && name != "" && AuthorKey(u, name) != ""
    ensures SplitCredit(u, Some(name)) == [name]
  {
    SplitJoin(NAME_SEPARATOR, [name]);
    CleanIsTidy(u, name);
    assert [name][1..] == [];
    assert NamesIn(Tidier(u), Keyer(u), [name], {}) == [name] + NamesIn(Tidier(u), Keyer(u), [name][1..], {AuthorKey(u, name)});
  }
}
