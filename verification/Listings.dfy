/** The index as the list it is shown as: sorted by the heading name, case folded, and then by key. */
module Listings {
  import opened Strings
  import opened Aliases
  import opened Index
  import opened Rules

  /** The index as a list, in whatever order. */
  ghost predicate Lists(entries: seq<Entry>, index: map<string, Entry>)
  {
    Listed(entries) && forall e :: e in entries <==> e.key in index && index[e.key] == e
  }

  predicate ShownBefore(casefold: string -> string, a: Entry, b: Entry)
  {
    Before(casefold(a.name), casefold(b.name)) || (casefold(a.name) == casefold(b.name) && Before(a.key, b.key))
  }

  lemma ShownBeforeIsStrict(casefold: string -> string, a: Entry, b: Entry)
    ensures !(ShownBefore(casefold, a, b) && ShownBefore(casefold, b, a))
    ensures a.key != b.key ==> ShownBefore(casefold, a, b) || ShownBefore(casefold, b, a)
  {
    BeforeIsStrict(casefold(a.name), casefold(b.name));
    BeforeIsStrict(a.key, b.key);
  }

  lemma ShownBeforeIsTransitive(casefold: string -> string, a: Entry, b: Entry, c: Entry)
    requires ShownBefore(casefold, a, b) && ShownBefore(casefold, b, c)
    ensures ShownBefore(casefold, a, c)
  {
    if Before(casefold(a.name), casefold(b.name)) && Before(casefold(b.name), casefold(c.name)) {
      BeforeIsTransitive(casefold(a.name), casefold(b.name), casefold(c.name));
    }
    if Before(a.key, b.key) && Before(b.key, c.key) {
      BeforeIsTransitive(a.key, b.key, c.key);
    }
  }

  ghost predicate IsSorted(casefold: string -> string, entries: seq<Entry>)
  {
    forall i, j :: 0 <= i < j < |entries| ==> ShownBefore(casefold, entries[i], entries[j])
  }

  // ── Sorting ───────────────────────────────────────────────────────────────

  function Insert(casefold: string -> string, e: Entry, sorted: seq<Entry>): seq<Entry>
  {
    if sorted == [] || ShownBefore(casefold, e, sorted[0]) then [e] + sorted
    else [sorted[0]] + Insert(casefold, e, sorted[1..])
  }

  /** `sorted(entries, key=...)`. */
  function Sorted(casefold: string -> string, entries: seq<Entry>): seq<Entry>
  {
    if entries == [] then [] else Insert(casefold, entries[0], Sorted(casefold, entries[1..]))
  }

  lemma {:induction false} InsertSorts(casefold: string -> string, e: Entry, sorted: seq<Entry>)
    requires IsSorted(casefold, sorted) && forall f :: f in sorted ==> f.key != e.key
    ensures IsSorted(casefold, Insert(casefold, e, sorted))
    ensures forall f :: f in Insert(casefold, e, sorted) <==> f == e || f in sorted
  {
    if sorted != [] {
      var first, rest := sorted[0], sorted[1..];
      if ShownBefore(casefold, e, first) {
        forall j | 0 <= j < |sorted| ensures ShownBefore(casefold, e, sorted[j]) {
          if j > 0 { ShownBeforeIsTransitive(casefold, e, first, sorted[j]); }
        }
      } else {
        InsertSorts(casefold, e, rest);
        assert forall f :: f in sorted <==> f == first || f in rest;
        assert first in sorted;
        ShownBeforeIsStrict(casefold, e, first);
        FirstThenSorted(casefold, first, rest, e, Insert(casefold, e, rest));
      }
    }
  }

  lemma FirstThenSorted(casefold: string -> string, first: Entry, rest: seq<Entry>, e: Entry, inserted: seq<Entry>)
    requires IsSorted(casefold, inserted) && ShownBefore(casefold, first, e)
    requires forall f :: f in inserted ==> f == e || f in rest
    requires forall f :: f in rest ==> ShownBefore(casefold, first, f)
    ensures IsSorted(casefold, [first] + inserted)
  {
    forall j | 0 <= j < |inserted| ensures ShownBefore(casefold, first, inserted[j]) {
      assert inserted[j] in inserted;
    }
  }

  lemma {:induction false} SortedSorts(casefold: string -> string, entries: seq<Entry>)
    requires Listed(entries)
    ensures IsSorted(casefold, Sorted(casefold, entries))
    ensures forall f :: f in Sorted(casefold, entries) <==> f in entries
  {
    if entries != [] {
      var rest := entries[1..];
      assert forall i :: 0 <= i < |rest| ==> rest[i] == entries[i + 1];
      SortedSorts(casefold, rest);
      InsertSorts(casefold, entries[0], Sorted(casefold, rest));
      assert forall f :: f in entries <==> f == entries[0] || f in rest;
    }
  }

  lemma SortedIsListed(casefold: string -> string, entries: seq<Entry>)
    requires IsSorted(casefold, entries) && forall e, f :: e in entries && f in entries && e.key == f.key ==> e == f
    ensures Listed(entries)
  {
    forall i, j | 0 <= i < j < |entries| ensures entries[i].key != entries[j].key {
      assert entries[i] in entries && entries[j] in entries;
      ShownBeforeIsStrict(casefold, entries[i], entries[j]);
    }
  }

  /** The list a reader of the index is given. */
  method ListEntries(casefold: string -> string, index: map<string, Entry>) returns (entries: seq<Entry>)
    requires forall k :: k in index ==> index[k].key == k
    ensures Lists(entries, index) && IsSorted(casefold, entries)
    ensures forall i, j :: 0 <= i < j < |entries| ==>
              || Before(casefold(entries[i].name), casefold(entries[j].name))
              || (casefold(entries[i].name) == casefold(entries[j].name) && Before(entries[i].key, entries[j].key))
  {
    var found: seq<Entry> := [];
    var left := index.Keys;
    while left != {}
      invariant left <= index.Keys && Listed(found)
      invariant forall e :: e in found <==> e.key in index.Keys - left && index[e.key] == e
      decreases |left|
    {
      var k :| k in left;
      left := left - {k};
      found := found + [index[k]];
    }
    entries := Sorted(casefold, found);
    SortedSorts(casefold, found);
    SortedIsListed(casefold, entries);
  }

  // ── There is one such list ────────────────────────────────────────────────

  lemma NonEmptyHasAnEntry(entries: seq<Entry>)
    ensures entries == [] || exists e :: e in entries
  {
    if entries != [] {
      assert entries[0] in entries;
    }
  }

  lemma {:induction false} SortedIsUnique(casefold: string -> string, a: seq<Entry>, b: seq<Entry>)
    requires IsSorted(casefold, a) && IsSorted(casefold, b) && forall e :: e in a <==> e in b
    ensures a == b
  {
    NonEmptyHasAnEntry(a);
    NonEmptyHasAnEntry(b);
    if a != [] && b != [] {
      assert a[0] in b && b[0] in a;
      FirstIsFirst(casefold, a, b);
      forall e ensures e in a[1..] <==> e in b[1..] {
        RestIsTheRest(casefold, a, e);
        RestIsTheRest(casefold, b, e);
      }
      SortedIsUnique(casefold, a[1..], b[1..]);
      assert a == [a[0]] + a[1..] && b == [b[0]] + b[1..];
    }
  }

  lemma FirstIsFirst(casefold: string -> string, a: seq<Entry>, b: seq<Entry>)
    requires IsSorted(casefold, a) && IsSorted(casefold, b) && a != [] && b != [] && a[0] in b && b[0] in a
    ensures a[0] == b[0]
  {
    ShownBeforeIsStrict(casefold, a[0], b[0]);
  }

  lemma RestIsTheRest(casefold: string -> string, a: seq<Entry>, e: Entry)
    requires IsSorted(casefold, a) && a != []
    ensures e in a[1..] <==> e in a && e != a[0]
  {
    ShownBeforeIsStrict(casefold, a[0], a[0]);
    if e in a && e != a[0] {
      var i :| 0 <= i < |a| && a[i] == e;
      assert a[1..][i - 1] == e;
    }
  }

  /** The order the books were read in decides nothing of the list either. */
  lemma RowOrderDoesNotShow(r: Reading, casefold: string -> string, a: seq<Credit>, b: seq<Credit>, rows: seq<Alias>,
                            x: seq<Entry>, y: seq<Entry>)
    requires multiset(a) == multiset(b)
    requires Lists(x, IndexOf(r, a, rows)) && IsSorted(casefold, x)
    requires Lists(y, IndexOf(r, b, rows)) && IsSorted(casefold, y)
    ensures x == y
  {
    RowOrderDoesNotMatter(r, a, b, rows);
    SameListings(casefold, IndexOf(r, a, rows), x, y);
  }

  lemma SameListings(casefold: string -> string, index: map<string, Entry>, x: seq<Entry>, y: seq<Entry>)
    requires Lists(x, index) && IsSorted(casefold, x) && Lists(y, index) && IsSorted(casefold, y)
    ensures x == y
  {
    SortedIsUnique(casefold, x, y);
  }
}
