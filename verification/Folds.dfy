/** Folding repeats away in insertion order, which is what a Python dict keeps: the loop the
    subjects, the headings and the author identifiers of a record all go through. */
module Folds {

  /** The elements each at its first occurrence, in order. */
  function Distinct<T(==)>(xs: seq<T>): seq<T>
  {
    if xs == [] then []
    else
      var before := Distinct(xs[..|xs| - 1]);
      if xs[|xs| - 1] in before then before else before + [xs[|xs| - 1]]
  }

  function Keys<T, K>(xs: seq<T>, key: T -> K): (keys: seq<K>)
    ensures |keys| == |xs|
  {
    seq(|xs|, i requires 0 <= i < |xs| => key(xs[i]))
  }

  ghost predicate AreDistinct<T(!new)>(xs: seq<T>)
  {
    forall i, j :: 0 <= i < j < |xs| ==> xs[i] != xs[j]
  }

  lemma {:induction false} DistinctIsDistinct<T(!new)>(xs: seq<T>)
    ensures AreDistinct(Distinct(xs)) && forall x :: x in Distinct(xs) <==> x in xs
  {
    if xs != [] {
      DistinctIsDistinct(xs[..|xs| - 1]);
    }
  }

  function IndexOf<T, K(==)>(xs: seq<T>, key: T -> K, k: K): (i: nat)
    ensures i <= |xs| && (i < |xs| ==> key(xs[i]) == k)
    ensures forall j :: 0 <= j < i ==> key(xs[j]) != k
  {
    if xs == [] then 0 else if key(xs[0]) == k then 0 else 1 + IndexOf(xs[1..], key, k)
  }

  /** One element more: into the one that has its key, or after the rest. */
  function Put<T, K(==)>(kept: seq<T>, x: T, key: T -> K, fill: (T, T) -> T): seq<T>
  {
    var i := IndexOf(kept, key, key(x));
    if i < |kept| then kept[i := fill(kept[i], x)] else kept + [x]
  }

  /** One element for each key, in the order of their first occurrences, filled in by the later ones. */
  function Gathered<T, K(==)>(xs: seq<T>, key: T -> K, fill: (T, T) -> T): seq<T>
  {
    if xs == [] then [] else Put(Gathered(xs[..|xs| - 1], key, fill), xs[|xs| - 1], key, fill)
  }

  ghost predicate KeepsTheKey<T(!new), K>(key: T -> K, fill: (T, T) -> T)
  {
    forall a, b :: key(a) == key(b) ==> key(fill(a, b)) == key(a)
  }

  /** The keys come out each once, in first occurrence order. */
  lemma {:induction false} GatheredKeys<T(!new), K(!new)>(xs: seq<T>, key: T -> K, fill: (T, T) -> T)
    requires KeepsTheKey(key, fill)
    ensures Keys(Gathered(xs, key, fill), key) == Distinct(Keys(xs, key))
    ensures AreDistinct(Keys(Gathered(xs, key, fill), key))
  {
    DistinctIsDistinct(Keys(xs, key));
    if xs != [] {
      var before, x := xs[..|xs| - 1], xs[|xs| - 1];
      GatheredKeys(before, key, fill);
      var kept := Gathered(before, key, fill);
      assert Keys(xs, key)[..|xs| - 1] == Keys(before, key);
      var i := IndexOf(kept, key, key(x));
      if i < |kept| {
        assert Keys(kept, key)[i] == key(x);
        assert Keys(Put(kept, x, key, fill), key) == Keys(kept, key);
      } else {
        assert forall j :: 0 <= j < |kept| ==> Keys(kept, key)[j] == key(kept[j]);
        assert Keys(kept + [x], key) == Keys(kept, key) + [key(x)];
      }
    }
  }

  /** Where no key repeats there is nothing to fold. */
  lemma {:induction false} GatheredIsItself<T(!new), K(!new)>(xs: seq<T>, key: T -> K, fill: (T, T) -> T)
    requires AreDistinct(Keys(xs, key))
    ensures Gathered(xs, key, fill) == xs
  {
    if xs != [] {
      var before, x := xs[..|xs| - 1], xs[|xs| - 1];
      assert Keys(before, key) == Keys(xs, key)[..|xs| - 1];
      GatheredIsItself(before, key, fill);
      forall j | 0 <= j < |before| ensures key(before[j]) != key(x) {
        assert Keys(xs, key)[j] != Keys(xs, key)[|xs| - 1];
      }
      IndexIs(before, key, key(x), |before|);
    }
  }

  /** Folding twice is folding once. */
  lemma GatheredTwice<T(!new), K(!new)>(xs: seq<T>, key: T -> K, fill: (T, T) -> T)
    requires KeepsTheKey(key, fill)
    ensures Gathered(Gathered(xs, key, fill), key, fill) == Gathered(xs, key, fill)
  {
    GatheredKeys(xs, key, fill);
    GatheredIsItself(Gathered(xs, key, fill), key, fill);
  }

  /** The dict of the loop: where the element of each key is. */
  ghost predicate Places<T, K(!new)>(kept: seq<T>, at: map<K, nat>, key: T -> K)
  {
    forall k :: (k in at <==> IndexOf(kept, key, k) < |kept|) && (k in at ==> at[k] == IndexOf(kept, key, k))
  }

  /** The loop: a dict in insertion order. */
  method Gather<T(!new), K(==,!new)>(xs: seq<T>, key: T -> K, fill: (T, T) -> T) returns (kept: seq<T>)
    requires KeepsTheKey(key, fill)
    ensures kept == Gathered(xs, key, fill)
  {
    var at: map<K, nat> := map[];
    kept := [];
    var i := 0;
    while i < |xs|
      invariant i <= |xs| && kept == Gathered(xs[..i], key, fill) && Places(kept, at, key)
    {
      var k := key(xs[i]);
      assert xs[..i + 1][..i] == xs[..i];
      PutByPlace(kept, at, xs[i], key, fill);
      if k in at {
        kept := kept[at[k] := fill(kept[at[k]], xs[i])];
      } else {
        at := at[k := |kept|];
        kept := kept + [xs[i]];
      }
      i := i + 1;
    }
    assert xs[..|xs|] == xs;
  }

  lemma PutByPlace<T(!new), K(!new)>(kept: seq<T>, at: map<K, nat>, x: T, key: T -> K, fill: (T, T) -> T)
    requires Places(kept, at, key) && KeepsTheKey(key, fill)
    ensures key(x) in at ==> at[key(x)] < |kept|
    ensures key(x) in at ==>
              var i := at[key(x)];
              Put(kept, x, key, fill) == kept[i := fill(kept[i], x)] && Places(kept[i := fill(kept[i], x)], at, key)
    ensures key(x) !in at ==> Put(kept, x, key, fill) == kept + [x] && Places(kept + [x], at[key(x) := |kept|], key)
  {
    if key(x) in at {
      FillKeepsPlaces(kept, at[key(x)], fill(kept[at[key(x)]], x), key);
    } else {
      AppendKeepsPlaces(kept, x, key);
    }
  }

  lemma IndexIs<T, K>(xs: seq<T>, key: T -> K, k: K, i: nat)
    requires i <= |xs| && (i < |xs| ==> key(xs[i]) == k)
    requires forall j :: 0 <= j < i ==> key(xs[j]) != k
    ensures IndexOf(xs, key, k) == i
  {
  }

  lemma FillKeepsPlaces<T, K(!new)>(kept: seq<T>, i: nat, x: T, key: T -> K)
    requires i < |kept| && key(x) == key(kept[i])
    ensures forall k :: IndexOf(kept[i := x], key, k) == IndexOf(kept, key, k)
  {
    forall k ensures IndexOf(kept[i := x], key, k) == IndexOf(kept, key, k) {
      IndexIs(kept[i := x], key, k, IndexOf(kept, key, k));
    }
  }

  lemma AppendKeepsPlaces<T, K(!new)>(kept: seq<T>, x: T, key: T -> K)
    requires IndexOf(kept, key, key(x)) == |kept|
    ensures forall k :: IndexOf(kept + [x], key, k)
                        == if k == key(x) || IndexOf(kept, key, k) < |kept| then IndexOf(kept, key, k) else |kept| + 1
  {
    forall k ensures IndexOf(kept + [x], key, k)
                     == if k == key(x) || IndexOf(kept, key, k) < |kept| then IndexOf(kept, key, k) else |kept| + 1 {
      var i := IndexOf(kept, key, k);
      IndexIs(kept + [x], key, k, if k == key(x) || i < |kept| then i else |kept| + 1);
    }
  }

  // ── Grouping ──────────────────────────────────────────────────────────────

  function With<T, K(==)>(xs: seq<T>, key: T -> K, k: K): seq<T>
  {
    if xs == [] then []
    else
      var before := With(xs[..|xs| - 1], key, k);
      if key(xs[|xs| - 1]) == k then before + [xs[|xs| - 1]] else before
  }

  /** The elements group by group, each group in order. */
  function Grouped<T, K(==)>(xs: seq<T>, key: T -> K, groups: seq<K>): seq<T>
  {
    if groups == [] then [] else Grouped(xs, key, groups[..|groups| - 1]) + With(xs, key, groups[|groups| - 1])
  }

  lemma {:induction false} WithHasOnly<T, K>(xs: seq<T>, key: T -> K, k: K)
    ensures forall x :: x in With(xs, key, k) <==> x in xs && key(x) == k
  {
    if xs != [] {
      WithHasOnly(xs[..|xs| - 1], key, k);
      assert forall x :: x in xs <==> x in xs[..|xs| - 1] || x == xs[|xs| - 1];
    }
  }

  lemma {:induction false} WithOfConcat<T, K>(a: seq<T>, b: seq<T>, key: T -> K, k: K)
    ensures With(a + b, key, k) == With(a, key, k) + With(b, key, k)
  {
    if b == [] {
      assert a + b == a;
    } else {
      assert (a + b)[..|a + b| - 1] == a + b[..|b| - 1];
      WithOfConcat(a, b[..|b| - 1], key, k);
    }
  }

  lemma {:induction false} WithOfWith<T, K>(xs: seq<T>, key: T -> K, k: K, l: K)
    ensures With(With(xs, key, k), key, l) == if k == l then With(xs, key, k) else []
  {
    if xs != [] {
      var before, x := xs[..|xs| - 1], xs[|xs| - 1];
      WithOfWith(before, key, k, l);
      if key(x) == k {
        WithOfConcat(With(before, key, k), [x], key, l);
      }
    }
  }

  lemma {:induction false} WithOfGrouped<T, K(!new)>(xs: seq<T>, key: T -> K, groups: seq<K>, k: K)
    requires AreDistinct(groups)
    ensures With(Grouped(xs, key, groups), key, k) == if k in groups then With(xs, key, k) else []
  {
    if groups != [] {
      var before, last := groups[..|groups| - 1], groups[|groups| - 1];
      WithOfGrouped(xs, key, before, k);
      WithOfConcat(Grouped(xs, key, before), With(xs, key, last), key, k);
      WithOfWith(xs, key, last, k);
      assert k in groups <==> k in before || k == last;
      assert last !in before;
    }
  }

  lemma {:induction false} GroupedAlike<T, K>(xs: seq<T>, ys: seq<T>, key: T -> K, groups: seq<K>)
    requires forall k :: k in groups ==> With(xs, key, k) == With(ys, key, k)
    ensures Grouped(xs, key, groups) == Grouped(ys, key, groups)
  {
    if groups != [] {
      GroupedAlike(xs, ys, key, groups[..|groups| - 1]);
    }
  }

  /** Grouping what is grouped changes nothing. */
  lemma GroupedTwice<T, K(!new)>(xs: seq<T>, key: T -> K, groups: seq<K>)
    requires AreDistinct(groups)
    ensures Grouped(Grouped(xs, key, groups), key, groups) == Grouped(xs, key, groups)
  {
    forall k | k in groups ensures With(Grouped(xs, key, groups), key, k) == With(xs, key, k) {
      WithOfGrouped(xs, key, groups, k);
    }
    GroupedAlike(Grouped(xs, key, groups), xs, key, groups);
  }

  lemma {:induction false} DistinctOfConcat<T(!new)>(a: seq<T>, b: seq<T>, x: T)
    requires b != [] && x !in a && forall y :: y in b ==> y == x
    ensures Distinct(a + b) == Distinct(a) + [x]
  {
    DistinctIsDistinct(a);
    assert (a + b)[..|a + b| - 1] == a + b[..|b| - 1] && b[|b| - 1] in b;
    if |b| > 1 {
      forall i | 0 <= i < |b| ensures b[i] == x {
        assert b[i] in b;
      }
      DistinctOfConcat(a, b[..|b| - 1], x);
    } else {
      assert a + b[..|b| - 1] == a;
    }
  }

  /** The groups come out in the order they were named. */
  lemma {:induction false} KeysOfGrouped<T(!new), K(!new)>(xs: seq<T>, key: T -> K, groups: seq<K>)
    requires AreDistinct(groups) && forall k :: k in groups ==> With(xs, key, k) != []
    ensures Distinct(Keys(Grouped(xs, key, groups), key)) == groups
  {
    if groups != [] {
      var before, last := groups[..|groups| - 1], groups[|groups| - 1];
      assert groups == before + [last] && last in groups && last !in before;
      assert forall k :: k in before ==> k in groups;
      KeysOfGrouped(xs, key, before);
      var a, b := Grouped(xs, key, before), With(xs, key, last);
      WithHasOnly(xs, key, last);
      KeysOfOneMoreGroup(a, b, key, last);
    }
  }

  lemma KeysOfOneMoreGroup<T(!new), K(!new)>(a: seq<T>, b: seq<T>, key: T -> K, last: K)
    requires b != [] && last !in Distinct(Keys(a, key)) && forall x :: x in b ==> key(x) == last
    ensures Distinct(Keys(a + b, key)) == Distinct(Keys(a, key)) + [last]
  {
    assert Keys(a + b, key) == Keys(a, key) + Keys(b, key);
    DistinctIsDistinct(Keys(a, key));
    forall i | 0 <= i < |b| ensures Keys(b, key)[i] == last {
      assert b[i] in b;
    }
    DistinctOfConcat(Keys(a, key), Keys(b, key), last);
  }
}
