/** Grouping by a label, and comparing pairs within each group under a shared budget:
    what the suggestion rules are built from. */
module Buckets {
  import opened Sequences

  /** One thing and the label it is filed under. */
  datatype Item<T> = Item(tag: string, value: T)

  /** Everything under one label, in the order it was filed. */
  function Bucket<T>(items: seq<Item<T>>, tag: string): seq<T>
  {
    if items == [] then []
    else Bucket(items[..|items| - 1], tag)
         + (if items[|items| - 1].tag == tag then [items[|items| - 1].value] else [])
  }

  /** The labels, each once, in the order first met. */
  function Tags<T>(items: seq<Item<T>>): (tags: seq<string>)
    ensures forall i, j :: 0 <= i < j < |tags| ==> tags[i] != tags[j]
    ensures forall l :: l in tags <==> exists i :: 0 <= i < |items| && items[i].tag == l
  {
    if items == [] then []
    else
      var tags := Tags(items[..|items| - 1]);
      var l := items[|items| - 1].tag;
      if l in tags then tags else tags + [l]
  }

  function BucketsOf<T>(items: seq<Item<T>>): (buckets: seq<seq<T>>)
    ensures |buckets| == |Tags(items)|
  {
    var tags := Tags(items);
    seq(|tags|, i requires 0 <= i < |tags| => Bucket(items, tags[i]))
  }

  /** Filling a dictionary of lists, one append an item. */
  method Fill<T>(items: seq<Item<T>>) returns (tags: seq<string>, buckets: seq<seq<T>>)
    ensures tags == Tags(items) && buckets == BucketsOf(items)
  {
    tags := [];
    var lists: map<string, seq<T>> := map[];
    for i := 0 to |items|
      invariant tags == Tags(items[..i])
      invariant forall l :: l in lists <==> l in tags
      invariant forall l :: l in lists ==> lists[l] == Bucket(items[..i], l)
    {
      assert items[..i + 1][..i] == items[..i];
      var item := items[i];
      if item.tag !in lists {
        UntaggedIsEmpty(items[..i], item.tag);
        tags := tags + [item.tag];
        lists := lists[item.tag := []];
      }
      lists := lists[item.tag := lists[item.tag] + [item.value]];
    }
    assert items[..|items|] == items;
    buckets := seq(|tags|, i requires 0 <= i < |tags| && tags[i] in lists => lists[tags[i]]);
  }

  lemma {:induction false} UntaggedIsEmpty<T>(items: seq<Item<T>>, tag: string)
    requires forall i :: 0 <= i < |items| ==> items[i].tag != tag
    ensures Bucket(items, tag) == []
  {
    if items != [] {
      UntaggedIsEmpty(items[..|items| - 1], tag);
    }
  }

  ghost predicate IsFirstTagged<T>(items: seq<Item<T>>, tag: string, p: int)
  {
    0 <= p < |items| && items[p].tag == tag && forall q :: 0 <= q < p ==> items[q].tag != tag
  }

  /** The labels stand in the order each was first met. */
  lemma {:induction false} TagsAreInOrder<T>(items: seq<Item<T>>, a: nat, b: nat) returns (p: nat, q: nat)
    requires a <= b < |Tags(items)|
    ensures IsFirstTagged(items, Tags(items)[a], p) && IsFirstTagged(items, Tags(items)[b], q) && (a < b ==> p < q)
  {
    var init, n := items[..|items| - 1], |items| - 1;
    if b < |Tags(init)| {
      p, q := TagsAreInOrder(init, a, b);
    } else if a < b {
      p, q := TagsAreInOrder(init, a, a);
      q := n;
    } else {
      p, q := n, n;
    }
  }

  // ── Pairs ─────────────────────────────────────────────────────────────────

  /** One thing against each of the rest. */
  function RowOf<T>(x: T, rest: seq<T>): (pairs: seq<(T, T)>)
    ensures |pairs| == |rest|
  {
    seq(|rest|, i requires 0 <= i < |rest| => (x, rest[i]))
  }

  /** Every pair of a list, earlier against later. */
  function PairsIn<T>(xs: seq<T>): seq<(T, T)>
  {
    if xs == [] then [] else RowOf(xs[0], xs[1..]) + PairsIn(xs[1..])
  }

  /** Where a pair comes in the comparing: the first of the list against each of the rest, then the second. */
  lemma {:induction false} PairComesAt<T>(xs: seq<T>, i: nat, j: nat) returns (at: nat)
    requires i < j < |xs|
    ensures 2 * at == i * (2 * |xs| - i - 1) + 2 * (j - i - 1)
    ensures at < |PairsIn(xs)| && PairsIn(xs)[at] == (xs[i], xs[j])
  {
    if i == 0 {
      at := j - 1;
    } else {
      at := PairComesAt(xs[1..], i - 1, j - 1);
      RowsAdd(i, |xs|);
      at := at + (|xs| - 1);
    }
  }

  lemma RowsAdd(i: int, n: int)
    ensures i * (2 * n - i - 1) == (i - 1) * (2 * (n - 1) - (i - 1) - 1) + 2 * (n - 1)
  {
  }

  const MAX_BUCKET := 200

  /** Every pair an unlimited budget would compare: bucket by bucket, an oversized one skipped whole. */
  function Compared<T>(buckets: seq<seq<T>>): seq<(T, T)>
  {
    if buckets == [] then []
    else (if |buckets[0]| > MAX_BUCKET then [] else PairsIn(buckets[0])) + Compared(buckets[1..])
  }

  function Accepted<T>(accept: (T, T) -> bool, pairs: seq<(T, T)>): seq<(T, T)>
  {
    if pairs == [] then []
    else
      var init, last := pairs[..|pairs| - 1], pairs[|pairs| - 1];
      Accepted(accept, init) + (if accept(last.0, last.1) then [last] else [])
  }

  /** How many of `n` comparisons a budget allows. */
  function Allowed(left: int, n: nat): (k: nat)
    ensures k <= n
  {
    if left <= 0 then 0 else if left < n then left else n
  }

  /** What a pass may still spend on comparing pairs, whichever rule asks. */
  class Budget {
    var left: int

    constructor (left: int)
      ensures this.left == left
    {
      this.left := left;
    }

    method Spend() returns (spent: bool)
      modifies this
      ensures spent <==> old(left) > 0
      ensures left == if spent then old(left) - 1 else old(left)
    {
      if left <= 0 { return false; }
      left := left - 1;
      spent := true;
    }
  }

  /** What comparing `pairs` in order under a budget of `was` finds and leaves. */
  ghost predicate Spent<T>(accept: (T, T) -> bool, pairs: seq<(T, T)>, was: int, found: seq<(T, T)>, left: int)
  {
    var k := Allowed(was, |pairs|);
    found == Accepted(accept, pairs[..k]) && left == was - k
  }

  lemma {:induction false} AcceptedOfConcat<T>(accept: (T, T) -> bool, a: seq<(T, T)>, b: seq<(T, T)>)
    ensures Accepted(accept, a + b) == Accepted(accept, a) + Accepted(accept, b)
  {
    if b == [] {
      assert a + b == a;
    } else {
      assert (a + b)[..|a + b| - 1] == a + b[..|b| - 1];
      AcceptedOfConcat(accept, a, b[..|b| - 1]);
    }
  }

  /** Comparing one stretch after another is comparing the two in a row; a stretch cut short ends it. */
  lemma SpentInARow<T>(accept: (T, T) -> bool, a: seq<(T, T)>, b: seq<(T, T)>, was: int, found: seq<(T, T)>, left: int,
                       more: seq<(T, T)>, rest: int)
    requires Spent(accept, a, was, found, left)
    requires if Allowed(was, |a|) < |a| then more == [] && rest == left else Spent(accept, b, left, more, rest)
    ensures Spent(accept, a + b, was, found + more, rest)
  {
    var ka, kb := Allowed(was, |a|), Allowed(left, |b|);
    if ka < |a| {
      assert (a + b)[..ka] == a[..ka];
    } else {
      assert a[..ka] == a && (a + b)[..ka + kb] == a + b[..kb];
      AcceptedOfConcat(accept, a, b[..kb]);
    }
  }

  /** What has been compared so far, all of it paid for, and what is still to be. */
  ghost predicate IsUnderWay<T>(accept: (T, T) -> bool, all: seq<(T, T)>, done: seq<(T, T)>, rest: seq<(T, T)>, was: int,
                                found: seq<(T, T)>, left: int)
  {
    done + rest == all && Spent(accept, done, was, found, left) && Allowed(was, |done|) == |done|
  }

  lemma OneMoreStretch<T>(accept: (T, T) -> bool, all: seq<(T, T)>, done: seq<(T, T)>, here: seq<(T, T)>, rest: seq<(T, T)>, was: int,
                          found: seq<(T, T)>, left: int, more: seq<(T, T)>, now: int)
    requires IsUnderWay(accept, all, done, here + rest, was, found, left) && Spent(accept, here, left, more, now)
    ensures Allowed(left, |here|) == |here| ==> IsUnderWay(accept, all, done + here, rest, was, found + more, now)
    ensures Allowed(left, |here|) < |here| ==> Spent(accept, all, was, found + more, now) && Allowed(was, |all|) < |all|
  {
    SpentInARow(accept, done, here, was, found, left, more, now);
    Assoc(done, here, rest);
    if Allowed(left, |here|) < |here| {
      SpentInARow(accept, done + here, rest, was, found + more, now, [], now);
      assert (found + more) + [] == found + more;
    }
  }

  method CompareRow<T>(x: T, rest: seq<T>, accept: (T, T) -> bool, budget: Budget) returns (found: seq<(T, T)>, spent: bool)
    modifies budget
    ensures Spent(accept, RowOf(x, rest), old(budget.left), found, budget.left)
    ensures spent <==> Allowed(old(budget.left), |rest|) == |rest|
  {
    found := [];
    ghost var row := RowOf(x, rest);
    for j := 0 to |rest|
      invariant j == Allowed(old(budget.left), j) && budget.left == old(budget.left) - j
      invariant found == Accepted(accept, row[..j])
    {
      spent := budget.Spend();
      if !spent { return; }
      assert row[..j + 1][..j] == row[..j];
      if accept(x, rest[j]) {
        found := found + [(x, rest[j])];
      }
    }
    spent := true;
  }

  method CompareBucket<T>(xs: seq<T>, accept: (T, T) -> bool, budget: Budget) returns (found: seq<(T, T)>, spent: bool)
    modifies budget
    ensures Spent(accept, PairsIn(xs), old(budget.left), found, budget.left)
    ensures spent <==> Allowed(old(budget.left), |PairsIn(xs)|) == |PairsIn(xs)|
  {
    found := [];
    ghost var done: seq<(T, T)> := [];
    assert xs[0..] == xs;
    for i := 0 to |xs|
      invariant IsUnderWay(accept, PairsIn(xs), done, PairsIn(xs[i..]), old(budget.left), found, budget.left)
    {
      TailOf(xs, i);
      ghost var was, row, rest := budget.left, RowOf(xs[i], xs[i + 1..]), PairsIn(xs[i + 1..]);
      var more;
      more, spent := CompareRow(xs[i], xs[i + 1..], accept, budget);
      OneMoreStretch(accept, PairsIn(xs), done, row, rest, old(budget.left), found, was, more, budget.left);
      found := found + more;
      done := done + row;
      if !spent { return; }
    }
    assert done == PairsIn(xs);
    spent := true;
  }

  /** The pairwise loops of the two rules that compare: what is found is what the test
      accepts of as many pairs as the budget allows, and exactly those are paid for. */
  method ComparePairs<T>(buckets: seq<seq<T>>, accept: (T, T) -> bool, budget: Budget) returns (found: seq<(T, T)>)
    modifies budget
    ensures Spent(accept, Compared(buckets), old(budget.left), found, budget.left)
  {
    found := [];
    ghost var done: seq<(T, T)> := [];
    assert buckets[0..] == buckets;
    for b := 0 to |buckets|
      invariant IsUnderWay(accept, Compared(buckets), done, Compared(buckets[b..]), old(budget.left), found, budget.left)
    {
      TailOf(buckets, b);
      if |buckets[b]| > MAX_BUCKET { continue; }
      ghost var was, here, rest := budget.left, PairsIn(buckets[b]), Compared(buckets[b + 1..]);
      var more, spent := CompareBucket(buckets[b], accept, budget);
      OneMoreStretch(accept, Compared(buckets), done, here, rest, old(budget.left), found, was, more, budget.left);
      found := found + more;
      done := done + here;
      if !spent { return; }
    }
    assert done == Compared(buckets);
  }

  // ── What the loops promise ────────────────────────────────────────────────

  lemma {:induction false} AcceptedIsFiltered<T>(accept: (T, T) -> bool, pairs: seq<(T, T)>)
    ensures forall p :: p in Accepted(accept, pairs) <==> p in pairs && accept(p.0, p.1)
  {
    if pairs != [] {
      AcceptedIsFiltered(accept, pairs[..|pairs| - 1]);
      assert pairs == pairs[..|pairs| - 1] + [pairs[|pairs| - 1]];
    }
  }

  lemma {:induction false} AcceptedOfPrefix<T>(accept: (T, T) -> bool, pairs: seq<(T, T)>, j: nat, k: nat)
    requires j <= k <= |pairs|
    ensures Accepted(accept, pairs[..j]) <= Accepted(accept, pairs[..k])
  {
    if j < k {
      AcceptedOfPrefix(accept, pairs, j, k - 1);
      assert pairs[..k][..k - 1] == pairs[..k - 1];
    }
  }

  /** With the buckets visited in one order, a smaller budget finds a prefix of what a larger one finds. */
  lemma SmallerBudgetFindsAPrefix<T>(accept: (T, T) -> bool, buckets: seq<seq<T>>, small: int, large: int)
    requires small <= large
    ensures var all := Compared(buckets);
            Accepted(accept, all[..Allowed(small, |all|)]) <= Accepted(accept, all[..Allowed(large, |all|)])
  {
    var all := Compared(buckets);
    AcceptedOfPrefix(accept, all, Allowed(small, |all|), Allowed(large, |all|));
  }

  /** Two places in a list, the first before the second. */
  ghost predicate PairAt<T>(xs: seq<T>, x: T, y: T, i: int, j: int)
  {
    0 <= i < j < |xs| && xs[i] == x && xs[j] == y
  }

  lemma {:induction false} PairsAreAllPairs<T>(xs: seq<T>, x: T, y: T)
    ensures (x, y) in PairsIn(xs) <==> exists i, j :: PairAt(xs, x, y, i, j)
  {
    if xs != [] {
      var row, rest := RowOf(xs[0], xs[1..]), xs[1..];
      PairsAreAllPairs(rest, x, y);
      if (x, y) in row {
        var j :| 0 <= j < |row| && row[j] == (x, y);
        assert PairAt(xs, x, y, 0, j + 1);
      }
      if i, j :| PairAt(rest, x, y, i, j) {
        assert PairAt(xs, x, y, i + 1, j + 1);
      }
      if i, j :| PairAt(xs, x, y, i, j) {
        if i == 0 {
          assert row[j - 1] == (x, y);
        } else {
          assert PairAt(rest, x, y, i - 1, j - 1);
        }
      }
    }
  }

  lemma {:induction false} ComparedIsInABucket<T>(buckets: seq<seq<T>>, p: (T, T))
    ensures p in Compared(buckets) <==> exists b :: 0 <= b < |buckets| && |buckets[b]| <= 200 && p in PairsIn(buckets[b])
  {
    if buckets != [] {
      ComparedIsInABucket(buckets[1..], p);
      if b :| 0 <= b < |buckets| - 1 && |buckets[1..][b]| <= 200 && p in PairsIn(buckets[1..][b]) {
        assert p in PairsIn(buckets[b + 1]);
      }
      if b :| 0 <= b < |buckets| && |buckets[b]| <= 200 && p in PairsIn(buckets[b]) {
        assert b > 0 ==> buckets[1..][b - 1] == buckets[b];
      }
    }
  }

  /** Two items under this label, the first filed before the second. */
  ghost predicate FiledAt<T>(items: seq<Item<T>>, tag: string, x: T, y: T, i: int, j: int)
  {
    0 <= i < j < |items| && items[i] == Item(tag, x) && items[j] == Item(tag, y)
  }

  /** Where an item under this label went. */
  lemma {:induction false} BucketPlace<T>(items: seq<Item<T>>, tag: string, i: nat) returns (at: nat)
    requires i < |items| && items[i].tag == tag
    ensures at < |Bucket(items, tag)| && Bucket(items, tag)[at] == items[i].value
    ensures at == |Bucket(items[..i], tag)|
  {
    var init := items[..|items| - 1];
    if i == |items| - 1 {
      at := |Bucket(init, tag)|;
    } else {
      at := BucketPlace(init, tag, i);
      assert init[..i] == items[..i];
    }
  }

  lemma {:induction false} BucketGrows<T>(items: seq<Item<T>>, tag: string, i: nat, j: nat)
    requires i < j <= |items| && items[i].tag == tag
    ensures |Bucket(items[..i], tag)| < |Bucket(items[..j], tag)|
  {
    assert items[..j][..j - 1] == items[..j - 1];
    if i < j - 1 {
      BucketGrows(items, tag, i, j - 1);
    } 
  }

  /** Where a bucket's pair came from. */
  lemma {:induction false} PairWasFiled<T>(items: seq<Item<T>>, tag: string, a: nat, b: nat) returns (i: nat, j: nat)
    requires a < b < |Bucket(items, tag)|
    ensures FiledAt(items, tag, Bucket(items, tag)[a], Bucket(items, tag)[b], i, j)
  {
    var init, last := items[..|items| - 1], |items| - 1;
    if b < |Bucket(init, tag)| {
      i, j := PairWasFiled(init, tag, a, b);
    } else {
      i := ItemWasFiled(init, tag, a);
      j := last;
    }
  }

  lemma {:induction false} ItemWasFiled<T>(items: seq<Item<T>>, tag: string, a: nat) returns (i: nat)
    requires a < |Bucket(items, tag)|
    ensures i < |items| && items[i] == Item(tag, Bucket(items, tag)[a])
  {
    var init := items[..|items| - 1];
    if a < |Bucket(init, tag)| {
      i := ItemWasFiled(init, tag, a);
    } else {
      i := |items| - 1;
    }
  }

  lemma BucketPairsAreFiled<T>(items: seq<Item<T>>, tag: string, x: T, y: T)
    ensures (x, y) in PairsIn(Bucket(items, tag)) <==> exists i, j :: FiledAt(items, tag, x, y, i, j)
  {
    var bucket := Bucket(items, tag);
    PairsAreAllPairs(bucket, x, y);
    if a, b :| PairAt(bucket, x, y, a, b) {
      var i, j := PairWasFiled(items, tag, a, b);
    }
    if i, j :| FiledAt(items, tag, x, y, i, j) {
      var a := BucketPlace(items, tag, i);
      var b := BucketPlace(items, tag, j);
      BucketGrows(items, tag, i, j);
      assert PairAt(bucket, x, y, a, b);
    }
  }

  ghost predicate NoneOversized<T>(items: seq<Item<T>>)
  {
    forall l :: |Bucket(items, l)| <= 200
  }

  /** Bucketing agrees with comparing everything with everything: it never compares a pair that
      shares no tag, and with no bucket oversized it misses no pair that does. */
  lemma BucketingIsAllPairs<T>(items: seq<Item<T>>, x: T, y: T)
    ensures (x, y) in Compared(BucketsOf(items)) ==> exists l, i, j :: FiledAt(items, l, x, y, i, j)
    ensures NoneOversized(items) && (exists l, i, j :: FiledAt(items, l, x, y, i, j)) ==> (x, y) in Compared(BucketsOf(items))
  {
    var buckets, tags := BucketsOf(items), Tags(items);
    ComparedIsInABucket(buckets, (x, y));
    if (x, y) in Compared(buckets) {
      var b :| 0 <= b < |buckets| && (x, y) in PairsIn(buckets[b]);
      BucketPairsAreFiled(items, tags[b], x, y);
      var i, j :| FiledAt(items, tags[b], x, y, i, j);
    }
    if NoneOversized(items) {
      if l, i, j :| FiledAt(items, l, x, y, i, j) {
        BucketPairsAreFiled(items, l, x, y);
        assert l in tags;
        var b :| 0 <= b < |tags| && tags[b] == l;
        assert buckets[b] == Bucket(items, l) && |buckets[b]| <= 200;
      }
    }
  }
}
