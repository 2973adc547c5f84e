/** Facts about sequences that the proofs name instead of having the solver search for them.

    None of them says anything about the repository: each is one step a longer proof
    takes often. */
module Sequences {

  lemma Assoc<T>(a: seq<T>, b: seq<T>, c: seq<T>)
    ensures (a + b) + c == a + (b + c)
  {
  }

  lemma OneMore<T>(xs: seq<T>, i: nat)
    requires i < |xs|
    ensures xs[..i + 1] == xs[..i] + [xs[i]]
  {
  }

  lemma InThree<T>(xs: seq<T>, i: nat, j: nat)
    requires i <= j <= |xs|
    ensures xs[..i] + xs[i..j] + xs[j..] == xs
  {
  }

  /** The tail of a tail, where a loop has one element less to go. */
  lemma TailOf<T>(xs: seq<T>, i: nat)
    requires i < |xs|
    ensures xs[i..] != [] && xs[i..][0] == xs[i] && xs[i..][1..] == xs[i + 1..]
  {
  }

  // ── Selections ────────────────────────────────────────────────────────────

  /** The first element that is wanted. */
  ghost predicate IsFirstWanted<T>(xs: seq<T>, wanted: T -> bool, p: nat)
  {
    p < |xs| && wanted(xs[p]) && forall q :: 0 <= q < p ==> !wanted(xs[q])
  }

  /** What is wanted of a list and nothing else, in order, each as `image` has it. */
  ghost predicate IsSelection<T(!new), U>(xs: seq<T>, wanted: T -> bool, image: T -> U, ys: seq<U>)
    decreases |ys|
  {
    if ys == [] then forall p :: 0 <= p < |xs| ==> !wanted(xs[p])
    else exists p: nat :: IsFirstWanted(xs, wanted, p) && ys[0] == image(xs[p]) && IsSelection(xs[p + 1..], wanted, image, ys[1..])
  }

  lemma SelectedInFront<T(!new), U>(x: T, xs: seq<T>, wanted: T -> bool, image: T -> U, ys: seq<U>)
    requires IsSelection(xs, wanted, image, ys)
    ensures IsSelection([x] + xs, wanted, image, (if wanted(x) then [image(x)] else []) + ys)
  {
    if wanted(x) {
      WantedInFront(x, xs, wanted, image, ys);
    } else {
      assert [] + ys == ys;
      UnwantedInFront(x, xs, wanted, image, ys);
    }
  }

  lemma WantedInFront<T(!new), U>(x: T, xs: seq<T>, wanted: T -> bool, image: T -> U, ys: seq<U>)
    requires wanted(x) && IsSelection(xs, wanted, image, ys)
    ensures IsSelection([x] + xs, wanted, image, [image(x)] + ys)
  {
    assert ([x] + xs)[0 + 1..] == xs && ([image(x)] + ys)[1..] == ys;
    assert IsFirstWanted([x] + xs, wanted, 0);
  }

  lemma UnwantedInFront<T(!new), U>(x: T, xs: seq<T>, wanted: T -> bool, image: T -> U, ys: seq<U>)
    requires !wanted(x) && IsSelection(xs, wanted, image, ys)
    ensures IsSelection([x] + xs, wanted, image, ys)
  {
    var more := [x] + xs;
    if ys != [] {
      var p: nat :| IsFirstWanted(xs, wanted, p) && ys[0] == image(xs[p]) && IsSelection(xs[p + 1..], wanted, image, ys[1..]);
      FirstWantedInFront(x, xs, wanted, p);
    }
  }

  lemma FirstWantedInFront<T>(x: T, xs: seq<T>, wanted: T -> bool, p: nat)
    requires !wanted(x) && IsFirstWanted(xs, wanted, p)
    ensures var more := [x] + xs;
            IsFirstWanted(more, wanted, p + 1) && more[p + 1] == xs[p] && more[p + 1 + 1..] == xs[p + 1..]
  {
  }

  /** One more done in place. */
  lemma DoneOneMore<T>(was: seq<T>, all: seq<T>, now: seq<T>, i: nat)
    requires i < |was| == |all| && now == all[..i] + was[i..]
    ensures now[i] == was[i] && now[i := all[i]] == all[..i + 1] + was[i + 1..]
  {
  }
}
