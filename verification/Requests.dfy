/** What the request model of a batch refuses before anything is looked up:
    `AuthorMergeGroup` and `AuthorMergeBatchRequest`. */
module Requests {
  import opened Sequences
  import opened Repoint
  import opened Batches
  import opened Decisions
  import opened Suggest

  const AUTHOR_KEY_MAX := 500
  const AUTHOR_NAME_MAX := 300
  const MAX_MERGE_KEYS := 50
  const MAX_BATCH_KEYS := 1000

  // ── The bounds ────────────────────────────────────────────────────────────

  predicate GroupFits(group: Group)
  {
    && 2 <= |group.keys| <= MAX_MERGE_KEYS
    && (forall i :: 0 <= i < |group.keys| ==> 1 <= |group.keys[i]| <= AUTHOR_KEY_MAX)
    && 1 <= |group.keep| <= AUTHOR_NAME_MAX
  }

  /** How many spellings the groups name between them. */
  function Total(groups: seq<Group>): nat
  {
    if groups == [] then 0 else Total(groups[..|groups| - 1]) + |groups[|groups| - 1].keys|
  }

  predicate Fits(groups: seq<Group>)
  {
    && 1 <= |groups| <= MAX_SUGGESTIONS && Total(groups) <= MAX_BATCH_KEYS
    && forall g :: 0 <= g < |groups| ==> GroupFits(groups[g])
  }

  // ── The rules ─────────────────────────────────────────────────────────────

  predicate KeepsOneOfThem(ak: string -> string, group: Group)
  {
    ak(group.keep) in Requested(ak, group.keys)
  }

  ghost predicate AreUnlike(ak: string -> string, keys: seq<string>)
  {
    forall i, j :: 0 <= i < j < |keys| ==> ak(keys[i]) != ak(keys[j])
  }

  /** No two spellings of the batch have one key, in one group or in two. */
  ghost predicate NobodyTwice(ak: string -> string, groups: seq<Group>)
  {
    && (forall g :: 0 <= g < |groups| ==> AreUnlike(ak, groups[g].keys))
    && (forall g, h :: 0 <= g < h < |groups| ==> Requested(ak, groups[g].keys) !! Requested(ak, groups[h].keys))
  }

  ghost predicate Passes(ak: string -> string, groups: seq<Group>)
  {
    && Fits(groups) && NobodyTwice(ak, groups)
    && forall g :: 0 <= g < |groups| ==> KeepsOneOfThem(ak, groups[g])
  }

  /** What the batch relies on is what the request model holds. */
  lemma PassesIsWellFormed(ak: string -> string, groups: seq<Group>)
    requires Passes(ak, groups)
    ensures WellFormed(ak, PlansOf(ak, groups))
  {
    var plans := PlansOf(ak, groups);
    forall g | 0 <= g < |groups| ensures Keys(plans[g]) == Requested(ak, groups[g].keys) && KeepsOneOfThem(ak, groups[g]) {
      InOrderIsRequested(ak, groups[g].keys);
    }
  }

  // ── What that says of all the spellings ───────────────────────────────────

  /** The spellings the groups name, one list. */
  ghost function Spellings(groups: seq<Group>): seq<string>
  {
    if groups == [] then [] else groups[0].keys + Spellings(groups[1..])
  }

  lemma {:induction false} SpellingsOfBoth(a: seq<Group>, b: seq<Group>)
    ensures Spellings(a + b) == Spellings(a) + Spellings(b)
  {
    if a == [] {
      assert a + b == b;
    } else {
      assert (a + b)[1..] == a[1..] + b;
      SpellingsOfBoth(a[1..], b);
    }
  }

  lemma SpellingsOneMore(groups: seq<Group>, n: nat)
    requires n < |groups|
    ensures Spellings(groups[..n + 1]) == Spellings(groups[..n]) + groups[n].keys
  {
    OneMore(groups, n);
    SpellingsOfBoth(groups[..n], [groups[n]]);
    assert Spellings([groups[n]]) == groups[n].keys + Spellings([]);
  }

  lemma {:induction false} TotalIsAllOfThem(groups: seq<Group>)
    ensures Total(groups) == |Spellings(groups)|
  {
    if groups != [] {
      TotalIsAllOfThem(groups[..|groups| - 1]);
      SpellingsOneMore(groups, |groups| - 1);
      assert groups[..|groups|] == groups;
    }
  }

  lemma {:induction false} SpellingsAreRequested(ak: string -> string, groups: seq<Group>, k: string)
    ensures k in Requested(ak, Spellings(groups)) <==> exists g :: 0 <= g < |groups| && k in Requested(ak, groups[g].keys)
  {
    if groups != [] {
      var rest := groups[1..];
      SpellingsAreRequested(ak, rest, k);
      RequestedOfBoth(ak, groups[0].keys, Spellings(rest));
      if g :| 0 <= g < |groups| && k in Requested(ak, groups[g].keys) {
        assert g > 0 ==> rest[g - 1] == groups[g];
      }
      if g :| 0 <= g < |rest| && k in Requested(ak, rest[g].keys) {
        assert groups[g + 1] == rest[g];
      }
    }
  }

  lemma RequestedOfBoth(ak: string -> string, a: seq<string>, b: seq<string>)
    ensures Requested(ak, a + b) == Requested(ak, a) + Requested(ak, b)
  {
    assert forall k :: k in a + b <==> k in a || k in b;
  }

  lemma UnlikeBoth(ak: string -> string, a: seq<string>, b: seq<string>)
    ensures AreUnlike(ak, a + b) <==> AreUnlike(ak, a) && AreUnlike(ak, b) && Requested(ak, a) !! Requested(ak, b)
  {
    var all := a + b;
    if AreUnlike(ak, all) {
      forall i, j | 0 <= i < j < |a| ensures ak(a[i]) != ak(a[j]) {
        assert ak(all[i]) != ak(all[j]);
      }
      forall i, j | 0 <= i < j < |b| ensures ak(b[i]) != ak(b[j]) {
        assert ak(all[|a| + i]) != ak(all[|a| + j]);
      }
      forall x, y | x in a && y in b ensures ak(x) != ak(y) {
        var i :| 0 <= i < |a| && a[i] == x;
        var j :| 0 <= j < |b| && b[j] == y;
        assert ak(all[i]) != ak(all[|a| + j]);
      }
    }
    if AreUnlike(ak, a) && AreUnlike(ak, b) && Requested(ak, a) !! Requested(ak, b) {
      forall i, j | 0 <= i < j < |all| ensures ak(all[i]) != ak(all[j]) {
        if i < |a| <= j {
          assert a[i] in a && b[j - |a|] in b && ak(a[i]) in Requested(ak, a);
        }
      }
    }
  }

  /** No spelling twice, in one group or in two, is no two of them all alike. */
  lemma {:induction false} NobodyTwiceIsUnlike(ak: string -> string, groups: seq<Group>)
    ensures NobodyTwice(ak, groups) <==> AreUnlike(ak, Spellings(groups))
  {
    if groups != [] {
      var rest := groups[1..];
      NobodyTwiceIsUnlike(ak, rest);
      UnlikeBoth(ak, groups[0].keys, Spellings(rest));
      forall k {
        SpellingsAreRequested(ak, rest, k);
      }
      NobodyTwiceInFront(ak, groups);
    }
  }

  lemma NobodyTwiceInFront(ak: string -> string, groups: seq<Group>)
    requires groups != []
    ensures NobodyTwice(ak, groups)
       <==> NobodyTwice(ak, groups[1..]) && AreUnlike(ak, groups[0].keys)
            && forall k :: k in Requested(ak, groups[0].keys) ==> !(exists h :: 0 <= h < |groups[1..]| && k in Requested(ak, groups[1..][h].keys))
  {
    var rest := groups[1..];
    assert forall g :: 0 <= g < |rest| ==> rest[g] == groups[g + 1];
    assert forall g :: 0 < g < |groups| ==> groups[g] == rest[g - 1];
  }

  /** The request model, whole: one group to a hundred, of two spellings to fifty, a thousand between them;
      none of them empty or longer than 500 characters; no two of them all with one key; and each group's name,
      of one character to 300, with the key of one of its spellings. */
  lemma PassesIs(ak: string -> string, groups: seq<Group>)
    ensures Passes(ak, groups)
       <==> && 1 <= |groups| <= 100 && |Spellings(groups)| <= 1_000
            && (forall i, j :: 0 <= i < j < |Spellings(groups)| ==> ak(Spellings(groups)[i]) != ak(Spellings(groups)[j]))
            && forall g :: 0 <= g < |groups| ==>
                 && 2 <= |groups[g].keys| <= 50 && (forall i :: 0 <= i < |groups[g].keys| ==> 1 <= |groups[g].keys[i]| <= 500)
                 && 1 <= |groups[g].keep| <= 300 && exists k :: k in groups[g].keys && ak(k) == ak(groups[g].keep)
  {
    TotalIsAllOfThem(groups);
    NobodyTwiceIsUnlike(ak, groups);
  }

  // ── Checking them ─────────────────────────────────────────────────────────

  lemma RequestedOneMore(ak: string -> string, keys: seq<string>, i: nat)
    requires i < |keys|
    ensures Requested(ak, keys[..i + 1]) == Requested(ak, keys[..i]) + {ak(keys[i])}
  {
    OneMore(keys, i);
    assert forall k :: k in keys[..i + 1] <==> k in keys[..i] || k == keys[i];
  }

  lemma UnlikeOneMore(ak: string -> string, keys: seq<string>, i: nat)
    requires i < |keys|
    ensures AreUnlike(ak, keys[..i + 1]) <==> AreUnlike(ak, keys[..i]) && ak(keys[i]) !in Requested(ak, keys[..i])
  {
    OneMore(keys, i);
    UnlikeBoth(ak, keys[..i], [keys[i]]);
    assert keys[i] in [keys[i]];
  }

  /** One group's spellings, against those of the groups before it. */
  method CheckKeys(ak: string -> string, keys: seq<string>, earlier: set<string>) returns (passes: bool, seen: set<string>)
    ensures passes <==> AreUnlike(ak, keys) && Requested(ak, keys) !! earlier
    ensures passes ==> seen == earlier + Requested(ak, keys)
  {
    seen := earlier;
    for i := 0 to |keys|
      invariant seen == earlier + Requested(ak, keys[..i])
      invariant AreUnlike(ak, keys[..i]) && Requested(ak, keys[..i]) !! earlier
    {
      RequestedOneMore(ak, keys, i);
      UnlikeOneMore(ak, keys, i);
      if ak(keys[i]) in seen {
        Repeated(ak, keys, i, earlier);
        return false, seen;
      }
      seen := seen + {ak(keys[i])};
    }
    assert keys[..|keys|] == keys;
    passes := true;
  }

  lemma Repeated(ak: string -> string, keys: seq<string>, i: nat, earlier: set<string>)
    requires i < |keys| && (ak(keys[i]) in earlier || ak(keys[i]) in Requested(ak, keys[..i]))
    ensures !AreUnlike(ak, keys) || ak(keys[i]) in Requested(ak, keys) * earlier
  {
    assert keys[i] in keys && keys == keys[..i + 1] + keys[i + 1..];
    UnlikeBoth(ak, keys[..i + 1], keys[i + 1..]);
    UnlikeOneMore(ak, keys, i);
  }

  /** The groups before this one are as they should be. */
  ghost predicate PassesUpTo(ak: string -> string, groups: seq<Group>, n: nat)
    requires n <= |groups|
  {
    AreUnlike(ak, Spellings(groups[..n])) && forall g :: 0 <= g < n ==> KeepsOneOfThem(ak, groups[g])
  }

  lemma PassesOneMore(ak: string -> string, groups: seq<Group>, n: nat)
    requires n < |groups|
    ensures PassesUpTo(ak, groups, n + 1)
       <==> PassesUpTo(ak, groups, n) && KeepsOneOfThem(ak, groups[n]) && AreUnlike(ak, groups[n].keys)
            && Requested(ak, groups[n].keys) !! Requested(ak, Spellings(groups[..n]))
    ensures Requested(ak, Spellings(groups[..n + 1])) == Requested(ak, Spellings(groups[..n])) + Requested(ak, groups[n].keys)
    ensures Passes(ak, groups) ==> PassesUpTo(ak, groups, n + 1)
  {
    SpellingsOneMore(groups, n);
    UnlikeBoth(ak, Spellings(groups[..n]), groups[n].keys);
    RequestedOfBoth(ak, Spellings(groups[..n]), groups[n].keys);
    FrontIsUnlike(ak, groups, n + 1);
  }

  lemma FrontIsUnlike(ak: string -> string, groups: seq<Group>, n: nat)
    requires n <= |groups|
    ensures NobodyTwice(ak, groups) ==> AreUnlike(ak, Spellings(groups[..n]))
  {
    NobodyTwiceIsUnlike(ak, groups);
    assert groups == groups[..n] + groups[n..];
    SpellingsOfBoth(groups[..n], groups[n..]);
    UnlikeBoth(ak, Spellings(groups[..n]), Spellings(groups[n..]));
  }

  /** Whether a batch gets past the request model. */
  method CheckBatch(ak: string -> string, groups: seq<Group>) returns (passes: bool)
    ensures passes <==> Passes(ak, groups)
  {
    if !Fits(groups) {
      return false;
    }
    var seen: set<string> := {};
    for g := 0 to |groups|
      invariant seen == Requested(ak, Spellings(groups[..g])) && PassesUpTo(ak, groups, g)
    {
      PassesOneMore(ak, groups, g);
      if !KeepsOneOfThem(ak, groups[g]) {
        return false;
      }
      passes, seen := CheckKeys(ak, groups[g].keys, seen);
      if !passes {
        return;
      }
    }
    assert groups[..|groups|] == groups;
    NobodyTwiceIsUnlike(ak, groups);
    passes := true;
  }
}
