/** The alias map, `alias_key -> canonical_name`, and what following it answers:
    `resolve_alias_map`. A name is compared by its key throughout. */
module Aliases {
  import opened Wrappers

  /** One row of `author_aliases`. */
  datatype Alias = Alias(id: nat, key: string, canonical: string)

  /** The rows as the mapping a lookup uses. */
  function AsMap(rows: seq<Alias>): map<string, string>
  {
    if rows == [] then map[]
    else AsMap(rows[..|rows| - 1])[rows[|rows| - 1].key := rows[|rows| - 1].canonical]
  }

  /** What the unique index on `alias_key` and the primary key promise, read in id order. */
  ghost predicate WellKeyed(rows: seq<Alias>)
  {
    forall i, j :: 0 <= i < j < |rows| ==> rows[i].key != rows[j].key && rows[i].id < rows[j].id
  }

  /** Each row is what a lookup of its key finds. */
  lemma {:induction false} AsMapReads(rows: seq<Alias>, i: nat)
    requires WellKeyed(rows) && i < |rows|
    ensures rows[i].key in AsMap(rows) && AsMap(rows)[rows[i].key] == rows[i].canonical
  {
    var init := rows[..|rows| - 1];
    if i < |init| {
      assert init[i] == rows[i];
      AsMapReads(init, i);
    }
  }

  /** A lookup finds nothing but the rows. */
  lemma {:induction false} AsMapFinds(rows: seq<Alias>, k: string) returns (i: nat)
    requires k in AsMap(rows)
    ensures i < |rows| && rows[i].key == k && AsMap(rows)[k] == rows[i].canonical
  {
    i := |rows| - 1;
    if rows[i].key != k {
      i := AsMapFinds(rows[..|rows| - 1], k);
    }
  }

  /** Nothing follows this name: no row for it, or its row names the same person. */
  predicate Stops(ak: string -> string, m: map<string, string>, name: string)
  {
    ak(name) !in m || ak(m[ak(name)]) == ak(name)
  }

  /** The name reached by following rows, at most `steps` of them. */
  function Chase(ak: string -> string, m: map<string, string>, name: string, steps: nat): string
    decreases steps
  {
    if steps == 0 || Stops(ak, m, name) then name else Chase(ak, m, m[ak(name)], steps - 1)
  }

  function Resolved(ak: string -> string, m: map<string, string>): map<string, string>
  {
    map k | k in m :: Chase(ak, m, m[k], |m|)
  }

  /** The inner loop: one name followed to the end of its chain, or for as many steps as there are rows. */
  method Follow(ak: string -> string, m: map<string, string>, canonical: string) returns (name: string)
    ensures name == Chase(ak, m, canonical, |m|)
  {
    name := canonical;
    var steps := 0;
    while steps < |m|
      invariant 0 <= steps <= |m|
      invariant Chase(ak, m, name, |m| - steps) == Chase(ak, m, canonical, |m|)
    {
      if ak(name) !in m || ak(m[ak(name)]) == ak(name) { break; }
      name := m[ak(name)];
      steps := steps + 1;
    }
  }

  /** `resolve_alias_map`: every row flattened, so that one lookup is always enough. */
  method ResolveAliasMap(ak: string -> string, rows: seq<Alias>) returns (resolved: map<string, string>)
    requires WellKeyed(rows)
    ensures resolved == Resolved(ak, AsMap(rows))
  {
    var m := AsMap(rows);
    resolved := map[];
    for r := 0 to |rows|
      invariant forall i :: 0 <= i < r ==> rows[i].key in resolved
      invariant forall k :: k in resolved ==> k in m && resolved[k] == Chase(ak, m, m[k], |m|)
    {
      AsMapReads(rows, r);
      var name := Follow(ak, m, rows[r].canonical);
      resolved := resolved[rows[r].key := name];
    }
    forall k | k in m ensures k in resolved {
      var i := AsMapFinds(rows, k);
    }
  }

  // ── Where a chain ends ────────────────────────────────────────────────────

  lemma {:induction false} ChaseAdds(ak: string -> string, m: map<string, string>, name: string, i: nat, j: nat)
    ensures Chase(ak, m, name, i + j) == Chase(ak, m, Chase(ak, m, name, i), j)
    decreases i
  {
    if i > 0 && !Stops(ak, m, name) {
      ChaseAdds(ak, m, m[ak(name)], i - 1, j);
    }
  }

  /** Where a chain goes on from depends on the key alone. */
  lemma ChaseFollowsTheKey(ak: string -> string, m: map<string, string>, a: string, b: string, n: nat)
    requires ak(a) == ak(b)
    ensures ak(Chase(ak, m, a, n)) == ak(Chase(ak, m, b, n))
    ensures n > 0 && !Stops(ak, m, a) ==> Chase(ak, m, a, n) == Chase(ak, m, b, n)
  {
  }

  lemma {:induction false} Pigeonhole(keys: seq<string>, holes: set<string>) returns (i: nat, j: nat)
    requires |keys| > |holes| && forall k :: 0 <= k < |keys| ==> keys[k] in holes
    ensures i < j < |keys| && keys[i] == keys[j]
  {
    var last := |keys| - 1;
    if exists k :: 0 <= k < last && keys[k] == keys[last] {
      i :| 0 <= i < last && keys[i] == keys[last];
      j := last;
    } else {
      assert |holes - {keys[last]}| == |holes| - 1;
      i, j := Pigeonhole(keys[..last], holes - {keys[last]});
    }
  }

  /** A chain longer than the table visits some key twice. */
  lemma LongChainRepeats(ak: string -> string, m: map<string, string>, name: string) returns (i: nat, j: nat)
    requires !Stops(ak, m, Chase(ak, m, name, |m|))
    ensures i < j <= |m| && ak(Chase(ak, m, name, i)) == ak(Chase(ak, m, name, j))
  {
    var keys := seq(|m| + 1, k requires 0 <= k <= |m| => ak(Chase(ak, m, name, k)));
    forall k | 0 <= k < |keys| ensures keys[k] in m.Keys {
      ChaseAdds(ak, m, name, k, |m| - k);
    }
    i, j := Pigeonhole(keys, m.Keys);
  }

  /** A chain that has come back to a key goes round from there for ever. */
  lemma {:induction false} RoundAndRound(ak: string -> string, m: map<string, string>, name: string, length: nat, n: nat)
    requires length > 0 && ak(Chase(ak, m, name, length)) == ak(name)
    ensures ak(Chase(ak, m, name, n)) == ak(Chase(ak, m, name, n % length))
    decreases n
  {
    if n >= length {
      ChaseAdds(ak, m, name, length, n - length);
      ChaseFollowsTheKey(ak, m, Chase(ak, m, name, length), name, n - length);
      RoundAndRound(ak, m, name, length, n - length);
      RemainderOfLess(n, length);
    }
  }

  lemma {:induction false} RemainderOfLess(n: nat, d: nat)
    requires 0 < d <= n
    ensures n % d == (n - d) % d
  {
    var less := n - d;
    assert less == d * (less / d) + less % d;
    assert n == d * (n / d) + n % d;
    SmallMultipleIsZero(d, n / d - less / d - 1);
  }

  lemma SmallMultipleIsZero(d: int, k: int)
    requires -d < d * k < d
    ensures k == 0
  {
  }

  /** Any number of round trips leads back. */
  lemma {:induction false} ManyRounds(ak: string -> string, m: map<string, string>, name: string, length: nat, rounds: nat) returns (n: nat)
    requires length > 0 && ak(Chase(ak, m, name, length)) == ak(name)
    ensures n >= rounds && ak(Chase(ak, m, name, n)) == ak(name)
  {
    n := 0;
    if rounds > 0 {
      n := ManyRounds(ak, m, name, length, rounds - 1);
      ChaseAdds(ak, m, name, length, n);
      ChaseFollowsTheKey(ak, m, Chase(ak, m, name, length), name, n);
      n := length + n;
    }
  }

  lemma StopsForGood(ak: string -> string, m: map<string, string>, name: string, i: nat, j: nat)
    requires i <= j && Stops(ak, m, Chase(ak, m, name, i))
    ensures Chase(ak, m, name, j) == Chase(ak, m, name, i)
  {
    ChaseAdds(ak, m, name, i, j - i);
  }

  /** The loop bound is enough: where any number of steps reaches the end of a chain,
      as many as the table has rows do. */
  lemma TableManyStepsAreEnough(ak: string -> string, m: map<string, string>, name: string, n: nat)
    requires Stops(ak, m, Chase(ak, m, name, n))
    ensures Stops(ak, m, Chase(ak, m, name, |m|))
    ensures Chase(ak, m, name, |m|) == Chase(ak, m, name, n)
  {
    if Stops(ak, m, Chase(ak, m, name, |m|)) {
      if n <= |m| { StopsForGood(ak, m, name, n, |m|); } else { StopsForGood(ak, m, name, |m|, n); }
    } else {
      var i, j := LongChainRepeats(ak, m, name);
      var start := Chase(ak, m, name, i);
      ChaseAdds(ak, m, name, i, j - i);
      // The end lies on the round trip from `start`, all of which is inside the first |m| steps.
      var rest := n - i;
      if n <= |m| {
        StopsForGood(ak, m, name, n, |m|);
      } else {
        ChaseAdds(ak, m, name, i, rest);
        RoundAndRound(ak, m, start, j - i, rest);
        var early := rest % (j - i);
        ChaseAdds(ak, m, name, i, early);
        StopsForGood(ak, m, name, i + early, |m|);
      }
    }
  }

  /** A chain that moves on and is back at the key it left after `n` steps. */
  ghost predicate Returns(ak: string -> string, m: map<string, string>, name: string, n: nat)
  {
    n > 0 && !Stops(ak, m, name) && ak(Chase(ak, m, name, n)) == ak(name)
  }

  /** No chain that moves on ever comes back to the key it left. A row naming its own key does not move on. */
  ghost predicate Acyclic(ak: string -> string, m: map<string, string>)
  {
    forall name: string, n: nat :: !Returns(ak, m, name, n)
  }

  ghost predicate EveryChainEnds(ak: string -> string, m: map<string, string>)
  {
    forall name :: Stops(ak, m, Chase(ak, m, name, |m|))
  }

  /** Every row resolves to the end of its chain, exactly on the tables acyclic apart from self rows. */
  lemma ResolutionIsTerminalIffAcyclic(ak: string -> string, m: map<string, string>)
    ensures Acyclic(ak, m) <==> EveryChainEnds(ak, m)
  {
    if Acyclic(ak, m) {
      forall name ensures Stops(ak, m, Chase(ak, m, name, |m|)) {
        AcyclicChainsEnd(ak, m, name);
      }
    }
    if EveryChainEnds(ak, m) {
      forall name: string, n: nat ensures !Returns(ak, m, name, n) {
        assert Stops(ak, m, Chase(ak, m, name, |m|));
        EndedChainsDoNotReturn(ak, m, name, n);
      }
    }
  }

  lemma AcyclicChainsEnd(ak: string -> string, m: map<string, string>, name: string)
    requires Acyclic(ak, m)
    ensures Stops(ak, m, Chase(ak, m, name, |m|))
  {
    if !Stops(ak, m, Chase(ak, m, name, |m|)) {
      var i, j := LongChainRepeats(ak, m, name);
      var start := Chase(ak, m, name, i);
      assert !Returns(ak, m, start, j - i);
      ChaseAdds(ak, m, name, i, j - i);
      ChaseAdds(ak, m, name, i, |m| - i);
    }
  }

  lemma EndedChainsDoNotReturn(ak: string -> string, m: map<string, string>, name: string, n: nat)
    requires Stops(ak, m, Chase(ak, m, name, |m|))
    ensures !Returns(ak, m, name, n)
  {
    if Returns(ak, m, name, n) {
      var far := ManyRounds(ak, m, name, n, |m|);
      StopsForGood(ak, m, name, |m|, far);
    }
  }

  /** A chain is at the same key after `j` steps as after `i`. */
  ghost predicate Recurs(ak: string -> string, m: map<string, string>, name: string, i: nat, j: nat)
  {
    i < j && ak(Chase(ak, m, name, i)) == ak(Chase(ak, m, name, j))
  }

  /** After `tail` steps the chain is for the first time at a key it comes back to, and `length` more
      steps are once round. A chain that ends goes round its last name in one. */
  ghost predicate Enters(ak: string -> string, m: map<string, string>, name: string, tail: nat, length: nat)
  {
    && (forall i: nat, j: nat :: i < tail ==> !Recurs(ak, m, name, i, j))
    && Recurs(ak, m, name, tail, tail + length)
    && (forall j: nat :: j < tail + length ==> !Recurs(ak, m, name, tail, j))
  }

  lemma EveryChainRecurs(ak: string -> string, m: map<string, string>, name: string) returns (i: nat, j: nat)
    ensures i <= |m| && Recurs(ak, m, name, i, j)
  {
    if Stops(ak, m, Chase(ak, m, name, |m|)) {
      i, j := |m|, |m| + 1;
      StopsForGood(ak, m, name, i, j);
    } else {
      i, j := LongChainRepeats(ak, m, name);
    }
  }

  lemma {:induction false} FirstToRecur(ak: string -> string, m: map<string, string>, name: string, i: nat, j: nat) returns (tail: nat, length: nat)
    requires Recurs(ak, m, name, i, j)
    ensures Enters(ak, m, name, tail, length)
    decreases i, j
  {
    if exists a: nat, b: nat :: a < i && Recurs(ak, m, name, a, b) {
      var a: nat, b: nat :| a < i && Recurs(ak, m, name, a, b);
      tail, length := FirstToRecur(ak, m, name, a, b);
    } else if exists b: nat :: b < j && Recurs(ak, m, name, i, b) {
      var b: nat :| b < j && Recurs(ak, m, name, i, b);
      tail, length := FirstToRecur(ak, m, name, i, b);
    } else {
      tail, length := i, j - i;
    }
  }

  /** Every chain enters a cycle, within as many steps as the table has rows. */
  lemma EveryChainEnters(ak: string -> string, m: map<string, string>, name: string) returns (tail: nat, length: nat)
    ensures Enters(ak, m, name, tail, length)
  {
    var i, j := EveryChainRecurs(ak, m, name);
    tail, length := FirstToRecur(ak, m, name, i, j);
  }

  /** A row resolves to the name its chain enters a cycle at exactly where the row count, less the
      steps that lead there, is a multiple of the cycle's length. */
  lemma CycleResolvesToItsEntryIff(ak: string -> string, m: map<string, string>, k: string, tail: nat, length: nat)
    requires k in m && Enters(ak, m, m[k], tail, length)
    ensures tail <= |m| && length > 0
    ensures ak(Resolved(ak, m)[k]) == ak(Chase(ak, m, m[k], tail)) <==> (|m| - tail) % length == 0
  {
    var name := m[k];
    var i, j := EveryChainRecurs(ak, m, name);
    assert !(i < tail);
    var entry, left := Chase(ak, m, name, tail), |m| - tail;
    ChaseAdds(ak, m, name, tail, left);
    ChaseAdds(ak, m, name, tail, length);
    RoundAndRound(ak, m, entry, length, left);
    ChaseAdds(ak, m, name, tail, left % length);
    assert !Recurs(ak, m, name, tail, tail + left % length);
  }

  /** So what is documented of a cycle, that it comes out at its entry, is false of a three
      row table whose cycle has two: the row for `x` enters at `a` and answers `b`. */
  lemma CycleEntryIsNotAlwaysTheAnswer()
    ensures var m := map["x" := "a", "a" := "b", "b" := "a"];
            Resolved(name => name, m)["x"] == "b"
  {
    var ak: string -> string := name => name;
    var m := map["x" := "a", "a" := "b", "b" := "a"];
    assert m.Keys == {"x", "a", "b"} && |m| == 3;
    assert Chase(ak, m, "a", 3) == Chase(ak, m, "b", 2) == Chase(ak, m, "a", 1) == Chase(ak, m, "b", 0);
  }

  // ── A chain as a walk ─────────────────────────────────────────────────────

  /** Each name's own row, where it names somebody else, gives the next. */
  ghost predicate IsWalk(ak: string -> string, m: map<string, string>, walk: seq<string>)
  {
    && walk != []
    && forall i :: 0 <= i < |walk| - 1 ==>
         ak(walk[i]) in m && ak(m[ak(walk[i])]) != ak(walk[i]) && walk[i + 1] == m[ak(walk[i])]
  }

  /** A walk from this name of as many steps as allowed, or to a name that no row takes further. */
  ghost predicate IsFollowed(ak: string -> string, m: map<string, string>, name: string, steps: nat, walk: seq<string>)
  {
    && IsWalk(ak, m, walk) && walk[0] == name && |walk| <= steps + 1
    && (|walk| == steps + 1 || ak(walk[|walk| - 1]) !in m || ak(m[ak(walk[|walk| - 1])]) == ak(walk[|walk| - 1]))
  }

  lemma {:induction false} ChaseIsAWalk(ak: string -> string, m: map<string, string>, name: string, steps: nat) returns (walk: seq<string>)
    ensures IsFollowed(ak, m, name, steps, walk) && walk[|walk| - 1] == Chase(ak, m, name, steps)
    decreases steps
  {
    if steps == 0 || ak(name) !in m || ak(m[ak(name)]) == ak(name) {
      walk := [name];
    } else {
      var rest := ChaseIsAWalk(ak, m, m[ak(name)], steps - 1);
      walk := [name] + rest;
      forall i | 0 <= i < |walk| - 1
        ensures ak(walk[i]) in m && ak(m[ak(walk[i])]) != ak(walk[i]) && walk[i + 1] == m[ak(walk[i])]
      {
        if i > 0 { assert walk[i] == rest[i - 1] && walk[i + 1] == rest[i]; }
      }
    }
  }

  lemma {:induction false} WalkIsTheChase(ak: string -> string, m: map<string, string>, name: string, steps: nat, walk: seq<string>)
    requires IsFollowed(ak, m, name, steps, walk)
    ensures walk[|walk| - 1] == Chase(ak, m, name, steps)
    decreases steps
  {
    if |walk| > 1 {
      var rest := walk[1..];
      assert walk[1] == m[ak(walk[0])];
      forall i | 0 <= i < |rest| - 1
        ensures ak(rest[i]) in m && ak(m[ak(rest[i])]) != ak(rest[i]) && rest[i + 1] == m[ak(rest[i])]
      {
        assert rest[i] == walk[i + 1] && rest[i + 1] == walk[i + 2];
      }
      WalkIsTheChase(ak, m, m[ak(name)], steps - 1, rest);
    }
  }

  /** Whom a spelling means: itself where there is no row for it, and otherwise whoever stands at the end
      of the walk from its row's name, of as many steps as there are rows. */
  ghost predicate Means(ak: string -> string, m: map<string, string>, spelling: string, k: string)
  {
    if ak(spelling) !in m then k == ak(spelling)
    else exists walk :: IsFollowed(ak, m, m[ak(spelling)], |m|, walk) && ak(walk[|walk| - 1]) == k
  }

  lemma MeansThroughTheMap(ak: string -> string, m: map<string, string>, spelling: string, k: string)
    ensures Means(ak, m, spelling, k) <==> Person(ak, Resolved(ak, m), ak(spelling)) == k
  {
    if ak(spelling) in m {
      var found := ChaseIsAWalk(ak, m, m[ak(spelling)], |m|);
      if walk :| IsFollowed(ak, m, m[ak(spelling)], |m|, walk) && ak(walk[|walk| - 1]) == k {
        WalkIsTheChase(ak, m, m[ak(spelling)], |m|, walk);
      }
    }
  }

  // ── The flat table ────────────────────────────────────────────────────────

  /** Following a row's name one hop further never changes the person. */
  ghost predicate Flat(ak: string -> string, m: map<string, string>)
  {
    forall k :: k in m ==> Stops(ak, m, m[k])
  }

  /** On a flat table the rows already are their own resolution, to the letter. */
  lemma FlatIsResolved(ak: string -> string, m: map<string, string>)
    requires Flat(ak, m)
    ensures Resolved(ak, m) == m
  {
    forall k | k in m ensures Chase(ak, m, m[k], |m|) == m[k] {
    }
  }

  /** The person a spelling's key means, through a resolved map. */
  function Person(ak: string -> string, resolved: map<string, string>, key: string): string
  {
    if key in resolved then ak(resolved[key]) else key
  }

  /** On a table acyclic apart from self rows, nobody a key resolves to means anybody else. */
  lemma PersonIsSettled(ak: string -> string, m: map<string, string>, key: string)
    requires Acyclic(ak, m)
    ensures var r := Resolved(ak, m); Person(ak, r, Person(ak, r, key)) == Person(ak, r, key)
  {
    var r := Resolved(ak, m);
    if key in m {
      var end := Chase(ak, m, m[key], |m|);
      AcyclicChainsEnd(ak, m, m[key]);
      if ak(end) in m {
        assert Stops(ak, m, m[ak(end)]);
        assert Chase(ak, m, m[ak(end)], |m|) == m[ak(end)];
      }
    }
  }

  lemma FlatIsAcyclic(ak: string -> string, m: map<string, string>)
    requires Flat(ak, m)
    ensures Acyclic(ak, m)
  {
    forall name: string, n: nat ensures !Returns(ak, m, name, n) {
      if n > 0 && !Stops(ak, m, name) {
        assert Chase(ak, m, name, n) == Chase(ak, m, m[ak(name)], n - 1) == m[ak(name)];
      }
    }
  }
}
