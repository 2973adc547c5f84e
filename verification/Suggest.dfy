/** `suggest_merges`: the rules' edges, the groups they connect, and the cut that is shown. */
module Suggest {
  import opened Strings
  import opened Index
  import opened Buckets
  import opened Rules
  import opened AllPairs
  import opened Forest

  const MAX_COMPARISONS := 200_000
  const MAX_SUGGESTIONS := 100

  /** A group to merge, with the headings of its members and the rules its pairs came from. */
  datatype Suggestion = Suggestion(keys: seq<string>, names: seq<string>, reasons: set<Reason>)

  /** Every rule. */
  const DEFAULT_MATCHER: set<Reason> := {Identity, Spelling, Initials, Fragment}

  predicate SpendsBudget(rule: Reason)
  {
    rule == Initials || rule == Fragment
  }

  /** Only the rules no shelf can starve. */
  const EXACT_MATCHER: set<Reason> := set rule | rule in DEFAULT_MATCHER && !SpendsBudget(rule)

  // ── The edges ─────────────────────────────────────────────────────────────

  /** What the initials rule leaves of the budget for the fragment rule. */
  function LeftForFragments(ak: string -> string, entries: seq<Entry>, rules: set<Reason>, allowance: int): int
  {
    if Initials in rules then allowance - Allowed(allowance, |SurnamePairs(ak, entries)|) else allowance
  }

  /** Every edge the chosen rules find, in the order they run. */
  function EdgesFor(naming: Naming, entries: seq<Entry>, spines: map<string, set<string>>, rules: set<Reason>, allowance: int): seq<Edge>
  {
    (if Identity in rules then IdentityEdges(entries, spines) else [])
    + (if Spelling in rules then SpellingEdges(naming.key, entries) else [])
    + (if Initials in rules then InitialsEdges(naming.key, entries, allowance) else [])
    + (if Fragment in rules then FragmentEdges(naming, entries, LeftForFragments(naming.key, entries, rules, allowance)) else [])
  }

  /** The pairs the chosen rules would compare with nothing in their way. */
  function PairsOffered(naming: Naming, entries: seq<Entry>, rules: set<Reason>): nat
  {
    (if Initials in rules then |SurnamePairs(naming.key, entries)| else 0)
    + (if Fragment in rules then |WordPairs(naming, entries)| else 0)
  }

  /** The rules in order, under one budget. What a budget has left after them is what it had, less every
      pair they offer, and nothing where they offer more: the whole pass never compares more pairs
      than the budget, whatever the shelf. */
  method RunRules(naming: Naming, entries: seq<Entry>, spines: map<string, set<string>>, rules: set<Reason>, budget: Budget) returns (edges: seq<Edge>)
    requires budget.left >= 0
    modifies budget
    ensures edges == EdgesFor(naming, entries, spines, rules, old(budget.left))
    ensures var offered := PairsOffered(naming, entries, rules);
            budget.left == if offered <= old(budget.left) then old(budget.left) - offered else 0
  {
    var identity, spelling, initials, fragment: seq<Edge> := [], [], [], [];
    if Identity in rules {
      identity := EdgesOnIdentity(entries, spines);
    }
    if Spelling in rules {
      spelling := EdgesOnSquashedKey(naming.key, entries);
    }
    if Initials in rules {
      initials := EdgesOnInitials(naming.key, entries, budget);
    }
    assert budget.left == LeftForFragments(naming.key, entries, rules, old(budget.left));
    if Fragment in rules {
      fragment := EdgesOnFragments(naming, entries, budget);
    }
    edges := identity + spelling + initials + fragment;
  }

  // ── What one choice of rules finds against another ────────────────────────

  lemma StarsAreFor(buckets: seq<seq<string>>, reason: Reason)
    ensures forall e :: e in Stars(buckets, reason) ==> e.reason == reason
  {
    StarsJoinBuckets(buckets, reason);
  }

  lemma PickedByReason(a: seq<Edge>, b: seq<Edge>, c: seq<Edge>, d: seq<Edge>, e: Edge)
    requires e in a ==> e.reason == Identity
    requires e in b ==> e.reason == Spelling
    requires e in c ==> e.reason == Initials
    requires e in d ==> e.reason == Fragment
    ensures e in a + b + c + d <==> match e.reason case Identity => e in a case Spelling => e in b case Initials => e in c case Fragment => e in d
  {
  }

  /** Every edge is its own rule's. */
  lemma EdgesByReason(naming: Naming, entries: seq<Entry>, spines: map<string, set<string>>, rules: set<Reason>, allowance: int, e: Edge)
    ensures e in EdgesFor(naming, entries, spines, rules, allowance)
       <==> e.reason in rules
            && match e.reason
               case Identity => e in IdentityEdges(entries, spines)
               case Spelling => e in SpellingEdges(naming.key, entries)
               case Initials => e in InitialsEdges(naming.key, entries, allowance)
               case Fragment => e in FragmentEdges(naming, entries, LeftForFragments(naming.key, entries, rules, allowance))
  {
    StarsAreFor(BucketsOf(Filed(FileIdentity(spines), entries)), Identity);
    StarsAreFor(BucketsOf(Filed(FileSquashed(naming.key), entries)), Spelling);
    var left := LeftForFragments(naming.key, entries, rules, allowance);
    PickedByReason(
      if Identity in rules then IdentityEdges(entries, spines) else [],
      if Spelling in rules then SpellingEdges(naming.key, entries) else [],
      if Initials in rules then InitialsEdges(naming.key, entries, allowance) else [],
      if Fragment in rules then FragmentEdges(naming, entries, left) else [], e);
  }

  /** A rule that spends nothing finds the same whatever the others are, and whatever the budget is. */
  lemma ExactRulesFindTheSame(naming: Naming, entries: seq<Entry>, spines: map<string, set<string>>, rule: Reason,
                              a: set<Reason>, few: int, b: set<Reason>, many: int, e: Edge)
    requires !SpendsBudget(rule) && rule in a && rule in b && e.reason == rule
    ensures e in EdgesFor(naming, entries, spines, a, few) <==> e in EdgesFor(naming, entries, spines, b, many)
  {
    EdgesByReason(naming, entries, spines, a, few, e);
    EdgesByReason(naming, entries, spines, b, many, e);
  }

  /** So the exact matcher finds nothing the default does not. */
  lemma ExactEdgesAreDefaultEdges(naming: Naming, entries: seq<Entry>, spines: map<string, set<string>>, allowance: int)
    ensures forall e :: e in EdgesFor(naming, entries, spines, EXACT_MATCHER, allowance) ==>
              e in EdgesFor(naming, entries, spines, DEFAULT_MATCHER, allowance)
  {
  }

  /** The fragment rule's test accepts this pair and draws this edge for it. */
  ghost predicate DrawsAt(pairs: seq<(Worded, Worded)>, i: int, e: Edge)
  {
    && 0 <= i < |pairs| && OneInsideOther(pairs[i].0, pairs[i].1)
    && e == Edge(pairs[i].0.key, pairs[i].1.key, Fragment)
  }

  lemma FragmentsAreDrawn(naming: Naming, entries: seq<Entry>, left: int, e: Edge)
    ensures e in FragmentEdges(naming, entries, left)
       <==> exists i :: 0 <= i < Allowed(left, |WordPairs(naming, entries)|) && DrawsAt(WordPairs(naming, entries), i, e)
  {
    var pairs := WordPairs(naming, entries);
    var within := pairs[..Allowed(left, |pairs|)];
    var found := Accepted(OneInsideOther, within);
    AcceptedIsFiltered(OneInsideOther, within);
    if e in FragmentsFound(found) {
      var j :| 0 <= j < |found| && FragmentsFound(found)[j] == e;
      assert found[j] in within;
      var i :| 0 <= i < |within| && within[i] == found[j];
      assert DrawsAt(pairs, i, e);
    }
    if i :| 0 <= i < |within| && DrawsAt(pairs, i, e) {
      assert within[i] in found;
      var j :| 0 <= j < |found| && found[j] == within[i];
      assert FragmentsFound(found)[j] == e;
    }
  }

  /** Dropping rules leaves the survivors more of the budget: a rule that is kept finds everything it found. */
  lemma NarrowerIsNoWeaker(naming: Naming, entries: seq<Entry>, spines: map<string, set<string>>, few: set<Reason>, many: set<Reason>,
                           allowance: int, e: Edge)
    requires few <= many && e.reason in few && e in EdgesFor(naming, entries, spines, many, allowance)
    ensures e in EdgesFor(naming, entries, spines, few, allowance)
  {
    EdgesByReason(naming, entries, spines, many, allowance, e);
    EdgesByReason(naming, entries, spines, few, allowance, e);
    if e.reason == Fragment {
      var less, more := LeftForFragments(naming.key, entries, many, allowance), LeftForFragments(naming.key, entries, few, allowance);
      FragmentsAreDrawn(naming, entries, less, e);
      FragmentsAreDrawn(naming, entries, more, e);
    }
  }

  /** How far the fragment rule gets by itself. */
  function Alone(naming: Naming, entries: seq<Entry>, allowance: int): nat
  {
    Allowed(allowance, |WordPairs(naming, entries)|)
  }

  /** And how far it gets behind the initials rule. */
  function Behind(naming: Naming, entries: seq<Entry>, allowance: int): nat
  {
    Allowed(LeftForFragments(naming.key, entries, DEFAULT_MATCHER, allowance), |WordPairs(naming, entries)|)
  }

  /** Every pair the initials rule leaves no budget for is refused by the test, or draws an edge already drawn. */
  ghost predicate NothingIsLost(naming: Naming, entries: seq<Entry>, allowance: int)
  {
    var pairs := WordPairs(naming, entries);
    forall i, e :: Behind(naming, entries, allowance) <= i < Alone(naming, entries, allowance) && DrawsAt(pairs, i, e) ==>
      exists j :: 0 <= j < Behind(naming, entries, allowance) && DrawsAt(pairs, j, e)
  }

  /** Everything these rules find, the default finds. */
  ghost predicate FindsNoMore(naming: Naming, entries: seq<Entry>, spines: map<string, set<string>>, rules: set<Reason>, allowance: int)
  {
    forall e :: e in EdgesFor(naming, entries, spines, rules, allowance) ==> e in EdgesFor(naming, entries, spines, DEFAULT_MATCHER, allowance)
  }

  /** A choice of rules finds only what the default finds if and only if it leaves the fragment rule out,
      or keeps the initials rule before it, or loses nothing by the initials rule going first. */
  lemma NarrowerFindsLessIff(naming: Naming, entries: seq<Entry>, spines: map<string, set<string>>, rules: set<Reason>, allowance: int)
    ensures FindsNoMore(naming, entries, spines, rules, allowance)
       <==> Fragment !in rules || Initials in rules || NothingIsLost(naming, entries, allowance)
  {
    if Fragment !in rules || Initials in rules {
      NarrowerFindsLess(naming, entries, spines, rules, allowance);
    } else {
      if NothingIsLost(naming, entries, allowance) {
        forall e | e in EdgesFor(naming, entries, spines, rules, allowance)
          ensures e in EdgesFor(naming, entries, spines, DEFAULT_MATCHER, allowance)
        {
          FragmentFoundBehind(naming, entries, spines, rules, allowance, e);
        }
      }
      if FindsNoMore(naming, entries, spines, rules, allowance) {
        LosesNothing(naming, entries, spines, rules, allowance);
      }
    }
  }

  lemma NarrowerFindsLess(naming: Naming, entries: seq<Entry>, spines: map<string, set<string>>, rules: set<Reason>, allowance: int)
    requires Fragment !in rules || Initials in rules
    ensures FindsNoMore(naming, entries, spines, rules, allowance)
  {
    forall e | e in EdgesFor(naming, entries, spines, rules, allowance)
      ensures e in EdgesFor(naming, entries, spines, DEFAULT_MATCHER, allowance)
    {
      EdgesByReason(naming, entries, spines, rules, allowance, e);
      EdgesByReason(naming, entries, spines, DEFAULT_MATCHER, allowance, e);
    }
  }

  lemma FragmentFoundBehind(naming: Naming, entries: seq<Entry>, spines: map<string, set<string>>, rules: set<Reason>, allowance: int, e: Edge)
    requires Initials !in rules && NothingIsLost(naming, entries, allowance)
    requires e in EdgesFor(naming, entries, spines, rules, allowance)
    ensures e in EdgesFor(naming, entries, spines, DEFAULT_MATCHER, allowance)
  {
    EdgesByReason(naming, entries, spines, rules, allowance, e);
    EdgesByReason(naming, entries, spines, DEFAULT_MATCHER, allowance, e);
    if e.reason == Fragment {
      FragmentsAreDrawn(naming, entries, allowance, e);
      FragmentsAreDrawn(naming, entries, LeftForFragments(naming.key, entries, DEFAULT_MATCHER, allowance), e);
      var i :| 0 <= i < Alone(naming, entries, allowance) && DrawsAt(WordPairs(naming, entries), i, e);
    }
  }

  lemma LosesNothing(naming: Naming, entries: seq<Entry>, spines: map<string, set<string>>, rules: set<Reason>, allowance: int)
    requires Fragment in rules && Initials !in rules && FindsNoMore(naming, entries, spines, rules, allowance)
    ensures NothingIsLost(naming, entries, allowance)
  {
    var pairs := WordPairs(naming, entries);
    forall i, e | Behind(naming, entries, allowance) <= i < Alone(naming, entries, allowance) && DrawsAt(pairs, i, e)
      ensures exists j :: 0 <= j < Behind(naming, entries, allowance) && DrawsAt(pairs, j, e)
    {
      FragmentsAreDrawn(naming, entries, allowance, e);
      EdgesByReason(naming, entries, spines, rules, allowance, e);
      assert e in EdgesFor(naming, entries, spines, DEFAULT_MATCHER, allowance);
      EdgesByReason(naming, entries, spines, DEFAULT_MATCHER, allowance, e);
      FragmentsAreDrawn(naming, entries, LeftForFragments(naming.key, entries, DEFAULT_MATCHER, allowance), e);
    }
  }

  /** Where the budget covers every comparison, any choice of rules finds only what the default finds. */
  lemma NarrowerFindsLessWithinBudget(naming: Naming, entries: seq<Entry>, spines: map<string, set<string>>, rules: set<Reason>, allowance: int)
    requires PairsOffered(naming, entries, DEFAULT_MATCHER) <= allowance
    ensures FindsNoMore(naming, entries, spines, rules, allowance)
  {
    assert Behind(naming, entries, allowance) == Alone(naming, entries, allowance);
    NarrowerFindsLessIff(naming, entries, spines, rules, allowance);
  }

  /** Past that it can fail: a shelf whose surnames spend the whole budget leaves the default
      no fragment edge at all, where the fragment rule alone still finds what its first
      comparisons accept. */
  lemma SurnamesCanStarveFragments(naming: Naming, entries: seq<Entry>, spines: map<string, set<string>>, allowance: nat, i: nat, e: Edge)
    requires |SurnamePairs(naming.key, entries)| >= allowance
    requires i < allowance && DrawsAt(WordPairs(naming, entries), i, e)
    ensures e in EdgesFor(naming, entries, spines, {Fragment}, allowance)
    ensures e !in EdgesFor(naming, entries, spines, DEFAULT_MATCHER, allowance)
  {
    EdgesByReason(naming, entries, spines, {Fragment}, allowance, e);
    EdgesByReason(naming, entries, spines, DEFAULT_MATCHER, allowance, e);
    FragmentsAreDrawn(naming, entries, allowance, e);
    FragmentsAreDrawn(naming, entries, 0, e);
  }

  // ── Edges join listed names ───────────────────────────────────────────────

  function KeySet(entries: seq<Entry>): set<string>
  {
    set e | e in entries :: e.key
  }

  ghost predicate JoinsListed(entries: seq<Entry>, edges: seq<Edge>)
  {
    forall e :: e in edges ==> e.left in KeySet(entries) && e.right in KeySet(entries)
  }

  lemma TaggedIsListed(file: Entry -> seq<Item<string>>, entries: seq<Entry>, x: string, y: string)
    requires SameTag(file, entries, x, y)
    requires forall e, item :: item in file(e) ==> item.value == e.key
    ensures x in KeySet(entries) && y in KeySet(entries)
  {
    var tag, p, q :| 0 <= p < |entries| && 0 <= q < |entries| && Item(tag, x) in file(entries[p]) && Item(tag, y) in file(entries[q]);
    assert entries[p] in entries && entries[q] in entries;
  }

  lemma StarsJoinListed(file: Entry -> seq<Item<string>>, entries: seq<Entry>, reason: Reason)
    requires forall e, item :: item in file(e) ==> item.value == e.key
    ensures JoinsListed(entries, Stars(BucketsOf(Filed(file, entries)), reason))
  {
    var edges := Stars(BucketsOf(Filed(file, entries)), reason);
    StarsJoinBuckets(BucketsOf(Filed(file, entries)), reason);
    forall e | e in edges ensures e.left in KeySet(entries) && e.right in KeySet(entries) {
      assert e == Edge(e.left, e.right, reason);
      StarsAreSameTag(file, entries, reason, e.left, e.right);
      TaggedIsListed(file, entries, e.left, e.right);
    }
  }

  lemma EdgesJoinListed(naming: Naming, entries: seq<Entry>, spines: map<string, set<string>>, rules: set<Reason>, allowance: int)
    requires WalksWords(naming)
    ensures JoinsListed(entries, EdgesFor(naming, entries, spines, rules, allowance))
  {
    StarsJoinListed(FileIdentity(spines), entries, Identity);
    StarsJoinListed(FileSquashed(naming.key), entries, Spelling);
    InitialsJoinListed(naming.key, entries, allowance);
    FragmentsJoinListed(naming, entries, LeftForFragments(naming.key, entries, rules, allowance));
  }

  lemma InitialsJoinListed(ak: string -> string, entries: seq<Entry>, left: int)
    ensures JoinsListed(entries, InitialsEdges(ak, entries, left))
  {
    forall e | e in InitialsEdges(ak, entries, left) ensures e.left in KeySet(entries) && e.right in KeySet(entries) {
      var p, q := InitialsEdgeIsTested(ak, entries, left, e);
      assert entries[p] in entries && entries[q] in entries;
    }
  }

  lemma FragmentsJoinListed(naming: Naming, entries: seq<Entry>, left: int)
    requires WalksWords(naming)
    ensures JoinsListed(entries, FragmentEdges(naming, entries, left))
  {
    forall e | e in FragmentEdges(naming, entries, left) ensures e.left in KeySet(entries) && e.right in KeySet(entries) {
      var p, q := FragmentEdgeIsTested(naming, entries, left, e);
      assert entries[p] in entries && entries[q] in entries;
    }
  }

  // ── The groups ────────────────────────────────────────────────────────────

  function Links(edges: seq<Edge>): (links: seq<Link<string>>)
    ensures |links| == |edges|
  {
    seq(|edges|, i requires 0 <= i < |edges| => Link(edges[i].left, edges[i].right))
  }

  /** `{entry.key: entry.name for entry in entries}`. */
  function NameBy(entries: seq<Entry>): map<string, string>
  {
    if entries == [] then map[]
    else NameBy(entries[..|entries| - 1])[entries[|entries| - 1].key := entries[|entries| - 1].name]
  }

  lemma {:induction false} NameByReads(entries: seq<Entry>)
    requires Listed(entries)
    ensures NameBy(entries).Keys == KeySet(entries)
    ensures forall e :: e in entries ==> e.key in NameBy(entries) && NameBy(entries)[e.key] == e.name
  {
    if entries != [] {
      var init, last := entries[..|entries| - 1], entries[|entries| - 1];
      NameByReads(init);
      assert forall e :: e in entries <==> e in init || e == last;
      forall e | e in init ensures e.key != last.key {
        var i :| 0 <= i < |init| && init[i] == e;
        assert entries[i] == e;
      }
    }
  }

  ghost predicate ReasonIn(edges: seq<Edge>, keys: seq<string>, reason: Reason)
  {
    exists e :: e in edges && e.reason == reason && e.left in keys
  }

  /** One component of more than one name: its keys in order, their names, and exactly the
      rules that drew an edge inside it. */
  ghost predicate IsGroup(names: map<string, string>, edges: seq<Edge>, g: Suggestion)
  {
    && |g.keys| > 1 && Ascending(g.keys)
    && (forall x :: x in g.keys ==> x in names)
    && (forall x, y :: x in g.keys && y in names ==> (y in g.keys <==> Connected(Links(edges), x, y)))
    && |g.names| == |g.keys| && (forall i :: 0 <= i < |g.keys| ==> g.keys[i] in names && g.names[i] == names[g.keys[i]])
    && (forall reason :: reason in g.reasons <==> ReasonIn(edges, g.keys, reason))
  }

  ghost predicate Disjoint(groups: seq<Suggestion>)
  {
    forall i, j, x :: 0 <= i < j < |groups| && x in groups[i].keys ==> x !in groups[j].keys
  }

  /** The groups are exactly the components of more than one name. */
  ghost predicate IsGrouping(names: map<string, string>, edges: seq<Edge>, groups: seq<Suggestion>)
  {
    && (forall g :: g in groups ==> IsGroup(names, edges, g))
    && (forall x, y :: x in names && y in names && x != y && Connected(Links(edges), x, y) ==> exists g :: g in groups && x in g.keys)
    && Disjoint(groups)
  }

  /** The reasons dictionary: every rule's edges, filed under the root of the group they are in. */
  ghost predicate ReasonsFiled(edges: seq<Edge>, root: map<string, string>, reasons: map<string, set<Reason>>)
  {
    forall t, reason :: (t in reasons && reason in reasons[t]) <==> DrawnAt(edges, root, t, reason)
  }

  ghost predicate DrawnAt(edges: seq<Edge>, root: map<string, string>, t: string, reason: Reason)
  {
    exists e :: e in edges && e.reason == reason && e.left in root && root[e.left] == t
  }

  method FileReasons(forest: Parents<string>, edges: seq<Edge>) returns (reasons: map<string, set<Reason>>)
    requires forest.Valid() && forall e :: e in edges ==> e.left in forest.parent
    modifies forest`parent
    ensures forest.Valid() && forest.parent.Keys == old(forest.parent.Keys)
    ensures ReasonsFiled(edges, forest.root, reasons)
  {
    reasons := map[];
    for i := 0 to |edges|
      invariant forest.Valid() && forest.parent.Keys == old(forest.parent.Keys)
      invariant ReasonsFiled(edges[..i], forest.root, reasons)
    {
      assert edges[i] in edges;
      ghost var was := reasons;
      var top := forest.Find(edges[i].left);
      reasons := reasons[top := (if top in reasons then reasons[top] else {}) + {edges[i].reason}];
      assert edges[..i + 1] == edges[..i] + [edges[i]];
      assert edges[i].left in forest.root by { assert Linked(forest.parent, forest.root, forest.depth, edges[i].left); }
      ReasonFiledOneMore(edges[..i], forest.root, was, edges[i], reasons);
    }
    assert edges[..|edges|] == edges;
  }

  lemma ReasonFiledOneMore(edges: seq<Edge>, root: map<string, string>, was: map<string, set<Reason>>, e: Edge, now: map<string, set<Reason>>)
    requires ReasonsFiled(edges, root, was) && e.left in root
    requires now == was[root[e.left] := (if root[e.left] in was then was[root[e.left]] else {}) + {e.reason}]
    ensures ReasonsFiled(edges + [e], root, now)
  {
    forall t, reason ensures DrawnAt(edges + [e], root, t, reason) <==> DrawnAt(edges, root, t, reason) || (t == root[e.left] && reason == e.reason) {
      if t == root[e.left] && reason == e.reason { assert e in edges + [e]; }
      if d :| d in edges && d.reason == reason && d.left in root && root[d.left] == t { assert d in edges + [e]; }
    }
  }

  function Rooting(root: map<string, string>, entries: seq<Entry>): (items: seq<Item<string>>)
    requires forall e :: e in entries ==> e.key in root
    ensures |items| == |entries|
  {
    seq(|entries|, i requires 0 <= i < |entries| => assert entries[i] in entries; Item(root[entries[i].key], entries[i].key))
  }

  method FileRoots(forest: Parents<string>, entries: seq<Entry>) returns (items: seq<Item<string>>)
    requires forest.Valid() && forall e :: e in entries ==> e.key in forest.parent
    modifies forest`parent
    ensures forest.Valid() && forest.parent.Keys == old(forest.parent.Keys)
    ensures forall e :: e in entries ==> e.key in forest.root
    ensures items == Rooting(forest.root, entries)
  {
    items := [];
    assert forall e :: e in entries ==> e.key in forest.root by {
      forall e | e in entries ensures e.key in forest.root { assert Linked(forest.parent, forest.root, forest.depth, e.key); }
    }
    for i := 0 to |entries|
      invariant forest.Valid() && forest.parent.Keys == old(forest.parent.Keys)
      invariant |items| == i && forall j :: 0 <= j < i ==> items[j] == Rooting(forest.root, entries)[j]
    {
      assert entries[i] in entries;
      var top := forest.Find(entries[i].key);
      items := items + [Item(top, entries[i].key)];
    }
  }

  /** Under each root, the keys of that root. */
  lemma BucketOfRoot(root: map<string, string>, entries: seq<Entry>, t: string, x: string)
    requires forall e :: e in entries ==> e.key in root
    ensures x in Bucket(Rooting(root, entries), t) <==> x in KeySet(entries) && root[x] == t
  {
    var items := Rooting(root, entries);
    var bucket := Bucket(items, t);
    if x in bucket {
      var a :| 0 <= a < |bucket| && bucket[a] == x;
      var i := ItemPlace(items, t, a);
      assert entries[i] in entries;
    }
    if x in KeySet(entries) && root[x] == t {
      var e :| e in entries && e.key == x;
      var i :| 0 <= i < |entries| && entries[i] == e;
      var a := BucketPlace(items, t, i);
    }
  }

  lemma ItemPlace(items: seq<Item<string>>, t: string, a: nat) returns (i: nat)
    requires a < |Bucket(items, t)|
    ensures i < |items| && items[i] == Item(t, Bucket(items, t)[a])
  {
    i := ItemWasFiled(items, t, a);
  }

  lemma BucketHasNoRepeat(root: map<string, string>, entries: seq<Entry>, t: string, a: nat, b: nat)
    requires Listed(entries) && forall e :: e in entries ==> e.key in root
    requires a < b < |Bucket(Rooting(root, entries), t)|
    ensures Bucket(Rooting(root, entries), t)[a] != Bucket(Rooting(root, entries), t)[b]
  {
    var i, j := PairWasFiled(Rooting(root, entries), t, a, b);
  }

  /** What the loops over edges and names leave: the roots stand for the components, and every
      dictionary is filed under them. */
  ghost predicate Grouped(names: map<string, string>, edges: seq<Edge>, root: map<string, string>, reasons: map<string, set<Reason>>,
                        tags: seq<string>, buckets: seq<seq<string>>)
  {
    && Stands(Links(edges), root) && root.Keys == names.Keys && ReasonsFiled(edges, root, reasons)
    && |tags| == |buckets|
    && (forall a, b :: 0 <= a < b < |tags| ==> tags[a] != tags[b])
    && (forall x :: x in names ==> root[x] in tags)
    && (forall b, x :: 0 <= b < |buckets| ==> (x in buckets[b] <==> x in names && root[x] == tags[b]))
    && (forall b, i, j :: 0 <= b < |buckets| && 0 <= i < j < |buckets[b]| ==> buckets[b][i] != buckets[b][j])
  }

  function NamesFor(names: map<string, string>, keys: seq<string>): (found: seq<string>)
    ensures |found| == |keys|
  {
    seq(|keys|, i requires 0 <= i < |keys| => if keys[i] in names then names[keys[i]] else "")
  }

  function GroupOf(names: map<string, string>, reasons: map<string, set<Reason>>, tag: string, bucket: seq<string>): Suggestion
  {
    var keys := SortedKeys(bucket);
    Suggestion(keys, NamesFor(names, keys), if tag in reasons then reasons[tag] else {})
  }

  lemma GroupIsItsBucket(names: map<string, string>, reasons: map<string, set<Reason>>, tag: string, bucket: seq<string>)
    ensures forall x :: x in GroupOf(names, reasons, tag, bucket).keys <==> x in bucket
    ensures Ascending(GroupOf(names, reasons, tag, bucket).keys)
    ensures |bucket| > 1 && bucket[0] != bucket[1] ==> |GroupOf(names, reasons, tag, bucket).keys| > 1
  {
    SortedKeysAreAscending(bucket);
    var keys := SortedKeys(bucket);
    if |bucket| > 1 && bucket[0] != bucket[1] {
      assert bucket[0] in keys && bucket[1] in keys;
    }
  }

  lemma FiledGroupIsAGroup(names: map<string, string>, edges: seq<Edge>, root: map<string, string>, reasons: map<string, set<Reason>>,
                           tags: seq<string>, buckets: seq<seq<string>>, b: nat)
    requires Grouped(names, edges, root, reasons, tags, buckets) && b < |buckets| && |buckets[b]| > 1
    ensures IsGroup(names, edges, GroupOf(names, reasons, tags[b], buckets[b]))
  {
    var g := GroupOf(names, reasons, tags[b], buckets[b]);
    GroupIsItsBucket(names, reasons, tags[b], buckets[b]);
    forall x, y | x in g.keys && y in names ensures y in g.keys <==> Connected(Links(edges), x, y) {
      SameRootIffConnected(Links(edges), root, x, y);
    }
    forall i | 0 <= i < |g.keys| ensures g.keys[i] in names && g.names[i] == names[g.keys[i]] {
      assert g.keys[i] in g.keys;
    }
    forall reason ensures reason in g.reasons <==> ReasonIn(edges, g.keys, reason) {
      assert reason in g.reasons <==> DrawnAt(edges, root, tags[b], reason);
      if e :| e in edges && e.reason == reason && e.left in root && root[e.left] == tags[b] {
        assert e.left in g.keys;
      }
      if e :| e in edges && e.reason == reason && e.left in g.keys {
        assert e.left in buckets[b];
      }
    }
  }

  /** The groups read off the buckets, in bucket order, those of one name left out. */
  ghost predicate ReadOff(names: map<string, string>, reasons: map<string, set<Reason>>, tags: seq<string>, buckets: seq<seq<string>>,
                          groups: seq<Suggestion>, from: seq<nat>, upTo: nat)
    requires |tags| == |buckets| && upTo <= |buckets|
  {
    && |from| == |groups|
    && (forall i :: 0 <= i < |from| ==> (from[i] < upTo && |buckets[from[i]]| > 1
          && groups[i] == GroupOf(names, reasons, tags[from[i]], buckets[from[i]])))
    && (forall i, j :: 0 <= i < j < |from| ==> from[i] != from[j])
    && (forall b :: 0 <= b < upTo && |buckets[b]| > 1 ==> b in from)
  }

  lemma ReadOffIsGrouping(names: map<string, string>, edges: seq<Edge>, root: map<string, string>, reasons: map<string, set<Reason>>,
                          tags: seq<string>, buckets: seq<seq<string>>, groups: seq<Suggestion>, from: seq<nat>)
    requires Grouped(names, edges, root, reasons, tags, buckets)
    requires ReadOff(names, reasons, tags, buckets, groups, from, |buckets|)
    ensures IsGrouping(names, edges, groups)
  {
    forall g | g in groups ensures IsGroup(names, edges, g) {
      var i :| 0 <= i < |groups| && groups[i] == g;
      assert 0 <= i < |from| && g == GroupOf(names, reasons, tags[from[i]], buckets[from[i]]);
      FiledGroupIsAGroup(names, edges, root, reasons, tags, buckets, from[i]);
    }
    forall x, y | x in names && y in names && x != y && Connected(Links(edges), x, y) ensures exists g :: g in groups && x in g.keys {
      var i := ConnectedIsReadOff(names, edges, root, reasons, tags, buckets, groups, from, x, y);
      assert groups[i] in groups;
    }
    forall i, j, x | 0 <= i < j < |groups| && x in groups[i].keys ensures x !in groups[j].keys {
      OneBucketEach(names, edges, root, reasons, tags, buckets, from[i], from[j], x);
    }
  }

  lemma ConnectedIsReadOff(names: map<string, string>, edges: seq<Edge>, root: map<string, string>, reasons: map<string, set<Reason>>,
                           tags: seq<string>, buckets: seq<seq<string>>, groups: seq<Suggestion>, from: seq<nat>, x: string, y: string) returns (i: nat)
    requires Grouped(names, edges, root, reasons, tags, buckets)
    requires ReadOff(names, reasons, tags, buckets, groups, from, |buckets|)
    requires x in names && y in names && x != y && Connected(Links(edges), x, y)
    ensures i < |groups| && x in groups[i].keys
  {
    SameRootIffConnected(Links(edges), root, x, y);
    var b :| 0 <= b < |tags| && tags[b] == root[x];
    assert x in buckets[b] && y in buckets[b];
    assert b in from;
    i :| 0 <= i < |from| && from[i] == b;
    GroupIsItsBucket(names, reasons, tags[b], buckets[b]);
  }

  lemma OneBucketEach(names: map<string, string>, edges: seq<Edge>, root: map<string, string>, reasons: map<string, set<Reason>>,
                      tags: seq<string>, buckets: seq<seq<string>>, a: nat, b: nat, x: string)
    requires Grouped(names, edges, root, reasons, tags, buckets) && a < |buckets| && b < |buckets| && a != b
    requires x in GroupOf(names, reasons, tags[a], buckets[a]).keys
    ensures x !in GroupOf(names, reasons, tags[b], buckets[b]).keys
  {
    GroupIsItsBucket(names, reasons, tags[a], buckets[a]);
    GroupIsItsBucket(names, reasons, tags[b], buckets[b]);
    assert tags[a] != tags[b] by { assert tags[if a < b then a else b] != tags[if a < b then b else a]; }
    assert x in buckets[a] && root[x] == tags[a];
    assert x !in buckets[b];
  }

  method ReadGroups(names: map<string, string>, reasons: map<string, set<Reason>>, tags: seq<string>, buckets: seq<seq<string>>)
      returns (groups: seq<Suggestion>, ghost from: seq<nat>)
    requires |tags| == |buckets|
    ensures ReadOff(names, reasons, tags, buckets, groups, from, |buckets|)
  {
    groups, from := [], [];
    for b := 0 to |buckets|
      invariant ReadOff(names, reasons, tags, buckets, groups, from, b)
    {
      if |buckets[b]| > 1 {
        groups := groups + [GroupOf(names, reasons, tags[b], buckets[b])];
        from := from + [b];
      }
    }
  }

  /** Everything after the rules and before the cut: one group per component of more than one name. */
  method Groups(entries: seq<Entry>, edges: seq<Edge>) returns (groups: seq<Suggestion>)
    requires Listed(entries) && JoinsListed(entries, edges)
    ensures IsGrouping(NameBy(entries), edges, groups)
  {
    var names := NameBy(entries);
    NameByReads(entries);
    var forest := JoinAll(KeySet(entries), Links(edges));
    ghost var root := forest.root;
    var reasons := FileReasons(forest, edges);
    var items := FileRoots(forest, entries);
    var tags, buckets := Fill(items);
    ItemsAreGrouped(names, edges, root, reasons, entries, tags, buckets);
    ghost var from;
    groups, from := ReadGroups(names, reasons, tags, buckets);
    ReadOffIsGrouping(names, edges, root, reasons, tags, buckets, groups, from);
  }

  lemma ItemsAreGrouped(names: map<string, string>, edges: seq<Edge>, root: map<string, string>, reasons: map<string, set<Reason>>,
                      entries: seq<Entry>, tags: seq<string>, buckets: seq<seq<string>>)
    requires Listed(entries) && names.Keys == KeySet(entries) && root.Keys == KeySet(entries)
    requires Stands(Links(edges), root) && ReasonsFiled(edges, root, reasons)
    requires forall e :: e in entries ==> e.key in root
    requires tags == Tags(Rooting(root, entries)) && buckets == BucketsOf(Rooting(root, entries))
    ensures Grouped(names, edges, root, reasons, tags, buckets)
  {
    forall x | x in names ensures root[x] in tags {
      var e :| e in entries && e.key == x;
      var i :| 0 <= i < |entries| && entries[i] == e;
      assert Rooting(root, entries)[i].tag == root[x];
    }
    forall b, x | 0 <= b < |buckets| ensures x in buckets[b] <==> x in names && root[x] == tags[b] {
      BucketOfRoot(root, entries, tags[b], x);
    }
    forall b, i, j | 0 <= b < |buckets| && 0 <= i < j < |buckets[b]| ensures buckets[b][i] != buckets[b][j] {
      BucketHasNoRepeat(root, entries, tags[b], i, j);
    }
  }

  // ── The cut ───────────────────────────────────────────────────────────────

  predicate NamesBefore(a: seq<string>, b: seq<string>)
  {
    if b == [] then false
    else if a == [] then true
    else if a[0] != b[0] then Before(a[0], b[0])
    else NamesBefore(a[1..], b[1..])
  }

  lemma {:induction false} NamesBeforeIsTotal(a: seq<string>, b: seq<string>)
    ensures NamesBefore(a, b) || NamesBefore(b, a) || a == b
  {
    if a != [] && b != [] {
      BeforeIsStrict(a[0], b[0]);
      if a[0] == b[0] {
        NamesBeforeIsTotal(a[1..], b[1..]);
        assert a == [a[0]] + a[1..] && b == [b[0]] + b[1..];
      }
    }
  }

  lemma {:induction false} NamesBeforeIsTransitive(a: seq<string>, b: seq<string>, c: seq<string>)
    ensures NamesBefore(a, b) && NamesBefore(b, c) ==> NamesBefore(a, c)
    ensures NamesBefore(a, b) ==> !NamesBefore(b, a)
  {
    if a != [] && b != [] {
      BeforeIsStrict(a[0], b[0]);
      if c != [] && Before(a[0], b[0]) && Before(b[0], c[0]) {
        BeforeIsTransitive(a[0], b[0], c[0]);
        BeforeIsStrict(a[0], c[0]);
      }
      NamesBeforeIsTransitive(a[1..], b[1..], if c == [] then [] else c[1..]);
    }
  }

  /** The same names up to here, and then none, or one that is before the other's. */
  ghost predicate IsNamedBeforeAt(a: seq<string>, b: seq<string>, n: nat)
  {
    n <= |a| && n < |b| && a[..n] == b[..n] && (n < |a| ==> exists c: nat :: IsBeforeAt(a[n], b[n], c))
  }

  lemma NamedBeforeAtTail(a: seq<string>, b: seq<string>, n: nat)
    requires a != [] && b != [] && a[0] == b[0]
    ensures IsNamedBeforeAt(a, b, n + 1) <==> IsNamedBeforeAt(a[1..], b[1..], n)
  {
    if n + 1 <= |a| && n + 1 <= |b| {
      assert a[..n + 1] == [a[0]] + a[1..][..n] && b[..n + 1] == [b[0]] + b[1..][..n];
      assert a[1..][..n] == a[..n + 1][1..] && b[1..][..n] == b[..n + 1][1..];
    }
  }

  lemma {:induction false} NamesBeforeIs(a: seq<string>, b: seq<string>)
    ensures NamesBefore(a, b) <==> exists n: nat :: IsNamedBeforeAt(a, b, n)
  {
    if a == [] || b == [] || a[0] != b[0] {
      if a != [] && b != [] {
        BeforeIs(a[0], b[0]);
        assert forall n: nat :: n > 0 && n <= |a| && n <= |b| && a[..n] == b[..n] ==> a[..n][0] == b[..n][0];
      }
      assert NamesBefore(a, b) ==> IsNamedBeforeAt(a, b, 0);
    } else {
      NamesBeforeIs(a[1..], b[1..]);
      BeforeIsStrict(a[0], b[0]);
      BeforeIs(a[0], b[0]);
      forall n: nat {
        NamedBeforeAtTail(a, b, n);
      }
      if n: nat :| IsNamedBeforeAt(a, b, n) {
        assert IsNamedBeforeAt(a[1..], b[1..], n - 1);
      }
      if n: nat :| IsNamedBeforeAt(a[1..], b[1..], n) {
        assert IsNamedBeforeAt(a, b, n + 1);
      }
    }
  }

  /** Biggest first, then by names. */
  predicate Ahead(a: Suggestion, b: Suggestion)
  {
    |a.keys| > |b.keys| || (|a.keys| == |b.keys| && NamesBefore(a.names, b.names))
  }

  lemma AheadIs(a: Suggestion, b: Suggestion)
    ensures Ahead(a, b)
       <==> |a.keys| > |b.keys| || (|a.keys| == |b.keys| && exists n: nat :: IsNamedBeforeAt(a.names, b.names, n))
  {
    NamesBeforeIs(a.names, b.names);
  }

  lemma NotAheadIsTransitive(a: Suggestion, b: Suggestion, c: Suggestion)
    requires !Ahead(a, b) && !Ahead(b, c)
    ensures !Ahead(a, c)
  {
    NamesBeforeIsTotal(a.names, b.names);
    NamesBeforeIsTotal(b.names, c.names);
    NamesBeforeIsTransitive(c.names, b.names, a.names);
    NamesBeforeIsTransitive(a.names, c.names, a.names);
  }

  lemma AheadIsOneWay(a: Suggestion, b: Suggestion)
    requires Ahead(a, b)
    ensures !Ahead(b, a)
  {
    NamesBeforeIsTransitive(a.names, b.names, a.names);
  }

  ghost predicate Ranked(groups: seq<Suggestion>)
  {
    forall i, j :: 0 <= i < j < |groups| ==> !Ahead(groups[j], groups[i])
  }

  function Place(g: Suggestion, ranked: seq<Suggestion>): seq<Suggestion>
  {
    if ranked == [] || !Ahead(ranked[0], g) then [g] + ranked
    else [ranked[0]] + Place(g, ranked[1..])
  }

  /** The stable sort `suggestions.sort` is. */
  function Rank(groups: seq<Suggestion>): seq<Suggestion>
  {
    if groups == [] then [] else Place(groups[0], Rank(groups[1..]))
  }

  lemma {:induction false} PlaceRanks(g: Suggestion, ranked: seq<Suggestion>)
    requires Ranked(ranked)
    ensures Ranked(Place(g, ranked)) && multiset(Place(g, ranked)) == multiset([g] + ranked)
  {
    if ranked == [] || !Ahead(ranked[0], g) {
      forall j | 0 <= j < |ranked| ensures !Ahead(ranked[j], g) {
        if j > 0 { NotAheadIsTransitive(ranked[j], ranked[0], g); }
      }
    } else {
      var rest := Place(g, ranked[1..]);
      PlaceRanks(g, ranked[1..]);
      AheadIsOneWay(ranked[0], g);
      forall j | 0 <= j < |rest| ensures !Ahead(rest[j], ranked[0]) {
        PlacedIsOneOf(g, ranked[1..], rest, j);
      }
      SameElements(g, ranked, rest);
    }
  }

  lemma PlacedIsOneOf(g: Suggestion, ranked: seq<Suggestion>, placed: seq<Suggestion>, j: nat)
    requires multiset(placed) == multiset([g] + ranked) && j < |placed|
    ensures placed[j] == g || exists k :: 0 <= k < |ranked| && ranked[k] == placed[j]
  {
    assert placed[j] in multiset(placed);
    assert placed[j] in [g] + ranked;
  }

  lemma SameElements(g: Suggestion, ranked: seq<Suggestion>, rest: seq<Suggestion>)
    requires ranked != [] && multiset(rest) == multiset([g] + ranked[1..])
    ensures multiset([ranked[0]] + rest) == multiset([g] + ranked)
  {
    assert ranked == [ranked[0]] + ranked[1..];
  }

  lemma {:induction false} RankRanks(groups: seq<Suggestion>)
    ensures Ranked(Rank(groups)) && multiset(Rank(groups)) == multiset(groups)
  {
    if groups != [] {
      RankRanks(groups[1..]);
      PlaceRanks(groups[0], Rank(groups[1..]));
      assert groups == [groups[0]] + groups[1..];
      assert multiset([groups[0]] + Rank(groups[1..])) == multiset{groups[0]} + multiset(groups[1..]);
    }
  }

  /** What is shown of all the groups: at most a hundred, in rank order, and nothing held
      back that ranks before anything shown. */
  ghost predicate IsCut(all: seq<Suggestion>, offered: seq<Suggestion>)
  {
    && Ranked(offered) && |offered| <= MAX_SUGGESTIONS
    && (forall g :: g in offered ==> g in all)
    && (forall g, h :: g in offered && h in all && h !in offered ==> !Ahead(h, g))
    && (|offered| < MAX_SUGGESTIONS ==> forall h :: h in all ==> h in offered)
  }

  lemma RankedPrefixIsCut(all: seq<Suggestion>)
    ensures var ranked := Rank(all);
            IsCut(all, ranked[..if |ranked| < MAX_SUGGESTIONS then |ranked| else MAX_SUGGESTIONS])
  {
    var ranked := Rank(all);
    RankRanks(all);
    var offered := ranked[..if |ranked| < MAX_SUGGESTIONS then |ranked| else MAX_SUGGESTIONS];
    forall g ensures g in all <==> g in ranked {
      assert g in all <==> g in multiset(all);
      assert g in ranked <==> g in multiset(ranked);
    }
    forall g, h | g in offered && h in all && h !in offered ensures !Ahead(h, g) {
      var i :| 0 <= i < |offered| && offered[i] == g;
      var j :| 0 <= j < |ranked| && ranked[j] == h;
      assert j >= |offered|;
    }
  }

  /** The start, in rank order, of a grouping these edges have. */
  ghost predicate IsOffered(names: map<string, string>, edges: seq<Edge>, offered: seq<Suggestion>)
  {
    exists all :: IsGrouping(names, edges, all) && IsCut(all, offered) && offered <= Rank(all)
  }

  /** What is offered to merge: one group for each component of more than one name
      that the chosen rules connect, disjoint, each with exactly the rules that drew it; then the cut. */
  method SuggestMerges(naming: Naming, entries: seq<Entry>, spines: map<string, set<string>>, rules: set<Reason>)
      returns (offered: seq<Suggestion>)
    requires WalksWords(naming) && Listed(entries)
    ensures IsOffered(NameBy(entries), EdgesFor(naming, entries, spines, rules, 200_000), offered) && |offered| <= 100
  {
    var budget := new Budget(MAX_COMPARISONS);
    var edges := RunRules(naming, entries, spines, rules, budget);
    EdgesJoinListed(naming, entries, spines, rules, MAX_COMPARISONS);
    var groups := Groups(entries, edges);
    var ranked := Rank(groups);
    RankedPrefixIsCut(groups);
    offered := ranked[..if |ranked| < MAX_SUGGESTIONS then |ranked| else MAX_SUGGESTIONS];
  }

  // ── One matcher against another ───────────────────────────────────────────

  /** Fewer edges make finer groups. */
  lemma FinerGroupsLieInside(names: map<string, string>, few: seq<Edge>, many: seq<Edge>, fine: seq<Suggestion>, coarse: seq<Suggestion>, g: Suggestion)
    requires forall e :: e in few ==> e in many
    requires IsGrouping(names, few, fine) && IsGrouping(names, many, coarse) && g in fine
    ensures exists h :: h in coarse && forall x :: x in g.keys ==> x in h.keys
  {
    assert IsGroup(names, few, g);
    var x, y := g.keys[0], g.keys[1];
    assert Before(x, y);
    BeforeIsStrict(x, y);
    assert x in g.keys && y in g.keys;
    LinksOfMore(few, many);
    MoreEdgesConnectMore(Links(few), Links(many), x, y);
    var h :| h in coarse && x in h.keys;
    assert IsGroup(names, many, h);
    forall z | z in g.keys ensures z in h.keys {
      MoreEdgesConnectMore(Links(few), Links(many), x, z);
    }
  }

  lemma LinksOfMore(few: seq<Edge>, many: seq<Edge>)
    requires forall e :: e in few ==> e in many
    ensures forall l :: l in Links(few) ==> l in Links(many)
  {
    forall l | l in Links(few) ensures l in Links(many) {
      var i :| 0 <= i < |few| && Links(few)[i] == l;
      assert few[i] in many;
      var j :| 0 <= j < |many| && many[j] == few[i];
      assert Links(many)[j] == l;
    }
  }

  /** Before the cut, everything the exact matcher groups lies inside one group of the default's. */
  lemma ExactGroupsLieInsideDefault(naming: Naming, entries: seq<Entry>, spines: map<string, set<string>>,
                                    exact: seq<Suggestion>, full: seq<Suggestion>, g: Suggestion)
    requires IsGrouping(NameBy(entries), EdgesFor(naming, entries, spines, EXACT_MATCHER, MAX_COMPARISONS), exact)
    requires IsGrouping(NameBy(entries), EdgesFor(naming, entries, spines, DEFAULT_MATCHER, MAX_COMPARISONS), full)
    requires g in exact
    ensures exists h :: h in full && forall x :: x in g.keys ==> x in h.keys
  {
    ExactEdgesAreDefaultEdges(naming, entries, spines, MAX_COMPARISONS);
    FinerGroupsLieInside(NameBy(entries), EdgesFor(naming, entries, spines, EXACT_MATCHER, MAX_COMPARISONS),
                         EdgesFor(naming, entries, spines, DEFAULT_MATCHER, MAX_COMPARISONS), exact, full, g);
  }
}
