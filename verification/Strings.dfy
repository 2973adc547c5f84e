/** The string operations the models share: joining, splitting on one character,
    code point order, and sorted key lists.

    Splitting undoes joining exactly where no part carries the separator. */
module Strings {
  import opened Sequences

  /** `sep.join(parts)`. */
  function Join(sep: string, parts: seq<string>): string
  {
    if parts == [] then ""
    else if |parts| == 1 then parts[0]
    else parts[0] + sep + Join(sep, parts[1..])
  }

  /** `text.split(c)`: one part more than there are separators. */
  function SplitOn(c: char, text: string): (parts: seq<string>)
    ensures |parts| >= 1
  {
    if text == "" then [""]
    else
      var rest := SplitOn(c, text[1..]);
      if text[0] == c then [""] + rest else [[text[0]] + rest[0]] + rest[1..]
  }

  /** No part carries the separator, so every separator in the joined text is structural. */
  ghost predicate FreeOf(c: char, parts: seq<string>)
  {
    forall i :: 0 <= i < |parts| ==> c !in parts[i]
  }

  lemma {:induction false} SplitHasNoSeparator(c: char, text: string)
    ensures FreeOf(c, SplitOn(c, text))
  {
    if text != "" {
      SplitHasNoSeparator(c, text[1..]);
    }
  }

  lemma {:induction false} SplitOfPrefixed(c: char, head: string, text: string)
    requires c !in head
    ensures var rest := SplitOn(c, text); SplitOn(c, head + text) == [head + rest[0]] + rest[1..]
  {
    var rest := SplitOn(c, text);
    if head == "" {
      assert head + text == text && head + rest[0] == rest[0];
      assert [rest[0]] + rest[1..] == rest;
    } else {
      assert (head + text)[1..] == head[1..] + text;
      SplitOfPrefixed(c, head[1..], text);
      assert [head[0]] + (head[1..] + rest[0]) == head + rest[0];
    }
  }

  /** `text.split(c)` undoes `c.join(parts)` exactly where no part carries `c`. */
  lemma {:induction false} SplitJoin(c: char, parts: seq<string>)
    requires parts != [] && FreeOf(c, parts)
    ensures SplitOn(c, Join([c], parts)) == parts
  {
    if |parts| == 1 {
      SplitOfPrefixed(c, parts[0], "");
      assert parts[0] + "" == parts[0];
    } else {
      SplitJoin(c, parts[1..]);
      SplitAtSeparator(c, parts[0], Join([c], parts[1..]));
      assert [parts[0]] + parts[1..] == parts;
    }
  }

  /** What stands before the first separator is the first part. */
  lemma SplitAtSeparator(c: char, head: string, text: string)
    requires c !in head
    ensures SplitOn(c, head + [c] + text) == [head] + SplitOn(c, text)
  {
    SplitOfPrefixed(c, head, [c] + text);
    assert ([c] + text)[1..] == text;
    Assoc(head, [c], text);
    assert head + "" == head;
    var rest := SplitOn(c, [c] + text);
    assert rest[0] == "" && rest[1..] == SplitOn(c, text);
  }

  /** The parts as they come back from a two character separator: all but the first gain `pad`. */
  function Padded(pad: string, parts: seq<string>): (padded: seq<string>)
    ensures |padded| == |parts|
  {
    seq(|parts|, i requires 0 <= i < |parts| => if i == 0 then parts[0] else pad + parts[i])
  }

  lemma {:induction false} JoinPadded(c: char, pad: string, parts: seq<string>)
    ensures Join([c] + pad, parts) == Join([c], Padded(pad, parts))
  {
    if |parts| > 1 {
      var rest := parts[1..];
      JoinPadded(c, pad, rest);
      var padded := Padded(pad, parts);
      assert padded[1..] == [pad + rest[0]] + Padded(pad, rest)[1..];
      JoinOfPrefixedHead([c], pad, Padded(pad, rest));
      assert [pad + Padded(pad, rest)[0]] + Padded(pad, rest)[1..] == padded[1..];
      assert parts[0] + ([c] + pad) + Join([c], Padded(pad, rest))
          == parts[0] + [c] + (pad + Join([c], Padded(pad, rest)));
    }
  }

  lemma JoinOfPrefixedHead(sep: string, head: string, parts: seq<string>)
    requires parts != []
    ensures Join(sep, [head + parts[0]] + parts[1..]) == head + Join(sep, parts)
  {
    var prefixed := [head + parts[0]] + parts[1..];
    assert prefixed[1..] == parts[1..];
    if |parts| > 1 {
      assert head + parts[0] + sep + Join(sep, parts[1..]) == head + (parts[0] + sep + Join(sep, parts[1..]));
    }
  }

  /** Splitting on `c` what was joined on `c` and a pad gives every part back, padded. */
  lemma SplitPaddedJoin(c: char, pad: string, parts: seq<string>)
    requires parts != [] && FreeOf(c, parts) && c !in pad
    ensures SplitOn(c, Join([c] + pad, parts)) == Padded(pad, parts)
  {
    JoinPadded(c, pad, parts);
    SplitJoin(c, Padded(pad, parts));
  }

  lemma {:induction false} JoinSplit(c: char, text: string)
    ensures Join([c], SplitOn(c, text)) == text
  {
    if text != "" {
      var rest := SplitOn(c, text[1..]);
      JoinSplit(c, text[1..]);
      if text[0] == c {
        assert ([""] + rest)[1..] == rest;
        assert "" + [c] + text[1..] == text;
      } else {
        JoinOfPrefixedHead([c], [text[0]], rest);
        assert [text[0]] + text[1..] == text;
      }
    }
  }

  // ── Runs ──────────────────────────────────────────────────────────────────

  /** Just this character. */
  function Just(c: char): char -> bool
  {
    x => x == c
  }

  /** After so many separators stands this word, up to the next separator or the end. */
  ghost predicate IsNextRun(sep: char -> bool, text: string, word: string, at: nat)
  {
    && word != "" && (forall p :: 0 <= p < |word| ==> !sep(word[p])) && at + |word| <= |text|
    && (forall p :: 0 <= p < at ==> sep(text[p]))
    && text[at..at + |word|] == word && (at + |word| < |text| ==> sep(text[at + |word|]))
  }

  /** These are the text's longest stretches without a separator, in order. */
  ghost predicate AreRuns(sep: char -> bool, text: string, words: seq<string>)
    decreases |words|
  {
    if words == [] then forall p :: 0 <= p < |text| ==> sep(text[p])
    else exists at: nat :: IsNextRun(sep, text, words[0], at) && AreRuns(sep, text[at + |words[0]|..], words[1..])
  }

  function NonEmpty(parts: seq<string>): (kept: seq<string>)
    ensures forall i :: 0 <= i < |kept| ==> kept[i] != ""
  {
    if parts == [] then []
    else (if parts[0] == "" then [] else [parts[0]]) + NonEmpty(parts[1..])
  }

  lemma NextRunBehind(sep: char -> bool, c: char, text: string, word: string, at: nat)
    requires sep(c) && IsNextRun(sep, text, word, at)
    ensures IsNextRun(sep, [c] + text, word, at + 1) && ([c] + text)[at + 1 + |word|..] == text[at + |word|..]
  {
    var more := [c] + text;
    assert more[at + 1..at + 1 + |word|] == text[at..at + |word|];
  }

  lemma SeparatorInFront(sep: char -> bool, c: char, text: string, words: seq<string>)
    requires sep(c) && AreRuns(sep, text, words)
    ensures AreRuns(sep, [c] + text, words)
  {
    if words != [] {
      var at := FirstRun(sep, text, words);
      NextRunBehind(sep, c, text, words[0], at);
    }
  }

  lemma {:induction false} PartsAreRuns(c: char, parts: seq<string>)
    requires parts != [] && FreeOf(c, parts)
    ensures AreRuns(Just(c), Join([c], parts), NonEmpty(parts))
  {
    var head, rest := parts[0], parts[1..];
    if rest == [] {
      assert AreRuns(Just(c), "", []);
      WordInFront(Just(c), head, "", []);
      assert head + "" == head && NonEmpty(rest) == [];
    } else {
      PartsAreRuns(c, rest);
      SeparatorInFront(Just(c), c, Join([c], rest), NonEmpty(rest));
      WordInFront(Just(c), head, [c] + Join([c], rest), NonEmpty(rest));
      Assoc(head, [c], Join([c], rest));
    }
  }

  lemma WordInFront(sep: char -> bool, head: string, rest: string, words: seq<string>)
    requires (forall p :: 0 <= p < |head| ==> !sep(head[p])) && AreRuns(sep, rest, words) && (rest != "" ==> sep(rest[0]))
    ensures AreRuns(sep, head + rest, (if head == "" then [] else [head]) + words)
  {
    if head == "" {
      assert head + rest == rest && [] + words == words;
    } else {
      assert (head + rest)[|head|..] == rest && ([head] + words)[1..] == words;
      assert IsNextRun(sep, head + rest, head, 0);
    }
  }

  /** The non-empty parts of a split are the runs. */
  lemma SplitIsRuns(c: char, text: string)
    ensures AreRuns(Just(c), text, NonEmpty(SplitOn(c, text)))
  {
    SplitHasNoSeparator(c, text);
    JoinSplit(c, text);
    PartsAreRuns(c, SplitOn(c, text));
  }

  lemma RunIsSolid(sep: char -> bool, text: string, word: string, at: nat)
    requires IsNextRun(sep, text, word, at)
    ensures forall p :: at <= p < at + |word| ==> !sep(text[p])
  {
    forall p | at <= p < at + |word| ensures !sep(text[p]) {
      assert text[at..at + |word|][p - at] == word[p - at];
    }
  }

  lemma NextRunIsUnique(sep: char -> bool, text: string, a: string, at: nat, b: string, bt: nat)
    requires IsNextRun(sep, text, a, at) && IsNextRun(sep, text, b, bt)
    ensures at == bt && a == b
  {
    RunIsSolid(sep, text, a, at);
    RunIsSolid(sep, text, b, bt);
    assert !sep(text[at]) && !sep(text[bt]);
    assert at == bt && |a| == |b|;
  }

  lemma FirstRun(sep: char -> bool, text: string, words: seq<string>) returns (at: nat)
    requires AreRuns(sep, text, words) && words != []
    ensures IsNextRun(sep, text, words[0], at) && AreRuns(sep, text[at + |words[0]|..], words[1..])
  {
    at :| IsNextRun(sep, text, words[0], at) && AreRuns(sep, text[at + |words[0]|..], words[1..]);
  }

  lemma NoRunsIsNoRun(sep: char -> bool, text: string, words: seq<string>)
    requires AreRuns(sep, text, words)
    ensures words == [] <==> forall p :: 0 <= p < |text| ==> sep(text[p])
  {
    if words != [] {
      var at := FirstRun(sep, text, words);
      RunIsSolid(sep, text, words[0], at);
      assert !sep(text[at]);
    }
  }

  /** A text has one list of runs. */
  lemma {:induction false} RunsAreUnique(sep: char -> bool, text: string, a: seq<string>, b: seq<string>)
    requires AreRuns(sep, text, a) && AreRuns(sep, text, b)
    ensures a == b
    decreases |a|
  {
    NoRunsIsNoRun(sep, text, a);
    NoRunsIsNoRun(sep, text, b);
    if a != [] && b != [] {
      var at := FirstRun(sep, text, a);
      var bt := FirstRun(sep, text, b);
      NextRunIsUnique(sep, text, a[0], at, b[0], bt);
      RunsAreUnique(sep, text[at + |a[0]|..], a[1..], b[1..]);
      assert a == [a[0]] + a[1..] && b == [b[0]] + b[1..];
    }
  }

  /** Every text has runs. */
  lemma {:induction false} SomeRuns(sep: char -> bool, text: string) returns (words: seq<string>)
    ensures AreRuns(sep, text, words)
  {
    words := [];
    if text != "" {
      var rest := text[1..];
      var later := SomeRuns(sep, rest);
      assert text == [text[0]] + rest;
      if sep(text[0]) {
        SeparatorInFront(sep, text[0], rest, later);
        words := later;
      } else if rest == "" || sep(rest[0]) {
        WordInFront(sep, [text[0]], rest, later);
        words := [[text[0]]] + later;
      } else {
        NoRunsIsNoRun(sep, rest, later);
        words := [[text[0]] + later[0]] + later[1..];
        LongerRunInFront(sep, text[0], rest, later);
      }
    }
  }

  lemma LongerRunInFront(sep: char -> bool, c: char, rest: string, words: seq<string>)
    requires !sep(c) && rest != "" && !sep(rest[0]) && AreRuns(sep, rest, words) && words != []
    ensures AreRuns(sep, [c] + rest, [[c] + words[0]] + words[1..])
  {
    var text, longer := [c] + rest, [[c] + words[0]] + words[1..];
    var at := FirstRun(sep, rest, words);
    assert at == 0;
    assert text[|longer[0]|..] == rest[|words[0]|..] && longer[1..] == words[1..];
    assert text[..|longer[0]|] == [c] + rest[..|words[0]|];
    assert IsNextRun(sep, text, longer[0], 0);
  }

  /** Joined by one separator each, they are the runs. */
  lemma JoinedAreRuns(c: char, words: seq<string>)
    requires FreeOf(c, words) && forall i :: 0 <= i < |words| ==> words[i] != ""
    ensures AreRuns(Just(c), Join([c], words), words)
  {
    if words != [] {
      PartsAreRuns(c, words);
      NonEmptyKeeps(words);
    }
  }

  lemma {:induction false} NonEmptyKeeps(parts: seq<string>)
    requires forall i :: 0 <= i < |parts| ==> parts[i] != ""
    ensures NonEmpty(parts) == parts
  {
    if parts != [] {
      NonEmptyKeeps(parts[1..]);
      assert parts == [parts[0]] + parts[1..];
    }
  }

  // ── Order ─────────────────────────────────────────────────────────────────

  /** Code point order, which is what `sorted` compares strings by. */
  predicate Before(a: string, b: string)
  {
    if b == "" then false
    else if a == "" then true
    else if a[0] != b[0] then a[0] < b[0]
    else Before(a[1..], b[1..])
  }

  /** The first is a proper beginning of the second, or has the smaller character where they first differ. */
  ghost predicate IsBeforeAt(a: string, b: string, n: nat)
  {
    n <= |a| && n < |b| && a[..n] == b[..n] && (n < |a| ==> a[n] < b[n])
  }

  lemma BeforeAtTail(a: string, b: string, n: nat)
    requires a != "" && b != "" && a[0] == b[0]
    ensures IsBeforeAt(a, b, n + 1) <==> IsBeforeAt(a[1..], b[1..], n)
  {
    if n < |a| && n + 1 < |b| {
      assert a[..n + 1] == [a[0]] + a[1..][..n] && b[..n + 1] == [b[0]] + b[1..][..n];
    }
  }

  lemma {:induction false} BeforeIs(a: string, b: string)
    ensures Before(a, b) <==> exists n: nat :: IsBeforeAt(a, b, n)
  {
    if a == "" || b == "" || a[0] != b[0] {
      assert b != "" && (a == "" || a[0] < b[0]) ==> IsBeforeAt(a, b, 0);
      forall n: nat | 0 < n <= |a| && n < |b| ensures a[..n] != b[..n] {
        assert a[..n][0] == a[0] && b[..n][0] == b[0];
      }
    } else {
      BeforeIs(a[1..], b[1..]);
      forall n: nat ensures IsBeforeAt(a, b, n + 1) <==> IsBeforeAt(a[1..], b[1..], n) {
        BeforeAtTail(a, b, n);
      }
      assert !IsBeforeAt(a, b, 0);
      if n: nat :| IsBeforeAt(a, b, n) {
        assert IsBeforeAt(a[1..], b[1..], n - 1);
      }
      if n: nat :| IsBeforeAt(a[1..], b[1..], n) {
        assert IsBeforeAt(a, b, n + 1);
      }
    }
  }

  lemma {:induction false} BeforeIsStrict(a: string, b: string)
    ensures !Before(a, a)
    ensures Before(a, b) ==> !Before(b, a)
    ensures Before(a, b) || Before(b, a) || a == b
  {
    if a != "" {
      if b != "" && a[0] == b[0] {
        BeforeIsStrict(a[1..], b[1..]);
      } else {
        BeforeIsStrict(a[1..], "");
      }
    }
  }

  lemma {:induction false} BeforeIsTransitive(a: string, b: string, c: string)
    requires Before(a, b) && Before(b, c)
    ensures Before(a, c)
  {
    if a != "" && a[0] == b[0] && b[0] == c[0] {
      BeforeIsTransitive(a[1..], b[1..], c[1..]);
    }
  }

  /** Strictly ascending, so sorted and without repeats. */
  ghost predicate Ascending(keys: seq<string>)
  {
    forall i, j :: 0 <= i < j < |keys| ==> Before(keys[i], keys[j])
  }

  function InsertKey(key: string, keys: seq<string>): (inserted: seq<string>)
  {
    if keys == [] then [key]
    else if key == keys[0] then keys
    else if Before(key, keys[0]) then [key] + keys
    else [keys[0]] + InsertKey(key, keys[1..])
  }

  lemma {:induction false} InsertKeyIsAscending(key: string, keys: seq<string>)
    requires Ascending(keys)
    ensures Ascending(InsertKey(key, keys))
    ensures forall k :: k in InsertKey(key, keys) <==> k == key || k in keys
  {
    if keys != [] && key != keys[0] {
      if Before(key, keys[0]) {
        forall j | 0 <= j < |keys| ensures Before(key, keys[j]) {
          if j > 0 { BeforeIsTransitive(key, keys[0], keys[j]); }
        }
      } else {
        BeforeIsStrict(key, keys[0]);
        InsertKeyIsAscending(key, keys[1..]);
        assert forall k :: k in keys <==> k == keys[0] || k in keys[1..];
        var rest := InsertKey(key, keys[1..]);
        forall j | 0 <= j < |rest| ensures Before(keys[0], rest[j]) {
          assert rest[j] in rest;
        }
      }
    }
  }

  /** `sorted({...})`: each key once, in order. */
  function SortedKeys(keys: seq<string>): (sorted: seq<string>)
  {
    if keys == [] then [] else InsertKey(keys[0], SortedKeys(keys[1..]))
  }

  lemma {:induction false} SortedKeysAreAscending(keys: seq<string>)
    ensures Ascending(SortedKeys(keys))
    ensures forall k :: k in SortedKeys(keys) <==> k in keys
  {
    if keys != [] {
      SortedKeysAreAscending(keys[1..]);
      InsertKeyIsAscending(keys[0], SortedKeys(keys[1..]));
    }
  }

  lemma NonEmptyHasAnElement(keys: seq<string>)
    ensures keys == [] || exists k :: k in keys
  {
    if keys != [] {
      assert keys[0] in keys;
    }
  }

  /** An ascending list is determined by its elements. */
  lemma {:induction false} AscendingIsUnique(a: seq<string>, b: seq<string>)
    requires Ascending(a) && Ascending(b)
    requires forall k :: k in a <==> k in b
    ensures a == b
  {
    NonEmptyHasAnElement(a);
    NonEmptyHasAnElement(b);
    if a != [] && b != [] {
      assert a[0] in b && b[0] in a;
      BeforeIsStrict(a[0], b[0]);
      assert a[0] == b[0];
      forall k ensures k in a[1..] <==> k in b[1..] {
        BeforeIsStrict(a[0], k);
        if k in a[1..] { assert k in b && Before(a[0], k); }
        if k in b[1..] { assert k in a && Before(a[0], k); }
      }
      AscendingIsUnique(a[1..], b[1..]);
    }
  }
}
