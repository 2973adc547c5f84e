/** Credit lines and author keys: `split_authors`, `join_authors`, `credited_name`,
    `author_key`, and the width bound the CSV import puts on a joined line. */
module Spelling {
  import opened Sequences
  import opened Wrappers
  import opened Strings

  const NAME_SEPARATOR := ','
  const CREDIT_SEPARATOR := ", "
  const AUTHOR_LINE_MAX := 500

  /** What the code reads out of the Unicode tables. `fold` is one character's case fold,
      compatibility decomposed, with its combining marks removed. */
  datatype Unicode = Unicode(isSpace: char -> bool, isWord: char -> bool, fold: char -> string)

  // ── Trimming and white space ──────────────────────────────────────────────

  function TrimLeft(edge: char -> bool, text: string): string
  {
    if text != "" && edge(text[0]) then TrimLeft(edge, text[1..]) else text
  }

  function TrimRight(edge: char -> bool, text: string): string
  {
    if text != "" && edge(text[|text| - 1]) then TrimRight(edge, text[..|text| - 1]) else text
  }

  function Trim(edge: char -> bool, text: string): string
  {
    TrimRight(edge, TrimLeft(edge, text))
  }

  ghost predicate AllEdge(edge: char -> bool, text: string)
  {
    forall i :: 0 <= i < |text| ==> edge(text[i])
  }

  ghost predicate Trimmed(edge: char -> bool, text: string)
  {
    text == "" || (!edge(text[0]) && !edge(text[|text| - 1]))
  }

  /** The trimmed text is the only one that is bare at both ends and leaves only edge characters outside it. */
  lemma {:induction false} TrimIsTheCore(edge: char -> bool, before: string, core: string, after: string)
    requires AllEdge(edge, before) && Trimmed(edge, core) && AllEdge(edge, after)
    ensures Trim(edge, before + core + after) == core
  {
    if before != "" {
      assert (before + core + after)[1..] == before[1..] + core + after;
      TrimIsTheCore(edge, before[1..], core, after);
    } else if core == "" {
      assert before + core + after == after;
      TrimLeftOfEdges(edge, after);
    } else {
      assert before + core + after == core + after;
      TrimRightOfEdges(edge, core, after);
    }
  }

  lemma {:induction false} TrimLeftOfEdges(edge: char -> bool, text: string)
    requires AllEdge(edge, text)
    ensures TrimLeft(edge, text) == ""
  {
    if text != "" {
      TrimLeftOfEdges(edge, text[1..]);
    }
  }

  lemma {:induction false} TrimRightOfEdges(edge: char -> bool, core: string, after: string)
    requires core != "" && Trimmed(edge, core) && AllEdge(edge, after)
    ensures TrimRight(edge, core + after) == core
  {
    if after == "" {
      assert core + after == core;
    } else {
      assert (core + after)[..|core + after| - 1] == core + after[..|after| - 1];
      TrimRightOfEdges(edge, core, after[..|after| - 1]);
    }
  }

  /** Trimming cuts at two places and nowhere else. */
  lemma {:induction false} TrimIsASlice(edge: char -> bool, text: string) returns (from: nat, to: nat)
    ensures from <= to <= |text| && Trim(edge, text) == text[from..to]
    ensures Trimmed(edge, Trim(edge, text))
  {
    if text != "" && edge(text[0]) {
      from, to := TrimIsASlice(edge, text[1..]);
      assert text[1..][from..to] == text[from + 1..to + 1];
      from, to := from + 1, to + 1;
    } else {
      from := 0;
      to := TrimRightIsAPrefix(edge, text);
    }
  }

  lemma {:induction false} TrimRightIsAPrefix(edge: char -> bool, text: string) returns (to: nat)
    ensures to <= |text| && TrimRight(edge, text) == text[..to]
    ensures to > 0 ==> !edge(text[to - 1])
  {
    to := |text|;
    if text != "" && edge(text[|text| - 1]) {
      to := TrimRightIsAPrefix(edge, text[..|text| - 1]);
      assert text[..|text| - 1][..to] == text[..to];
    }
  }

  /** Every run of white space becomes one space. */
  function SquashSpaces(u: Unicode, text: string): string
  {
    if text == "" then ""
    else if !u.isSpace(text[0]) then [text[0]] + SquashSpaces(u, text[1..])
    else if |text| > 1 && u.isSpace(text[1]) then SquashSpaces(u, text[1..])
    else " " + SquashSpaces(u, text[1..])
  }

  function Tidy(u: Unicode, text: string): string
  {
    Trim(u.isSpace, SquashSpaces(u, text))
  }

  /** White space only as single spaces between other characters. */
  ghost predicate Clean(u: Unicode, text: string)
  {
    forall i :: 0 <= i < |text| && u.isSpace(text[i]) ==>
      text[i] == ' ' && 0 < i < |text| - 1 && !u.isSpace(text[i + 1])
  }

  ghost predicate Squashed(u: Unicode, text: string)
  {
    forall i :: 0 <= i < |text| && u.isSpace(text[i]) ==>
      text[i] == ' ' && (i + 1 < |text| ==> !u.isSpace(text[i + 1]))
  }

  lemma {:induction false} SquashIsSquashed(u: Unicode, text: string)
    requires u.isSpace(' ')
    ensures var squashed := SquashSpaces(u, text);
            Squashed(u, squashed) && (text == "" <==> squashed == "")
            && (text != "" ==> u.isSpace(squashed[0]) == u.isSpace(text[0]))
            && forall c :: c in squashed ==> c in text || c == ' '
  {
    if text != "" {
      SquashIsSquashed(u, text[1..]);
    }
  }

  lemma {:induction false} SquashFixesSquashed(u: Unicode, text: string)
    requires Squashed(u, text)
    ensures SquashSpaces(u, text) == text
  {
    if text != "" {
      assert forall i :: 0 <= i < |text| - 1 ==> text[1..][i] == text[i + 1];
      SquashFixesSquashed(u, text[1..]);
      assert [text[0]] + text[1..] == text;
    }
  }

  lemma TidyIsClean(u: Unicode, text: string)
    requires u.isSpace(' ')
    ensures Clean(u, Tidy(u, text))
    ensures forall c :: c in Tidy(u, text) ==> c in text || c == ' '
  {
    var squashed := SquashSpaces(u, text);
    SquashIsSquashed(u, text);
    var from, to := TrimIsASlice(u.isSpace, squashed);
    var tidy := Tidy(u, text);
    forall i | 0 <= i < |tidy| && u.isSpace(tidy[i])
      ensures tidy[i] == ' ' && 0 < i < |tidy| - 1 && !u.isSpace(tidy[i + 1])
    {
      assert tidy[i] == squashed[from + i];
      assert i + 1 < |tidy| ==> tidy[i + 1] == squashed[from + i + 1];
    }
  }

  /** A clean name survives the join, whose separator puts one space in front of it. */
  lemma CleanIsTidy(u: Unicode, text: string)
    requires u.isSpace(' ') && Clean(u, text)
    ensures Tidy(u, text) == text && Tidy(u, " " + text) == text
  {
    assert Trimmed(u.isSpace, text);
    SquashFixesSquashed(u, text);
    SquashFixesSquashed(u, " " + text);
    assert "" + text + "" == text && " " + text + "" == " " + text;
    TrimIsTheCore(u.isSpace, "", text, "");
    TrimIsTheCore(u.isSpace, " ", text, "");
  }

  // ── The key ───────────────────────────────────────────────────────────────

  /** One character of a name as the key writes it: folded, with punctuation blanked. */
  function KeyOf(u: Unicode, c: char): string
  {
    Blanked(u, u.fold(c))
  }

  function Blanked(u: Unicode, text: string): string
  {
    seq(|text|, i requires 0 <= i < |text| => if u.isWord(text[i]) || u.isSpace(text[i]) then text[i] else ' ')
  }

  function FoldAll(u: Unicode, text: string): string
  {
    if text == "" then "" else KeyOf(u, text[0]) + FoldAll(u, text[1..])
  }

  function AuthorKey(u: Unicode, name: string): string
  {
    Tidy(u, FoldAll(u, name))
  }

  // ── What tidying and the key are ──────────────────────────────────────────

  lemma SquashOfSpaces(u: Unicode, text: string)
    requires forall p :: 0 <= p < |text| ==> u.isSpace(text[p])
    ensures SquashSpaces(u, text) == if text == "" then "" else " "
  {
    if |text| > 1 {
      SquashOfSpaces(u, text[1..]);
    } else if |text| == 1 {
      assert text[1..] == "";
    }
  }

  lemma {:induction false} SquashOfWord(u: Unicode, word: string, rest: string)
    requires forall p :: 0 <= p < |word| ==> !u.isSpace(word[p])
    ensures SquashSpaces(u, word + rest) == word + SquashSpaces(u, rest)
  {
    if word == "" {
      assert word + rest == rest;
    } else {
      assert (word + rest)[1..] == word[1..] + rest;
      SquashOfWord(u, word[1..], rest);
      assert word == [word[0]] + word[1..];
    }
  }

  lemma {:induction false} SquashAfterSpaces(u: Unicode, spaces: string, rest: string)
    requires spaces != "" && (forall p :: 0 <= p < |spaces| ==> u.isSpace(spaces[p])) && rest != "" && !u.isSpace(rest[0])
    ensures SquashSpaces(u, spaces + rest) == " " + SquashSpaces(u, rest)
  {
    assert (spaces + rest)[1..] == spaces[1..] + rest;
    if |spaces| == 1 {
      assert spaces[1..] + rest == rest;
    } else {
      SquashAfterSpaces(u, spaces[1..], rest);
    }
  }

  /** Squashed, a text is its words with one space between, and one at each end that had any. */
  lemma {:induction false} SquashIsWords(u: Unicode, text: string, words: seq<string>) returns (after: string)
    requires AreRuns(u.isSpace, text, words) && words != []
    ensures after == "" || after == " "
    ensures SquashSpaces(u, text) == (if u.isSpace(text[0]) then " " else "") + Join(" ", words) + after
    decreases |words|
  {
    var at := FirstRun(u.isSpace, text, words);
    var end := at + |words[0]|;
    var rest := text[end..];
    SquashUpTo(u, text, words[0], at);
    if |words| == 1 {
      SquashOfSpaces(u, rest);
      after := SquashSpaces(u, rest);
    } else {
      MoreFollows(u.isSpace, rest, words[1..]);
      after := SquashIsWords(u, rest, words[1..]);
      InFrontOfJoined(if u.isSpace(text[0]) then " " else "", words[0], Join(" ", words[1..]), after);
    }
  }

  lemma MoreFollows(sep: char -> bool, rest: string, words: seq<string>)
    requires AreRuns(sep, rest, words) && words != []
    ensures rest != ""
  {
    NoRunsIsNoRun(sep, rest, words);
  }

  lemma InFrontOfJoined(before: string, word: string, joined: string, after: string)
    ensures before + (word + (" " + joined + after)) == before + (word + " " + joined) + after
  {
  }

  lemma SquashUpTo(u: Unicode, text: string, word: string, at: nat)
    requires IsNextRun(u.isSpace, text, word, at)
    ensures SquashSpaces(u, text) == (if u.isSpace(text[0]) then " " else "") + (word + SquashSpaces(u, text[at + |word|..]))
  {
    var spaces, rest := text[..at], text[at + |word|..];
    assert text == spaces + (word + rest) by {
      assert text == text[..at] + text[at..at + |word|] + text[at + |word|..];
    }
    SquashOfWord(u, word, rest);
    if spaces != "" {
      SquashAfterSpaces(u, spaces, word + rest);
    }
  }

  lemma {:induction false} JoinedIsTrimmed(edge: char -> bool, words: seq<string>)
    requires words != [] && forall i :: 0 <= i < |words| ==> IsSolid(edge, words[i])
    ensures Join(" ", words) != "" && Trimmed(edge, Join(" ", words))
  {
    assert IsSolid(edge, words[0]);
    if |words| > 1 {
      JoinedIsTrimmed(edge, words[1..]);
    }
  }

  ghost predicate IsSolid(edge: char -> bool, word: string)
  {
    word != "" && forall p :: 0 <= p < |word| ==> !edge(word[p])
  }

  lemma {:induction false} RunsAreSolid(sep: char -> bool, text: string, words: seq<string>)
    requires AreRuns(sep, text, words)
    ensures forall i :: 0 <= i < |words| ==> IsSolid(sep, words[i])
    decreases |words|
  {
    if words != [] {
      var at := FirstRun(sep, text, words);
      RunsAreSolid(sep, text[at + |words[0]|..], words[1..]);
    }
  }

  /** Tidied, a text is its longest stretches without white space, in order, with one space between. */
  lemma TidyIsWords(u: Unicode, text: string, words: seq<string>)
    requires u.isSpace(' ') && AreRuns(u.isSpace, text, words)
    ensures Tidy(u, text) == Join(" ", words)
  {
    if words == [] {
      SquashOfSpaces(u, text);
      TrimLeftOfEdges(u.isSpace, SquashSpaces(u, text));
    } else {
      var after := SquashIsWords(u, text, words);
      RunsAreSolid(u.isSpace, text, words);
      JoinedIsTrimmed(u.isSpace, words);
      TrimIsTheCore(u.isSpace, if u.isSpace(text[0]) then " " else "", Join(" ", words), after);
    }
  }

  /** A name with every character folded. */
  ghost function Folded(u: Unicode, name: string): string
  {
    if name == "" then "" else u.fold(name[0]) + Folded(u, name[1..])
  }

  /** Neither white space nor punctuation is part of a key's word. */
  function Parts(u: Unicode): char -> bool
  {
    c => u.isSpace(c) || !u.isWord(c)
  }

  lemma {:induction false} FoldAllIsBlanked(u: Unicode, name: string)
    ensures FoldAll(u, name) == Blanked(u, Folded(u, name))
  {
    if name != "" {
      FoldAllIsBlanked(u, name[1..]);
      assert Blanked(u, u.fold(name[0]) + Folded(u, name[1..])) == Blanked(u, u.fold(name[0])) + Blanked(u, Folded(u, name[1..]));
    }
  }

  lemma BlankedRun(u: Unicode, text: string, word: string, at: nat)
    requires u.isSpace(' ') && IsNextRun(Parts(u), text, word, at)
    ensures IsNextRun(u.isSpace, Blanked(u, text), word, at) && Blanked(u, text)[at + |word|..] == Blanked(u, text[at + |word|..])
  {
    var blanked := Blanked(u, text);
    RunIsSolid(Parts(u), text, word, at);
    assert blanked[at..at + |word|] == text[at..at + |word|];
  }

  lemma {:induction false} BlankedRuns(u: Unicode, text: string, words: seq<string>)
    requires u.isSpace(' ') && AreRuns(Parts(u), text, words)
    ensures AreRuns(u.isSpace, Blanked(u, text), words)
    decreases |words|
  {
    if words != [] {
      var at := FirstRun(Parts(u), text, words);
      BlankedRun(u, text, words[0], at);
      BlankedRuns(u, text[at + |words[0]|..], words[1..]);
    }
  }

  /** The key of a name: the longest stretches of what it folds to without white space or punctuation, in order,
      with one space between. */
  lemma AuthorKeyIsTold(u: Unicode, name: string) returns (words: seq<string>)
    requires u.isSpace(' ')
    ensures AreRuns(Parts(u), Folded(u, name), words) && AuthorKey(u, name) == Join(" ", words)
  {
    words := SomeRuns(Parts(u), Folded(u, name));
    FoldAllIsBlanked(u, name);
    BlankedRuns(u, Folded(u, name), words);
    TidyIsWords(u, FoldAll(u, name), words);
  }

  /** What the characters of this name fold to folds to itself. */
  ghost predicate SettledOn(u: Unicode, name: string)
  {
    forall c, d :: c in name && d in KeyOf(u, c) && !u.isSpace(d) ==> KeyOf(u, d) == [d]
  }

  /** Every character of this text but its spaces folds to something, and to nothing with a space in it. */
  ghost predicate FoldsToLetters(u: Unicode, text: string)
  {
    forall i :: 0 <= i < |text| && !u.isSpace(text[i]) ==>
      KeyOf(u, text[i]) != "" && forall d :: d in KeyOf(u, text[i]) ==> !u.isSpace(d)
  }

  lemma {:induction false} FoldAllFixes(u: Unicode, text: string)
    requires forall i :: 0 <= i < |text| ==> KeyOf(u, text[i]) == [text[i]]
    ensures FoldAll(u, text) == text
  {
    if text != "" {
      FoldAllFixes(u, text[1..]);
      assert [text[0]] + text[1..] == text;
    }
  }

  /** A fold that drops no character and changes nothing changes no character. */
  lemma {:induction false} FixedByFoldAll(u: Unicode, text: string)
    requires forall i :: 0 <= i < |text| ==> KeyOf(u, text[i]) != ""
    ensures |FoldAll(u, text)| >= |text|
    ensures FoldAll(u, text) == text ==> forall i :: 0 <= i < |text| ==> KeyOf(u, text[i]) == [text[i]]
  {
    if text != "" {
      var first, rest := KeyOf(u, text[0]), FoldAll(u, text[1..]);
      FixedByFoldAll(u, text[1..]);
      if first + rest == text {
        assert |first| == 1 && first[0] == text[0];
        assert rest == text[1..];
        forall i | 0 <= i < |text| ensures KeyOf(u, text[i]) == [text[i]] {
          if i > 0 { assert text[1..][i - 1] == text[i]; }
        }
      }
    }
  }

  lemma {:induction false} FoldAllHas(u: Unicode, text: string, d: char)
    ensures d in FoldAll(u, text) <==> exists c :: c in text && d in KeyOf(u, c)
  {
    if text != "" {
      FoldAllHas(u, text[1..], d);
      assert forall c :: c in text <==> c == text[0] || c in text[1..];
    }
  }

  /** Squashing and trimming lose no character but white space. */
  lemma TidyKeeps(u: Unicode, text: string, d: char)
    requires !u.isSpace(d) && d in text
    ensures d in Tidy(u, text)
  {
    SquashKeeps(u, text, d);
    TrimLeftKeeps(u.isSpace, SquashSpaces(u, text), d);
    TrimRightKeeps(u.isSpace, TrimLeft(u.isSpace, SquashSpaces(u, text)), d);
  }

  lemma {:induction false} SquashKeeps(u: Unicode, text: string, d: char)
    requires !u.isSpace(d) && d in text
    ensures d in SquashSpaces(u, text)
  {
    if d != text[0] {
      SquashKeeps(u, text[1..], d);
    }
  }

  lemma {:induction false} TrimLeftKeeps(edge: char -> bool, text: string, d: char)
    requires !edge(d) && d in text
    ensures d in TrimLeft(edge, text)
  {
    if edge(text[0]) {
      TrimLeftKeeps(edge, text[1..], d);
    }
  }

  lemma {:induction false} TrimRightKeeps(edge: char -> bool, text: string, d: char)
    requires !edge(d) && d in text
    ensures d in TrimRight(edge, text)
  {
    if edge(text[|text| - 1]) {
      TrimRightKeeps(edge, text[..|text| - 1], d);
    }
  }

  /** Folding a squashed text of such characters leaves its spaces where they were. */
  lemma {:induction false} FoldAllStaysSquashed(u: Unicode, text: string)
    requires u.isSpace(' ') && KeyOf(u, ' ') == " " && FoldsToLetters(u, text) && Squashed(u, text)
    ensures var folded := FoldAll(u, text);
            && Squashed(u, folded) && (folded == "" <==> text == "")
            && (text != "" ==> u.isSpace(folded[0]) == u.isSpace(text[0])
                               && u.isSpace(folded[|folded| - 1]) == u.isSpace(text[|text| - 1]))
  {
    if text != "" {
      assert forall i :: 0 <= i < |text| - 1 ==> text[1..][i] == text[i + 1];
      FoldAllStaysSquashed(u, text[1..]);
      var first, rest := KeyOf(u, text[0]), FoldAll(u, text[1..]);
      assert first != "" && (u.isSpace(text[0]) ==> first == " ");
      assert forall d :: d in first && u.isSpace(d) ==> u.isSpace(text[0]);
      JoinedStaysSquashed(u, first, rest);
      assert first[0] in first && first[|first| - 1] in first;
    }
  }

  lemma JoinedStaysSquashed(u: Unicode, first: string, rest: string)
    requires Squashed(u, rest)
    requires (first == " " && (rest == "" || !u.isSpace(rest[0]))) || forall d :: d in first ==> !u.isSpace(d)
    ensures Squashed(u, first + rest)
  {
    forall i | 0 <= i < |first| ensures (first + rest)[i] in first {
    }
  }

  lemma CleanIsSquashed(u: Unicode, text: string)
    ensures Clean(u, text) <==> Squashed(u, text) && Trimmed(u.isSpace, text)
  {
  }

  /** A key is its own key exactly where each of its characters folds to itself. */
  lemma KeyIsItsOwnIff(u: Unicode, key: string)
    requires u.isSpace(' ') && KeyOf(u, ' ') == " " && FoldsToLetters(u, key) && Clean(u, key)
    ensures AuthorKey(u, key) == key <==> forall i :: 0 <= i < |key| ==> KeyOf(u, key[i]) == [key[i]]
  {
    CleanIsSquashed(u, key);
    FoldAllStaysSquashed(u, key);
    CleanIsSquashed(u, FoldAll(u, key));
    CleanIsTidy(u, FoldAll(u, key));
    FixedByFoldAll(u, key);
    if forall i :: 0 <= i < |key| ==> KeyOf(u, key[i]) == [key[i]] {
      FoldAllFixes(u, key);
    }
  }

  /** Keying a name twice gives its key again exactly where what its own characters fold to folds to
      itself. */
  lemma AuthorKeyIsIdempotentIff(u: Unicode, name: string)
    requires u.isSpace(' ') && KeyOf(u, ' ') == " " && FoldsToLetters(u, AuthorKey(u, name))
    ensures AuthorKey(u, AuthorKey(u, name)) == AuthorKey(u, name) <==> SettledOn(u, name)
  {
    var folded, key := FoldAll(u, name), AuthorKey(u, name);
    TidyIsClean(u, folded);
    KeyIsItsOwnIff(u, key);
    if SettledOn(u, name) {
      forall i | 0 <= i < |key| ensures KeyOf(u, key[i]) == [key[i]] {
        assert key[i] in key;
        if !u.isSpace(key[i]) {
          FoldAllHas(u, name, key[i]);
        }
      }
    }
    if forall i :: 0 <= i < |key| ==> KeyOf(u, key[i]) == [key[i]] {
      forall c, d | c in name && d in KeyOf(u, c) && !u.isSpace(d) ensures KeyOf(u, d) == [d] {
        FoldAllHas(u, name, d);
        TidyKeeps(u, folded, d);
      }
    }
  }

  /** Lower-case letters and the space stand for themselves, as they do in Unicode's tables. */
  ghost predicate KeepsLowerCase(u: Unicode)
  {
    && u.isSpace(' ') && KeyOf(u, ' ') == " "
    && forall c :: 'a' <= c <= 'z' ==> !u.isSpace(c) && KeyOf(u, c) == [c]
  }

  const MATHEMATICAL_BOLD_A := '\U{1D400}'

  /** And this capital, which has no case fold and decomposes to `A`, takes two folds to reach `a`. */
  ghost predicate FoldsBoldTwice(u: Unicode)
  {
    && KeepsLowerCase(u)
    && !u.isSpace(MATHEMATICAL_BOLD_A) && KeyOf(u, MATHEMATICAL_BOLD_A) == "A"
    && !u.isSpace('A') && KeyOf(u, 'A') == "a"
  }

  lemma {:induction false} FoldsOneByOne(u: Unicode, text: string, folded: string)
    requires |text| == |folded| && forall i :: 0 <= i < |text| ==> KeyOf(u, text[i]) == [folded[i]]
    ensures FoldAll(u, text) == folded
  {
    if text != "" {
      FoldsOneByOne(u, text[1..], folded[1..]);
      assert [folded[0]] + folded[1..] == folded;
    }
  }

  lemma KeyOneByOne(u: Unicode, text: string, key: string)
    requires |text| == |key| && forall i :: 0 <= i < |text| ==> KeyOf(u, text[i]) == [key[i]]
    requires u.isSpace(' ') && Clean(u, key)
    ensures AuthorKey(u, text) == key
  {
    FoldsOneByOne(u, text, key);
    CleanIsTidy(u, key);
  }

  /** `author_key` is not idempotent: the fold runs before the decomposition. */
  lemma AuthorKeyIsNotIdempotent(u: Unicode)
    requires FoldsBoldTwice(u)
    ensures AuthorKey(u, [MATHEMATICAL_BOLD_A]) == "A" && AuthorKey(u, "A") == "a"
  {
    KeyOneByOne(u, [MATHEMATICAL_BOLD_A], "A");
    KeyOneByOne(u, "A", "a");
  }

  // ── Splitting a credit line ───────────────────────────────────────────────

  /** The names in the parts of a credit line whose key is new, in the order written. */
  function NamesIn(tidy: string -> string, key: string -> string, parts: seq<string>, seen: set<string>): seq<string>
  {
    if parts == [] then []
    else
      var name := tidy(parts[0]);
      if name == "" || key(name) == "" || key(name) in seen then NamesIn(tidy, key, parts[1..], seen)
      else [name] + NamesIn(tidy, key, parts[1..], seen + {key(name)})
  }

  function Tidier(u: Unicode): string -> string
  {
    part => Tidy(u, part)
  }

  function Keyer(u: Unicode): string -> string
  {
    name => AuthorKey(u, name)
  }

  function SplitCredit(u: Unicode, credit: Option<string>): seq<string>
  {
    if credit.None? then [] else NamesIn(Tidier(u), Keyer(u), SplitOn(NAME_SEPARATOR, credit.value), {})
  }

  method SplitAuthors(u: Unicode, credit: Option<string>) returns (names: seq<string>)
    ensures names == SplitCredit(u, credit)
  {
    names := [];
    var tidy, authorKey := Tidier(u), Keyer(u);
    if credit == None || credit.value == "" {
      assert SplitOn(NAME_SEPARATOR, "") == [""] && tidy("") == "";
      assert NamesIn(tidy, authorKey, [""], {}) == [];
      return;
    }
    var seen: set<string> := {};
    var parts := SplitOn(NAME_SEPARATOR, credit.value);
    assert parts[0..] == parts;
    ghost var all := NamesIn(tidy, authorKey, parts, {});
    for i := 0 to |parts|
      invariant names + NamesIn(tidy, authorKey, parts[i..], seen) == all
    {
      TailOf(parts, i);
      var name := tidy(parts[i]);
      if name == "" { continue; }
      var key := authorKey(name);
      if key == "" || key in seen { continue; }
      seen := seen + {key};
      Assoc(names, [name], NamesIn(tidy, authorKey, parts[i + 1..], seen));
      names := names + [name];
    }
  }

  /** Named people, each with a key of their own outside `seen`. */
  ghost predicate Distinguished(key: string -> string, names: seq<string>, seen: set<string>)
  {
    && (forall i :: 0 <= i < |names| ==> names[i] != "" && key(names[i]) != "" && key(names[i]) !in seen)
    && (forall i, j :: 0 <= i < j < |names| ==> key(names[i]) != key(names[j]))
  }

  /** Somebody among these names carries this key. */
  ghost predicate Names(key: string -> string, names: seq<string>, k: string)
  {
    exists i :: 0 <= i < |names| && key(names[i]) == k
  }

  lemma {:induction false} NamesAreDistinguished(tidy: string -> string, key: string -> string, parts: seq<string>, seen: set<string>)
    ensures Distinguished(key, NamesIn(tidy, key, parts, seen), seen)
    ensures forall name :: name in NamesIn(tidy, key, parts, seen) ==> exists i :: 0 <= i < |parts| && name == tidy(parts[i])
  {
    if parts != [] {
      var name := tidy(parts[0]);
      var skip := name == "" || key(name) == "" || key(name) in seen;
      var held := if skip then seen else seen + {key(name)};
      NamesAreDistinguished(tidy, key, parts[1..], held);
      var rest := NamesIn(tidy, key, parts[1..], held);
      forall n | n in rest ensures exists i :: 0 <= i < |parts| && n == tidy(parts[i]) {
        var i :| 0 <= i < |parts| - 1 && n == tidy(parts[1..][i]);
        assert n == tidy(parts[i + 1]);
      }
    }
  }

  lemma {:induction false} NobodyIsLost(tidy: string -> string, key: string -> string, parts: seq<string>, seen: set<string>, i: nat)
    requires i < |parts| && tidy(parts[i]) != "" && key(tidy(parts[i])) != ""
    requires key(tidy(parts[i])) !in seen
    ensures Names(key, NamesIn(tidy, key, parts, seen), key(tidy(parts[i])))
  {
    var name, k := tidy(parts[0]), key(tidy(parts[i]));
    var skip := name == "" || key(name) == "" || key(name) in seen;
    var all := NamesIn(tidy, key, parts, seen);
    if skip {
      NobodyIsLost(tidy, key, parts[1..], seen, i - 1);
    } else if k == key(name) {
      assert key(all[0]) == k;
    } else {
      NobodyIsLost(tidy, key, parts[1..], seen + {key(name)}, i - 1);
      var rest := NamesIn(tidy, key, parts[1..], seen + {key(name)});
      var j :| 0 <= j < |rest| && key(rest[j]) == k;
      assert key(all[j + 1]) == k;
    }
  }

  /** The first part whose name is somebody new. */
  ghost predicate IsFirstNaming(tidy: string -> string, key: string -> string, parts: seq<string>, p: nat)
  {
    && p < |parts| && tidy(parts[p]) != "" && key(tidy(parts[p])) != ""
    && forall q :: 0 <= q < p && tidy(parts[q]) != "" ==> key(tidy(parts[q])) != key(tidy(parts[p]))
  }

  /** In order, each name is the first of the line to be somebody. */
  lemma {:induction false} NamesAreFirsts(tidy: string -> string, key: string -> string, parts: seq<string>, seen: set<string>) returns (at: seq<nat>)
    ensures |at| == |NamesIn(tidy, key, parts, seen)| && forall i, j :: 0 <= i < j < |at| ==> at[i] < at[j]
    ensures forall i :: 0 <= i < |at| ==> IsFirstNaming(tidy, key, parts, at[i]) && NamesIn(tidy, key, parts, seen)[i] == tidy(parts[at[i]])
  {
    at := [];
    if parts != [] {
      var name, rest := tidy(parts[0]), parts[1..];
      var skip := name == "" || key(name) == "" || key(name) in seen;
      var held := if skip then seen else seen + {key(name)};
      var later := NamesAreFirsts(tidy, key, rest, held);
      NamesAreDistinguished(tidy, key, rest, held);
      at := LaterNamings(tidy, key, parts, held, NamesIn(tidy, key, rest, held), later);
      if !skip {
        at := [0] + at;
      }
    }
  }

  lemma LaterNamings(tidy: string -> string, key: string -> string, parts: seq<string>, held: set<string>, names: seq<string>, later: seq<nat>)
      returns (at: seq<nat>)
    requires parts != [] && |later| == |names| && forall i, j :: 0 <= i < j < |later| ==> later[i] < later[j]
    requires forall i :: 0 <= i < |later| ==> IsFirstNaming(tidy, key, parts[1..], later[i]) && names[i] == tidy(parts[1..][later[i]])
    requires Distinguished(key, names, held) && (tidy(parts[0]) == "" || key(tidy(parts[0])) == "" || key(tidy(parts[0])) in held)
    ensures |at| == |names| && forall i, j :: 0 <= i < j < |at| ==> at[i] < at[j]
    ensures forall i :: 0 <= i < |at| ==> 0 < at[i] && IsFirstNaming(tidy, key, parts, at[i]) && names[i] == tidy(parts[at[i]])
  {
    at := seq(|later|, i requires 0 <= i < |later| => later[i] + 1);
    forall i | 0 <= i < |at| ensures IsFirstNaming(tidy, key, parts, at[i]) && names[i] == tidy(parts[at[i]]) {
      LaterNaming(tidy, key, parts, held, names[i], later[i]);
    }
  }

  lemma LaterNaming(tidy: string -> string, key: string -> string, parts: seq<string>, held: set<string>, name: string, p: nat)
    requires parts != [] && IsFirstNaming(tidy, key, parts[1..], p) && name == tidy(parts[1..][p]) && key(name) != "" && key(name) !in held
    requires tidy(parts[0]) == "" || key(tidy(parts[0])) == "" || key(tidy(parts[0])) in held
    ensures IsFirstNaming(tidy, key, parts, p + 1)
  {
    forall q | 0 <= q < p + 1 && tidy(parts[q]) != "" ensures key(tidy(parts[q])) != key(name) {
      if q > 0 { assert parts[1..][q - 1] == parts[q]; }
    }
  }

  /** A credit line names, in order, the first to be written of everybody it names between its separators. */
  lemma SplitIsTold(u: Unicode, parts: seq<string>) returns (at: seq<nat>)
    requires parts != [] && FreeOf(NAME_SEPARATOR, parts)
    ensures var names := SplitCredit(u, Some(Join([NAME_SEPARATOR], parts)));
            && |at| == |names| && (forall i, j :: 0 <= i < j < |at| ==> at[i] < at[j])
            && (forall i :: 0 <= i < |at| ==> IsFirstNaming(Tidier(u), Keyer(u), parts, at[i]) && names[i] == Tidy(u, parts[at[i]]))
            && forall p :: 0 <= p < |parts| && Tidy(u, parts[p]) != "" && AuthorKey(u, Tidy(u, parts[p])) != "" ==>
                 Names(Keyer(u), names, AuthorKey(u, Tidy(u, parts[p])))
  {
    SplitJoin(NAME_SEPARATOR, parts);
    at := NamesAreFirsts(Tidier(u), Keyer(u), parts, {});
    forall p | 0 <= p < |parts| && Tidy(u, parts[p]) != "" && AuthorKey(u, Tidy(u, parts[p])) != ""
      ensures Names(Keyer(u), NamesIn(Tidier(u), Keyer(u), parts, {}), AuthorKey(u, Tidy(u, parts[p])))
    {
      NobodyIsLost(Tidier(u), Keyer(u), parts, {}, p);
    }
  }

  /** What `split_authors` promises: nobody twice, nobody unnamed, nobody lost, and every
      name clean and free of the separator. */
  lemma SplitNamesEverybodyOnce(u: Unicode, line: string)
    requires u.isSpace(' ')
    ensures Distinguished(Keyer(u), SplitCredit(u, Some(line)), {})
    ensures FreeOf(NAME_SEPARATOR, SplitCredit(u, Some(line)))
    ensures forall name :: name in SplitCredit(u, Some(line)) ==> Clean(u, name)
    ensures forall part :: part in SplitOn(NAME_SEPARATOR, line) && Tidy(u, part) != "" && AuthorKey(u, Tidy(u, part)) != "" ==>
              Names(Keyer(u), SplitCredit(u, Some(line)), AuthorKey(u, Tidy(u, part)))
  {
    var tidy, key, parts := Tidier(u), Keyer(u), SplitOn(NAME_SEPARATOR, line);
    var names := NamesIn(tidy, key, parts, {});
    SplitHasNoSeparator(NAME_SEPARATOR, line);
    NamesAreDistinguished(tidy, key, parts, {});
    forall name | name in names ensures Clean(u, name) && NAME_SEPARATOR !in name {
      var i :| 0 <= i < |parts| && name == tidy(parts[i]);
      TidyIsClean(u, parts[i]);
    }
    forall part | part in parts && Tidy(u, part) != "" && AuthorKey(u, Tidy(u, part)) != ""
      ensures Names(key, names, AuthorKey(u, Tidy(u, part)))
    {
      var i :| 0 <= i < |parts| && parts[i] == part;
      NobodyIsLost(tidy, key, parts, {}, i);
    }
  }

  // ── Joining one ───────────────────────────────────────────────────────────

  function AtAnEdge(u: Unicode): char -> bool
  {
    c => u.isSpace(c) || c == NAME_SEPARATOR
  }

  function Credited(u: Unicode, name: string): string
  {
    Trim(AtAnEdge(u), name)
  }

  /** Cut to between the outermost characters that are not edge; nothing is left where there is none. */
  ghost predicate CutsToTheCore(edge: char -> bool, text: string, from: int, to: int)
  {
    && 0 <= from <= to <= |text|
    && AllEdge(edge, text[..from]) && AllEdge(edge, text[to..])
    && Trimmed(edge, text[from..to])
  }

  /** All that is outside is space or comma, and what is inside begins and ends with neither. */
  ghost predicate IsCore(u: Unicode, name: string, from: int, to: int)
  {
    && 0 <= from <= to <= |name|
    && (forall i :: 0 <= i < from || to <= i < |name| ==> u.isSpace(name[i]) || name[i] == ',')
    && (from < to ==> !u.isSpace(name[from]) && name[from] != ',' && !u.isSpace(name[to - 1]) && name[to - 1] != ',')
  }

  method CreditedName(u: Unicode, name: string) returns (kept: string)
    ensures exists from, to :: IsCore(u, name, from, to) && kept == name[from..to]
    ensures kept == Credited(u, name)
  {
    var edge := AtAnEdge(u);
    var start, end := 0, |name|;
    while start < end && edge(name[start])
      invariant 0 <= start <= end == |name| && AllEdge(edge, name[..start])
    {
      start := start + 1;
    }
    while end > start && edge(name[end - 1])
      invariant start <= end <= |name| && AllEdge(edge, name[end..]) && (start < end ==> !edge(name[start]))
    {
      end := end - 1;
    }
    kept := name[start..end];
    assert CutsToTheCore(edge, name, start, end);
    CutIsCore(u, name, start, end);
    CoreIsTrimmed(edge, name, start, end);
  }

  lemma CutIsCore(u: Unicode, name: string, from: int, to: int)
    requires CutsToTheCore(AtAnEdge(u), name, from, to)
    ensures IsCore(u, name, from, to)
  {
    assert forall i :: 0 <= i < from ==> name[i] == name[..from][i];
    assert forall i :: to <= i < |name| ==> name[i] == name[to..][i - to];
    assert from < to ==> name[from..to][0] == name[from] && name[from..to][to - from - 1] == name[to - 1];
  }

  lemma CoreIsTrimmed(edge: char -> bool, text: string, from: nat, to: nat)
    requires CutsToTheCore(edge, text, from, to)
    ensures Trim(edge, text) == text[from..to]
  {
    TrimIsTheCore(edge, text[..from], text[from..to], text[to..]);
    assert text[..from] + text[from..to] + text[to..] == text;
  }

  function Creditor(u: Unicode): string -> string
  {
    name => Credited(u, name)
  }

  /** The names a credit line keeps: trimmed, the blank ones dropped. */
  function Kept(credited: string -> string, names: seq<string>): seq<string>
  {
    if names == [] then []
    else if credited(names[0]) == "" then Kept(credited, names[1..])
    else [credited(names[0])] + Kept(credited, names[1..])
  }

  function JoinAuthors(u: Unicode, names: seq<string>): Option<string>
  {
    var line := Join(CREDIT_SEPARATOR, Kept(Creditor(u), names));
    if line == "" then None else Some(line)
  }

  function LeavesSomething(credited: string -> string): string -> bool
  {
    name => credited(name) != ""
  }

  lemma {:induction false} KeptIsASelection(credited: string -> string, names: seq<string>)
    ensures IsSelection(names, LeavesSomething(credited), credited, Kept(credited, names))
  {
    if names != [] {
      KeptIsASelection(credited, names[1..]);
      SelectedInFront(names[0], names[1..], LeavesSomething(credited), credited, Kept(credited, names[1..]));
      assert [names[0]] + names[1..] == names;
    }
  }

  /** The credit line of some names: those of which something is left, each as it is credited, in order and with
      repeats, and no line where there are none. */
  lemma JoinIsTold(u: Unicode, names: seq<string>) returns (kept: seq<string>)
    ensures IsSelection(names, LeavesSomething(Creditor(u)), Creditor(u), kept)
    ensures JoinAuthors(u, names) == if kept == [] then None else Some(Join(", ", kept))
  {
    kept := Kept(Creditor(u), names);
    KeptIsASelection(Creditor(u), names);
    KeptIsCredited(u, names);
  }

  /** Names already trimmed and not blank are kept as they stand. */
  lemma {:induction false} KeptFixes(credited: string -> string, names: seq<string>)
    requires forall i :: 0 <= i < |names| ==> names[i] != "" && credited(names[i]) == names[i]
    ensures Kept(credited, names) == names
  {
    if names != [] {
      KeptFixes(credited, names[1..]);
      assert [names[0]] + names[1..] == names;
    }
  }

  lemma CreditedFixes(u: Unicode, name: string)
    requires Trimmed(AtAnEdge(u), name)
    ensures Credited(u, name) == name
  {
    assert "" + name + "" == name;
    TrimIsTheCore(AtAnEdge(u), "", name, "");
  }

  lemma {:induction false} NamesInFixes(tidy: string -> string, key: string -> string, parts: seq<string>, names: seq<string>, seen: set<string>)
    requires |parts| == |names| && Distinguished(key, names, seen)
    requires forall i :: 0 <= i < |parts| ==> tidy(parts[i]) == names[i]
    ensures NamesIn(tidy, key, parts, seen) == names
  {
    if parts != [] {
      NamesInFixes(tidy, key, parts[1..], names[1..], seen + {key(names[0])});
      assert [names[0]] + names[1..] == names;
    }
  }

  /** Distinct clean names come back out of the line they are joined into. */
  lemma SplitOfJoin(u: Unicode, names: seq<string>)
    requires u.isSpace(' ') && Distinguished(Keyer(u), names, {}) && FreeOf(NAME_SEPARATOR, names)
    requires forall name :: name in names ==> Clean(u, name)
    ensures SplitCredit(u, JoinAuthors(u, names)) == names
  {
    forall i | 0 <= i < |names| ensures Creditor(u)(names[i]) == names[i] {
      assert names[i] in names && names[i][0] in names[i] && names[i][|names[i]| - 1] in names[i];
      CreditedFixes(u, names[i]);
    }
    KeptFixes(Creditor(u), names);
    if names != [] {
      SplitPaddedJoin(NAME_SEPARATOR, " ", names);
      assert [NAME_SEPARATOR] + " " == CREDIT_SEPARATOR;
      var parts := Padded(" ", names);
      forall i | 0 <= i < |parts| ensures Tidier(u)(parts[i]) == names[i] {
        CleanIsTidy(u, names[i]);
      }
      NamesInFixes(Tidier(u), Keyer(u), parts, names, {});
    }
  }

  /** Parser and printer agree: joining what a line splits into loses nobody and changes no name. */
  lemma SplitJoinSplit(u: Unicode, credit: Option<string>)
    requires u.isSpace(' ')
    ensures SplitCredit(u, JoinAuthors(u, SplitCredit(u, credit))) == SplitCredit(u, credit)
  {
    if credit.Some? {
      SplitNamesEverybodyOnce(u, credit.value);
    }
    SplitOfJoin(u, SplitCredit(u, credit));
  }

  // ── Within the column ─────────────────────────────────────────────────────

  lemma {:induction false} JoinWidth(names: seq<string>, name: string)
    ensures |Join(CREDIT_SEPARATOR, names + [name])|
         == if names == [] then |name| else |Join(CREDIT_SEPARATOR, names)| + |CREDIT_SEPARATOR| + |name|
  {
    if names != [] {
      assert (names + [name])[1..] == names[1..] + [name];
      JoinWidth(names[1..], name);
    }
  }

  lemma {:induction false} KeptIsCredited(u: Unicode, names: seq<string>)
    ensures forall i :: 0 <= i < |Kept(Creditor(u), names)| ==>
              Kept(Creditor(u), names)[i] != "" && Creditor(u)(Kept(Creditor(u), names)[i]) == Kept(Creditor(u), names)[i]
  {
    if names != [] {
      var from, to := TrimIsASlice(AtAnEdge(u), names[0]);
      CreditedFixes(u, Credited(u, names[0]));
      KeptIsCredited(u, names[1..]);
    }
  }

  /** A longer prefix never joins to a shorter line, so the first name that does not fit ends it. */
  lemma {:induction false} PrefixWidthGrows(names: seq<string>, i: nat, j: nat)
    requires i <= j <= |names|
    ensures |Join(CREDIT_SEPARATOR, names[..i])| <= |Join(CREDIT_SEPARATOR, names[..j])|
  {
    if i < j {
      PrefixWidthGrows(names, i, j - 1);
      assert names[..j] == names[..j - 1] + [names[j - 1]];
      JoinWidth(names[..j - 1], names[j - 1]);
    }
  }

  /** Everything the width bound promises of the names it keeps out of those offered. */
  ghost predicate LongestThatFits(all: seq<string>, kept: seq<string>)
  {
    && kept <= all
    && |Join(", ", kept)| <= 500
    && forall n :: |kept| < n <= |all| ==> |Join(", ", all[..n])| > 500
  }

  lemma FirstThatDoesNotFitEndsIt(all: seq<string>, kept: seq<string>)
    requires kept <= all && |Join(CREDIT_SEPARATOR, kept)| <= AUTHOR_LINE_MAX
    requires kept == all || |Join(CREDIT_SEPARATOR, all[..|kept| + 1])| > AUTHOR_LINE_MAX
    ensures LongestThatFits(all, kept)
  {
    forall n | |kept| < n <= |all| ensures |Join(CREDIT_SEPARATOR, all[..n])| > AUTHOR_LINE_MAX {
      PrefixWidthGrows(all, |kept| + 1, n);
    }
  }

  /** What is kept is stored as it stands: the join trims and drops nothing more. */
  lemma KeptIsStored(u: Unicode, names: seq<string>, kept: seq<string>)
    requires kept <= Kept(Creditor(u), names)
    ensures JoinAuthors(u, kept) == if kept == [] then None else Some(Join(CREDIT_SEPARATOR, kept))
  {
    KeptIsCredited(u, names);
    KeptFixes(Creditor(u), kept);
    if kept != [] {
      assert kept == kept[..|kept| - 1] + [kept[|kept| - 1]];
      JoinWidth(kept[..|kept| - 1], kept[|kept| - 1]);
    }
  }

  lemma PrefixOfAll(all: seq<string>, kept: seq<string>, next: string, rest: seq<string>)
    requires kept + ([next] + rest) == all
    ensures kept + [next] + rest == all && kept <= all && all[..|kept| + 1] == kept + [next]
  {
  }

  /** The leading names whose joined line fits the column. */
  method WithinTheColumn(u: Unicode, names: seq<string>) returns (kept: seq<string>)
    ensures LongestThatFits(Kept(Creditor(u), names), kept)
    ensures JoinAuthors(u, kept) == if kept == [] then None else Some(Join(CREDIT_SEPARATOR, kept))
  {
    ghost var creditor := Creditor(u);
    ghost var all := Kept(creditor, names);
    kept := [];
    var width := -|CREDIT_SEPARATOR|;
    var i := 0;
    assert names[0..] == names;
    while i < |names|
      invariant 0 <= i <= |names|
      invariant kept + Kept(creditor, names[i..]) == all
      invariant width == if kept == [] then -|CREDIT_SEPARATOR| else |Join(CREDIT_SEPARATOR, kept)|
      invariant width <= AUTHOR_LINE_MAX
    {
      assert names[i..][1..] == names[i + 1..];
      var credited := CreditedName(u, names[i]);
      i := i + 1;
      if credited == "" { continue; }
      width := width + |CREDIT_SEPARATOR| + |credited|;
      JoinWidth(kept, credited);
      PrefixOfAll(all, kept, credited, Kept(creditor, names[i..]));
      if width > AUTHOR_LINE_MAX {
        FirstThatDoesNotFitEndsIt(all, kept);
        KeptIsStored(u, names, kept);
        return;
      }
      kept := kept + [credited];
    }
    assert kept == all;
    FirstThatDoesNotFitEndsIt(all, kept);
    KeptIsStored(u, names, kept);
  }
}
