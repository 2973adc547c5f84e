/** A book's subjects as the one string its column holds: `split_categories`, `join_categories`,
    and the two bounds `rebound_categories` puts on a string that arrives joined. */
module Categories {
  import opened Sequences
  import opened Spelling
  import opened Strings
  import opened Wrappers

  const BARE := ';'
  const CATEGORY_SEPARATOR := "; "
  const MAX_CATEGORIES_PER_BOOK := 32
  const CATEGORY_MAX := 120
  const CATEGORIES_MAX := MAX_CATEGORIES_PER_BOOK * CATEGORY_MAX + (MAX_CATEGORIES_PER_BOOK - 1) * |CATEGORY_SEPARATOR|

  /** White space, of which only the separator's own second character is assumed. */
  ghost predicate IsSpaced(space: char -> bool)
  {
    space(' ')
  }

  /** Each part stripped, the empty ones dropped. */
  function Stripped(space: char -> bool, parts: seq<string>): seq<string>
  {
    if parts == [] then []
    else (if Trim(space, parts[0]) == "" then [] else [Trim(space, parts[0])]) + Stripped(space, parts[1..])
  }

  function SplitCategories(space: char -> bool, value: Option<string>): seq<string>
  {
    if value.None? || value.value == "" then [] else Stripped(space, SplitOn(BARE, value.value))
  }

  /** The subjects that do not carry the separator. */
  function Keepable(subjects: seq<string>): seq<string>
  {
    if subjects == [] then [] else (if BARE in subjects[0] then [] else [subjects[0]]) + Keepable(subjects[1..])
  }

  function Capped(subjects: seq<string>, limit: Option<nat>): seq<string>
  {
    if limit.Some? && |subjects| > limit.value then subjects[..limit.value] else subjects
  }

  function KeptCategories(space: char -> bool, subjects: seq<string>, limit: Option<nat>): seq<string>
  {
    Stripped(space, Capped(Keepable(subjects), limit))
  }

  function JoinCategories(space: char -> bool, subjects: seq<string>, limit: Option<nat>): Option<string>
  {
    var joined := Join(CATEGORY_SEPARATOR, KeptCategories(space, subjects, limit));
    if joined == "" then None else Some(joined)
  }

  // ── What is split off and what is kept ────────────────────────────────────

  function HasSomething(space: char -> bool): string -> bool
  {
    part => Trim(space, part) != ""
  }

  function Trimmer(space: char -> bool): string -> string
  {
    part => Trim(space, part)
  }

  function IsBare(): string -> bool
  {
    subject => BARE !in subject
  }

  function AsItIs(): string -> string
  {
    subject => subject
  }

  lemma {:induction false} StrippedIsASelection(space: char -> bool, parts: seq<string>)
    ensures IsSelection(parts, HasSomething(space), Trimmer(space), Stripped(space, parts))
  {
    if parts != [] {
      StrippedIsASelection(space, parts[1..]);
      SelectedInFront(parts[0], parts[1..], HasSomething(space), Trimmer(space), Stripped(space, parts[1..]));
      assert [parts[0]] + parts[1..] == parts;
    }
  }

  lemma {:induction false} KeepableIsASelection(subjects: seq<string>)
    ensures IsSelection(subjects, IsBare(), AsItIs(), Keepable(subjects))
  {
    if subjects != [] {
      KeepableIsASelection(subjects[1..]);
      SelectedInFront(subjects[0], subjects[1..], IsBare(), AsItIs(), Keepable(subjects[1..]));
      assert [subjects[0]] + subjects[1..] == subjects;
    }
  }

  /** A stored string is read as the parts between its separators that have something in them, trimmed,
      in order. */
  lemma SplitIsTold(space: char -> bool, parts: seq<string>)
    requires parts != [] && FreeOf(BARE, parts)
    ensures IsSelection(parts, HasSomething(space), Trimmer(space), SplitCategories(space, Some(Join([BARE], parts))))
  {
    SplitJoin(BARE, parts);
    StrippedIsASelection(space, parts);
    if Join([BARE], parts) == "" {
      assert SplitOn(BARE, "") == parts;
      EmptyIsTrimmed(space);
      assert Stripped(space, [""]) == [] by { assert [""][1..] == []; }
    }
  }

  lemma EmptyIsTrimmed(space: char -> bool)
    ensures Trim(space, "") == ""
  {
  }

  /** Of a list, what is kept is what carries no separator, of that no more than the cap, and of that what has
      something in it, trimmed, all in order. */
  lemma KeptIsTold(space: char -> bool, subjects: seq<string>, limit: Option<nat>) returns (bare: seq<string>)
    ensures IsSelection(subjects, IsBare(), AsItIs(), bare)
    ensures var supplied := if limit.Some? && limit.value < |bare| then bare[..limit.value] else bare;
            IsSelection(supplied, HasSomething(space), Trimmer(space), KeptCategories(space, subjects, limit))
  {
    bare := Keepable(subjects);
    KeepableIsASelection(subjects);
    StrippedIsASelection(space, Capped(bare, limit));
  }

  // ── Reading back what was joined ──────────────────────────────────────────

  /** Bare, stripped and not empty: what a subject comes back as. */
  ghost predicate AreSettled(space: char -> bool, subjects: seq<string>)
  {
    forall i :: 0 <= i < |subjects| ==> subjects[i] != "" && Trimmed(space, subjects[i]) && BARE !in subjects[i]
  }

  lemma {:induction false} StrippedAreSettled(space: char -> bool, parts: seq<string>)
    requires FreeOf(BARE, parts)
    ensures AreSettled(space, Stripped(space, parts)) && |Stripped(space, parts)| <= |parts|
  {
    if parts != [] {
      StrippedAreSettled(space, parts[1..]);
      var from, to := TrimIsASlice(space, parts[0]);
    }
  }

  lemma {:induction false} KeepableAreFree(subjects: seq<string>)
    ensures FreeOf(BARE, Keepable(subjects))
    ensures FreeOf(BARE, subjects) ==> Keepable(subjects) == subjects
  {
    if subjects != [] {
      KeepableAreFree(subjects[1..]);
      assert [subjects[0]] + subjects[1..] == subjects;
      assert FreeOf(BARE, subjects) ==> FreeOf(BARE, subjects[1..]);
    }
  }

  lemma KeptAreSettled(space: char -> bool, subjects: seq<string>, limit: Option<nat>)
    ensures AreSettled(space, KeptCategories(space, subjects, limit))
    ensures limit.Some? ==> |KeptCategories(space, subjects, limit)| <= limit.value
  {
    KeepableAreFree(subjects);
    StrippedAreSettled(space, Capped(Keepable(subjects), limit));
  }

  lemma SplitAreSettled(space: char -> bool, value: Option<string>)
    ensures AreSettled(space, SplitCategories(space, value))
  {
    if value.Some? {
      SplitHasNoSeparator(BARE, value.value);
      StrippedAreSettled(space, SplitOn(BARE, value.value));
    }
  }

  lemma {:induction false} StrippedTo(space: char -> bool, parts: seq<string>, subjects: seq<string>)
    requires |parts| == |subjects|
    requires forall i :: 0 <= i < |parts| ==> Trim(space, parts[i]) == subjects[i] && subjects[i] != ""
    ensures Stripped(space, parts) == subjects
  {
    if parts != [] {
      StrippedTo(space, parts[1..], subjects[1..]);
      assert [subjects[0]] + subjects[1..] == subjects;
    }
  }

  lemma SettledIsStripped(space: char -> bool, subject: string)
    requires Trimmed(space, subject)
    ensures Trim(space, subject) == subject
    ensures space(' ') ==> Trim(space, " " + subject) == subject
  {
    TrimIsTheCore(space, "", subject, "");
    assert "" + subject + "" == subject;
    if space(' ') {
      TrimIsTheCore(space, " ", subject, "");
      assert " " + subject + "" == " " + subject;
    }
  }

  /** A settled list is kept as it is, where it is not past the cap. */
  lemma SettledAreKept(space: char -> bool, subjects: seq<string>, limit: Option<nat>)
    requires AreSettled(space, subjects) && (limit.Some? ==> |subjects| <= limit.value)
    ensures KeptCategories(space, subjects, limit) == subjects
  {
    KeepableAreFree(subjects);
    forall i | 0 <= i < |subjects| ensures Trim(space, subjects[i]) == subjects[i] {
      SettledIsStripped(space, subjects[i]);
    }
    StrippedTo(space, subjects, subjects);
  }

  lemma JoinOfSettled(subjects: seq<string>)
    requires subjects != [] && subjects[0] != ""
    ensures Join(CATEGORY_SEPARATOR, subjects) != ""
  {
  }

  /** What a reader gets back is exactly what was kept, for every list and every cap. */
  lemma SplitOfJoin(space: char -> bool, subjects: seq<string>, limit: Option<nat>)
    requires IsSpaced(space)
    ensures SplitCategories(space, JoinCategories(space, subjects, limit)) == KeptCategories(space, subjects, limit)
  {
    var kept := KeptCategories(space, subjects, limit);
    KeptAreSettled(space, subjects, limit);
    if kept != [] {
      JoinOfSettled(kept);
      SplitPaddedJoin(BARE, " ", kept);
      assert [BARE] + " " == CATEGORY_SEPARATOR;
      var parts := Padded(" ", kept);
      forall i | 0 <= i < |kept| ensures Trim(space, parts[i]) == kept[i] {
        SettledIsStripped(space, kept[i]);
      }
      StrippedTo(space, parts, kept);
    }
  }

  // ── Bounding a string that arrives joined ─────────────────────────────────

  datatype Refusal = TooMany(count: nat) | TooWide(width: nat)

  function ReboundCategories(space: char -> bool, value: Option<string>): Result<Option<string>, Refusal>
  {
    var subjects := SplitCategories(space, value);
    if subjects == [] then Ok(None)
    else if |subjects| > MAX_CATEGORIES_PER_BOOK then Err(TooMany(|subjects|))
    else
      var rejoined := JoinCategories(space, subjects, Some(MAX_CATEGORIES_PER_BOOK));
      if rejoined.Some? && |rejoined.value| > CATEGORIES_MAX then Err(TooWide(|rejoined.value|)) else Ok(rejoined)
  }

  /** Rejoining keeps every subject, is idempotent, and what it answers is within both bounds. */
  lemma ReboundKeepsTheSubjects(space: char -> bool, value: Option<string>)
    requires IsSpaced(space)
    ensures var r := ReboundCategories(space, value);
            r.Ok? ==>
              && SplitCategories(space, r.value) == SplitCategories(space, value)
              && ReboundCategories(space, r.value) == r
              && |SplitCategories(space, r.value)| <= MAX_CATEGORIES_PER_BOOK
              && (r.value.Some? ==> |r.value.value| <= CATEGORIES_MAX)
  {
    var subjects := SplitCategories(space, value);
    SplitAreSettled(space, value);
    if |subjects| <= MAX_CATEGORIES_PER_BOOK {
      SettledAreKept(space, subjects, Some(MAX_CATEGORIES_PER_BOOK));
      SplitOfJoin(space, subjects, Some(MAX_CATEGORIES_PER_BOOK));
    }
  }

  function Width(subjects: seq<string>): nat
  {
    if subjects == [] then 0 else |subjects[0]| + Width(subjects[1..])
  }

  lemma {:induction false} JoinWidthIs(sep: string, subjects: seq<string>)
    requires subjects != []
    ensures |Join(sep, subjects)| == Width(subjects) + (|subjects| - 1) * |sep|
  {
    if |subjects| > 1 {
      JoinWidthIs(sep, subjects[1..]);
    } else {
      assert subjects[1..] == [];
    }
  }

  lemma {:induction false} WidthIsBounded(subjects: seq<string>, most: nat)
    requires forall i :: 0 <= i < |subjects| ==> |subjects[i]| <= most
    ensures Width(subjects) <= |subjects| * most
    ensures (forall i :: 0 <= i < |subjects| ==> |subjects[i]| == most) ==> Width(subjects) == |subjects| * most
  {
    if subjects != [] {
      WidthIsBounded(subjects[1..], most);
      assert |subjects| * most == most + (|subjects| - 1) * most;
    }
  }

  lemma RejoinedIs(space: char -> bool, subjects: seq<string>)
    requires IsSpaced(space) && AreSettled(space, subjects)
    ensures subjects != [] && |subjects| <= MAX_CATEGORIES_PER_BOOK ==>
              && JoinCategories(space, subjects, Some(MAX_CATEGORIES_PER_BOOK)) == Some(Join("; ", subjects))
              && |Join("; ", subjects)| == Width(subjects) + 2 * (|subjects| - 1)
  {
    if subjects != [] && |subjects| <= MAX_CATEGORIES_PER_BOOK {
      SettledAreKept(space, subjects, Some(MAX_CATEGORIES_PER_BOOK));
      JoinWidthIs(CATEGORY_SEPARATOR, subjects);
      assert subjects[0] != "";
    }
  }

  /** The answers, exactly: more than 32 subjects, refused by their number; within it, more than 3902 characters
      rejoined, refused by theirs; and otherwise the subjects rejoined, or nothing where there are none. */
  lemma ReboundRefusesIff(space: char -> bool, value: Option<string>)
    requires IsSpaced(space)
    ensures var subjects, r := SplitCategories(space, value), ReboundCategories(space, value);
            if |subjects| > 32 then r == Err(TooMany(|subjects|))
            else if subjects == [] then r == Ok(None)
            else if Width(subjects) + 2 * (|subjects| - 1) > 3902 then r == Err(TooWide(Width(subjects) + 2 * (|subjects| - 1)))
            else r == Ok(Some(Join("; ", subjects)))
  {
    SplitAreSettled(space, value);
    RejoinedIs(space, SplitCategories(space, value));
  }

  lemma {:induction false} StrippedIsNoWider(space: char -> bool, parts: seq<string>, most: nat)
    requires forall i :: 0 <= i < |parts| ==> |parts[i]| <= most
    ensures forall i :: 0 <= i < |Stripped(space, parts)| ==> |Stripped(space, parts)[i]| <= most
  {
    if parts != [] {
      StrippedIsNoWider(space, parts[1..], most);
      var from, to := TrimIsASlice(space, parts[0]);
    }
  }

  lemma FitsByCount(n: nat, width: nat)
    requires 1 <= n <= MAX_CATEGORIES_PER_BOOK && width <= n * CATEGORY_MAX
    ensures width + (n - 1) * 2 <= CATEGORIES_MAX
  {
  }

  /** Any list a request could state fits: as many subjects as the cap, each as wide as one may be and
      bare of the separator, come back whole through the door a joined string comes in at. */
  lemma AStatedListFits(space: char -> bool, subjects: seq<string>)
    requires IsSpaced(space) && |subjects| <= 32 && FreeOf(';', subjects)
    requires forall i :: 0 <= i < |subjects| ==> |subjects[i]| <= 120
    ensures var joined := JoinCategories(space, subjects, Some(32));
            ReboundCategories(space, joined) == Ok(joined) && (joined.Some? ==> |joined.value| <= 3902)
  {
    var kept := KeptCategories(space, subjects, Some(MAX_CATEGORIES_PER_BOOK));
    var joined := JoinCategories(space, subjects, Some(MAX_CATEGORIES_PER_BOOK));
    KeepableAreFree(subjects);
    KeptAreSettled(space, subjects, Some(MAX_CATEGORIES_PER_BOOK));
    SplitOfJoin(space, subjects, Some(MAX_CATEGORIES_PER_BOOK));
    SettledAreKept(space, kept, Some(MAX_CATEGORIES_PER_BOOK));
    StrippedIsNoWider(space, subjects, CATEGORY_MAX);
    WidthIsBounded(kept, CATEGORY_MAX);
    if kept != [] {
      JoinWidthIs(CATEGORY_SEPARATOR, kept);
      JoinOfSettled(kept);
      FitsByCount(|kept|, Width(kept));
    }
  }

  function Letters(n: nat): string
  {
    seq(n, _ => 'a')
  }

  lemma LettersAreSettled(space: char -> bool, lists: seq<string>)
    requires !space('a') && forall i :: 0 <= i < |lists| ==> lists[i] != "" && lists[i] == Letters(|lists[i]|)
    ensures AreSettled(space, lists)
  {
  }

  /** The bound is met by such a list, so no smaller one would do. */
  lemma BoundIsAttained(space: char -> bool)
    requires IsSpaced(space) && !space('a')
    ensures var subjects := seq(32, _ => Letters(120));
            var joined := JoinCategories(space, subjects, Some(32));
            joined.Some? && |joined.value| == CATEGORIES_MAX
  {
    var subjects := seq(MAX_CATEGORIES_PER_BOOK, _ => Letters(CATEGORY_MAX));
    LettersAreSettled(space, subjects);
    SettledAreKept(space, subjects, Some(MAX_CATEGORIES_PER_BOOK));
    WidthIsBounded(subjects, CATEGORY_MAX);
    JoinWidthIs(CATEGORY_SEPARATOR, subjects);
  }

  /** Rejoining lengthens: a string of exactly the bound, within the count, that arrived joined on the bare
      separator is refused for what it would be stored as. */
  lemma ArrivingWithinIsNotEnough(space: char -> bool)
    requires IsSpaced(space) && !space('a')
    ensures exists value :: |value| == CATEGORIES_MAX && |SplitCategories(space, Some(value))| == MAX_CATEGORIES_PER_BOOK
                            && ReboundCategories(space, Some(value)) == Err(TooWide(3933))
  {
    var first := seq(MAX_CATEGORIES_PER_BOOK - 1, _ => Letters(CATEGORY_MAX));
    var subjects := [Letters(151)] + first;
    LettersAreSettled(space, subjects);
    WidthIsBounded(first, CATEGORY_MAX);
    assert subjects[1..] == first;
    JoinWidthIs([BARE], subjects);
    SplitJoin(BARE, subjects);
    var value := Join([BARE], subjects);
    forall i | 0 <= i < |subjects| ensures Trim(space, subjects[i]) == subjects[i] {
      SettledIsStripped(space, subjects[i]);
    }
    StrippedTo(space, subjects, subjects);
    SettledAreKept(space, subjects, Some(MAX_CATEGORIES_PER_BOOK));
    JoinWidthIs(CATEGORY_SEPARATOR, subjects);
    assert Width(subjects) == 151 + Width(first);
    assert |value| == CATEGORIES_MAX && SplitCategories(space, Some(value)) == subjects;
    assert ReboundCategories(space, Some(value)) == Err(TooWide(3933));
  }
}
