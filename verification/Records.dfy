/** A catalogue's record: what its collections are folded to, how two records make a third, and the
    flag that skips the fold. */
module Records {
  import opened Folds
  import Headings
  import opened Strings
  import opened Wrappers

  datatype Subject = Subject(name: string, vocabulary: Option<string>, identifier: Option<string>)

  datatype Assertion = Assertion(spelling: string, source: string, identifier: string)

  type Heading = Headings.Heading

  // ── Subjects ──────────────────────────────────────────────────────────────

  datatype SubjectKey = SubjectKey(name: string, vocabulary: Option<string>)

  const BY_KEY: Subject -> SubjectKey := (s: Subject) => SubjectKey(s.name, s.vocabulary)
  const BY_NAME: Subject -> string := (s: Subject) => s.name

  /** The first of two has its own identifier, or else the other's. */
  const FILL_IDENTIFIER: (Subject, Subject) -> Subject :=
    (a: Subject, b: Subject) => if a.identifier.None? then a.(identifier := b.identifier) else a

  /** One subject for each label and vocabulary. */
  function Kept(subjects: seq<Subject>): seq<Subject>
  {
    Gathered(subjects, BY_KEY, FILL_IDENTIFIER)
  }

  /** An undeclared subject that only repeats something declared beside it. */
  ghost predicate Restates(bare: Subject, entries: seq<Subject>)
  {
    && (exists d :: d in entries && d.vocabulary.Some?)
    && (bare.identifier.None? || exists d :: d in entries && d.vocabulary.Some? && d.identifier == bare.identifier)
  }

  ghost predicate Survives(s: Subject, entries: seq<Subject>)
  {
    s.vocabulary.Some? || !Restates(s, With(entries, BY_NAME, s.name))
  }

  /** The subjects that survive beside `entries`, in their order. */
  ghost function Survivors(subjects: seq<Subject>, entries: seq<Subject>): seq<Subject>
  {
    if subjects == [] then []
    else
      var before, s := Survivors(subjects[..|subjects| - 1], entries), subjects[|subjects| - 1];
      if Survives(s, entries) then before + [s] else before
  }

  function Names(subjects: seq<Subject>): seq<string>
  {
    Distinct(Keys(subjects, BY_NAME))
  }

  /** `_folded_subjects`: label by label in the order of their first occurrences, less the restatements. */
  ghost function FoldedSubjects(subjects: seq<Subject>): seq<Subject>
  {
    var kept := Kept(subjects);
    Grouped(Survivors(kept, kept), BY_NAME, Names(kept))
  }

  method FoldSubjects(subjects: seq<Subject>) returns (folded: seq<Subject>)
    ensures folded == FoldedSubjects(subjects)
  {
    var kept := Gather(subjects, BY_KEY, FILL_IDENTIFIER);
    var labels := Names(kept);
    folded := [];
    var g := 0;
    while g < |labels|
      invariant g <= |labels| && folded == Grouped(Survivors(kept, kept), BY_NAME, labels[..g])
    {
      var more := KeepOfGroup(kept, labels[g]);
      SurvivorsOfGroup(kept, kept, labels[g]);
      assert labels[..g + 1][..g] == labels[..g];
      folded := folded + more;
      g := g + 1;
    }
    assert labels[..|labels|] == labels;
  }

  /** One label's entries, less those that only restate another of them. */
  method KeepOfGroup(kept: seq<Subject>, name: string) returns (some: seq<Subject>)
    ensures some == Survivors(With(kept, BY_NAME, name), kept)
  {
    var entries := With(kept, BY_NAME, name);
    WithHasOnly(kept, BY_NAME, name);
    some := [];
    for i := 0 to |entries|
      invariant some == Survivors(entries[..i], kept)
    {
      var s := entries[i];
      assert entries[..i + 1][..i] == entries[..i] && s in entries;
      var restates := DoesRestate(s, entries);
      if s.vocabulary.Some? || !restates {
        some := some + [s];
      }
    }
    assert entries[..|entries|] == entries;
  }

  method DoesRestate(bare: Subject, entries: seq<Subject>) returns (restates: bool)
    ensures restates <==> Restates(bare, entries)
  {
    var declared, named := false, false;
    for i := 0 to |entries|
      invariant declared <==> exists d :: d in entries[..i] && d.vocabulary.Some?
      invariant named <==> exists d :: d in entries[..i] && d.vocabulary.Some? && d.identifier == bare.identifier
    {
      assert forall d :: d in entries[..i + 1] <==> d in entries[..i] || d == entries[i];
      if entries[i].vocabulary.Some? {
        declared := true;
        named := named || entries[i].identifier == bare.identifier;
      }
    }
    assert entries[..|entries|] == entries;
    restates := declared && (bare.identifier.None? || named);
  }

  /** Dropping restatements and taking one label's subjects can be done in either order. */
  lemma {:induction false} SurvivorsOfGroup(subjects: seq<Subject>, entries: seq<Subject>, name: string)
    ensures With(Survivors(subjects, entries), BY_NAME, name) == Survivors(With(subjects, BY_NAME, name), entries)
  {
    if subjects != [] {
      var before, s := subjects[..|subjects| - 1], subjects[|subjects| - 1];
      SurvivorsOfGroup(before, entries, name);
    }
  }

  lemma {:induction false} SurvivorsAreThose(subjects: seq<Subject>, entries: seq<Subject>)
    ensures forall s :: s in Survivors(subjects, entries) <==> s in subjects && Survives(s, entries)
  {
    if subjects != [] {
      SurvivorsAreThose(subjects[..|subjects| - 1], entries);
      assert forall s :: s in subjects <==> s in subjects[..|subjects| - 1] || s == subjects[|subjects| - 1];
    }
  }

  lemma {:induction false} AllSurvive(subjects: seq<Subject>, entries: seq<Subject>)
    requires forall s :: s in subjects ==> Survives(s, entries)
    ensures Survivors(subjects, entries) == subjects
  {
    if subjects != [] {
      assert subjects[|subjects| - 1] in subjects;
      AllSurvive(subjects[..|subjects| - 1], entries);
    }
  }

  lemma SubjectFoldKeepsTheKey()
    ensures KeepsTheKey(BY_KEY, FILL_IDENTIFIER)
  {
  }

  ghost predicate AreUnlike(subjects: seq<Subject>)
  {
    AreDistinct(Keys(subjects, BY_KEY))
  }

  lemma {:induction false} SurvivorsAreUnlike(subjects: seq<Subject>, entries: seq<Subject>)
    requires AreUnlike(subjects)
    ensures AreUnlike(Survivors(subjects, entries))
  {
    if subjects != [] {
      var before, s := subjects[..|subjects| - 1], subjects[|subjects| - 1];
      assert Keys(before, BY_KEY) == Keys(subjects, BY_KEY)[..|subjects| - 1];
      SurvivorsAreUnlike(before, entries);
      SurvivorsAreThose(before, entries);
      AppendedIsUnlike(Survivors(before, entries), s, subjects);
    }
  }

  lemma AppendedIsUnlike(some: seq<Subject>, s: Subject, subjects: seq<Subject>)
    requires AreUnlike(some) && AreUnlike(subjects) && subjects != [] && s == subjects[|subjects| - 1]
    requires forall x :: x in some ==> x in subjects[..|subjects| - 1]
    ensures AreUnlike(some + [s])
  {
    forall i | 0 <= i < |some| ensures BY_KEY(some[i]) != BY_KEY(s) {
      assert some[i] in some;
      var j :| 0 <= j < |subjects| - 1 && subjects[j] == some[i];
      assert Keys(subjects, BY_KEY)[j] != Keys(subjects, BY_KEY)[|subjects| - 1];
    }
    forall i, j | 0 <= i < j < |some + [s]| ensures Keys(some + [s], BY_KEY)[i] != Keys(some + [s], BY_KEY)[j] {
      if j < |some| {
        assert Keys(some, BY_KEY)[i] != Keys(some, BY_KEY)[j];
      }
    }
  }

  lemma {:induction false} WithIsUnlike(subjects: seq<Subject>, name: string)
    requires AreUnlike(subjects)
    ensures AreUnlike(With(subjects, BY_NAME, name))
  {
    if subjects != [] {
      var before, s := subjects[..|subjects| - 1], subjects[|subjects| - 1];
      assert Keys(before, BY_KEY) == Keys(subjects, BY_KEY)[..|subjects| - 1];
      WithIsUnlike(before, name);
      WithHasOnly(before, BY_NAME, name);
      AppendedIsUnlike(With(before, BY_NAME, name), s, subjects);
    }
  }

  lemma {:induction false} GroupedHasOnly(subjects: seq<Subject>, names: seq<string>)
    ensures forall s :: s in Grouped(subjects, BY_NAME, names) <==> s in subjects && s.name in names
  {
    if names != [] {
      GroupedHasOnly(subjects, names[..|names| - 1]);
      WithHasOnly(subjects, BY_NAME, names[|names| - 1]);
      assert forall n :: n in names <==> n in names[..|names| - 1] || n == names[|names| - 1];
    }
  }

  lemma {:induction false} GroupedIsUnlike(subjects: seq<Subject>, names: seq<string>)
    requires AreUnlike(subjects) && AreDistinct(names)
    ensures AreUnlike(Grouped(subjects, BY_NAME, names))
  {
    if names != [] {
      var before, last := names[..|names| - 1], names[|names| - 1];
      GroupedIsUnlike(subjects, before);
      GroupedHasOnly(subjects, before);
      WithIsUnlike(subjects, last);
      WithHasOnly(subjects, BY_NAME, last);
      assert last !in before;
      TwoGroupsAreUnlike(Grouped(subjects, BY_NAME, before), With(subjects, BY_NAME, last), last);
    }
  }

  lemma TwoGroupsAreUnlike(a: seq<Subject>, b: seq<Subject>, name: string)
    requires AreUnlike(a) && AreUnlike(b)
    requires (forall s :: s in a ==> s.name != name) && (forall s :: s in b ==> s.name == name)
    ensures AreUnlike(a + b)
  {
    forall i, j | 0 <= i < j < |a + b| ensures Keys(a + b, BY_KEY)[i] != Keys(a + b, BY_KEY)[j] {
      if j < |a| {
        assert Keys(a, BY_KEY)[i] != Keys(a, BY_KEY)[j];
      } else if i < |a| {
        assert a[i] in a && b[j - |a|] in b;
      } else {
        assert Keys(b, BY_KEY)[i - |a|] != Keys(b, BY_KEY)[j - |a|];
      }
    }
  }

  /** Each label keeps at least one subject: a declared one does not restate anything. */
  lemma EveryNameSurvives(kept: seq<Subject>, name: string)
    requires name in Names(kept)
    ensures With(Survivors(kept, kept), BY_NAME, name) != []
  {
    DistinctIsDistinct(Keys(kept, BY_NAME));
    var i :| 0 <= i < |kept| && Keys(kept, BY_NAME)[i] == name;
    var entries := With(kept, BY_NAME, name);
    WithHasOnly(kept, BY_NAME, name);
    SurvivorsAreThose(kept, kept);
    WithHasOnly(Survivors(kept, kept), BY_NAME, name);
    var s := kept[i];
    if !Survives(s, kept) {
      var d :| d in entries && d.vocabulary.Some?;
      assert d in With(Survivors(kept, kept), BY_NAME, name);
    } else {
      assert s in With(Survivors(kept, kept), BY_NAME, name);
    }
  }

  /** What a fold leaves: one subject for each label and vocabulary, label by label in first
      occurrence order, no label lost, no restatement left. */
  lemma FoldedShape(subjects: seq<Subject>)
    ensures var folded := FoldedSubjects(subjects);
            && AreUnlike(folded) && Names(folded) == Names(subjects)
            && Grouped(folded, BY_NAME, Names(folded)) == folded
            && forall s :: s in folded ==> Survives(s, folded)
  {
    var kept := Kept(subjects);
    var names := Names(kept);
    var some := Survivors(kept, kept);
    SubjectFoldKeepsTheKey();
    GatheredKeys(subjects, BY_KEY, FILL_IDENTIFIER);
    NamesOfKept(subjects);
    DistinctIsDistinct(Keys(kept, BY_NAME));
    SurvivorsAreUnlike(kept, kept);
    GroupedIsUnlike(some, names);
    forall name | name in names ensures With(some, BY_NAME, name) != [] {
      EveryNameSurvives(kept, name);
    }
    KeysOfGrouped(some, BY_NAME, names);
    GroupedTwice(some, BY_NAME, names);
    forall s | s in FoldedSubjects(subjects) ensures Survives(s, FoldedSubjects(subjects)) {
      GroupedHasOnly(some, names);
      SurvivorsAreThose(kept, kept);
      WithOfGrouped(some, BY_NAME, names, s.name);
      SurvivorsOfGroup(kept, kept, s.name);
      StillSurvives(s, kept);
    }
  }

  lemma StillSurvives(s: Subject, kept: seq<Subject>)
    requires Survives(s, kept)
    ensures s.vocabulary.Some? || !Restates(s, Survivors(With(kept, BY_NAME, s.name), kept))
  {
    SurvivorsAreThose(With(kept, BY_NAME, s.name), kept);
  }

  lemma {:induction false} NamesOfKept(subjects: seq<Subject>)
    ensures Names(Kept(subjects)) == Names(subjects)
  {
    if subjects != [] {
      var before, s := subjects[..|subjects| - 1], subjects[|subjects| - 1];
      NamesOfKept(before);
      var kept := Kept(before);
      assert Keys(subjects, BY_NAME)[..|subjects| - 1] == Keys(before, BY_NAME);
      DistinctIsDistinct(Keys(kept, BY_NAME));
      var i := IndexOf(kept, BY_KEY, BY_KEY(s));
      if i < |kept| {
        assert Keys(kept, BY_NAME)[i] == s.name;
        assert Keys(Kept(subjects), BY_NAME) == Keys(kept, BY_NAME);
      } else {
        assert Keys(kept + [s], BY_NAME)[..|kept|] == Keys(kept, BY_NAME);
      }
    }
  }

  /** The first identifier any occurrence of a label and vocabulary has, or none where none has one. */
  ghost predicate IsFirstIdentifier(subjects: seq<Subject>, key: SubjectKey, identifier: Option<string>)
  {
    if forall i :: 0 <= i < |subjects| && BY_KEY(subjects[i]) == key ==> subjects[i].identifier.None? then identifier.None?
    else exists i :: IsIdentifiedAt(subjects, key, i) && subjects[i].identifier == identifier
                     && forall j :: 0 <= j < i ==> !IsIdentifiedAt(subjects, key, j)
  }

  ghost predicate IsIdentifiedAt(subjects: seq<Subject>, key: SubjectKey, i: int)
  {
    0 <= i < |subjects| && SubjectKey(subjects[i].name, subjects[i].vocabulary) == key && subjects[i].identifier.Some?
  }

  lemma IdentifierOneMore(subjects: seq<Subject>, s: Subject, key: SubjectKey, was: Option<string>)
    requires IsFirstIdentifier(subjects, key, was)
    ensures IsFirstIdentifier(subjects + [s], key, if was.None? && BY_KEY(s) == key then s.identifier else was)
  {
    var more := subjects + [s];
    assert forall i :: 0 <= i < |subjects| ==> more[i] == subjects[i];
    forall i | 0 <= i < |subjects| ensures IsIdentifiedAt(more, key, i) <==> IsIdentifiedAt(subjects, key, i) {
    }
    if was.None? {
      assert forall i :: !IsIdentifiedAt(subjects, key, i);
      if BY_KEY(s) == key && s.identifier.Some? {
        assert IsIdentifiedAt(more, key, |subjects|);
      }
    } else {
      var i :| IsIdentifiedAt(subjects, key, i) && subjects[i].identifier == was
            && forall j :: 0 <= j < i ==> !IsIdentifiedAt(subjects, key, j);
      assert IsIdentifiedAt(more, key, i) && BY_KEY(more[i]) == key;
    }
  }

  /** One subject stays for each label and vocabulary, with the first identifier any occurrence had. */
  lemma {:induction false} KeptKeepsTheFirst(subjects: seq<Subject>)
    ensures forall s :: s in Kept(subjects) ==> IsFirstIdentifier(subjects, BY_KEY(s), s.identifier)
    ensures forall key :: key !in Keys(Kept(subjects), BY_KEY) ==> IsFirstIdentifier(subjects, key, None)
    ensures Keys(Kept(subjects), BY_KEY) == Distinct(Keys(subjects, BY_KEY))
  {
    SubjectFoldKeepsTheKey();
    GatheredKeys(subjects, BY_KEY, FILL_IDENTIFIER);
    if subjects != [] {
      var before, last := subjects[..|subjects| - 1], subjects[|subjects| - 1];
      KeptKeepsTheFirst(before);
      GatheredKeys(before, BY_KEY, FILL_IDENTIFIER);
      assert before + [last] == subjects;
      KeptOneMore(before, last, Kept(before), Kept(subjects));
    }
  }

  lemma KeptOneMore(before: seq<Subject>, last: Subject, kept: seq<Subject>, after: seq<Subject>)
    requires after == Put(kept, last, BY_KEY, FILL_IDENTIFIER) && AreDistinct(Keys(kept, BY_KEY))
    requires forall s :: s in kept ==> IsFirstIdentifier(before, BY_KEY(s), s.identifier)
    requires forall key :: key !in Keys(kept, BY_KEY) ==> IsFirstIdentifier(before, key, None)
    ensures forall s :: s in after ==> IsFirstIdentifier(before + [last], BY_KEY(s), s.identifier)
    ensures forall key :: key !in Keys(after, BY_KEY) ==> IsFirstIdentifier(before + [last], key, None)
  {
    var i := IndexOf(kept, BY_KEY, BY_KEY(last));
    assert i == |kept| ==> BY_KEY(last) !in Keys(kept, BY_KEY);
    forall s | s in after ensures IsFirstIdentifier(before + [last], BY_KEY(s), s.identifier) {
      var j :| 0 <= j < |after| && after[j] == s;
      if j < |kept| {
        assert kept[j] in kept && (j != i && i < |kept| ==> Keys(kept, BY_KEY)[j] != Keys(kept, BY_KEY)[i]);
        IdentifierOneMore(before, last, BY_KEY(s), kept[j].identifier);
      } else {
        IdentifierOneMore(before, last, BY_KEY(last), None);
      }
    }
    forall key | key !in Keys(after, BY_KEY) ensures IsFirstIdentifier(before + [last], key, None) {
      KeysOfPut(kept, last, after);
      IdentifierOneMore(before, last, key, None);
    }
  }

  lemma KeysOfPut(kept: seq<Subject>, last: Subject, after: seq<Subject>)
    requires after == Put(kept, last, BY_KEY, FILL_IDENTIFIER)
    ensures BY_KEY(last) in Keys(after, BY_KEY) && forall key :: key in Keys(kept, BY_KEY) ==> key in Keys(after, BY_KEY)
  {
    var i := IndexOf(kept, BY_KEY, BY_KEY(last));
    assert Keys(after, BY_KEY)[i] == BY_KEY(last);
    forall key | key in Keys(kept, BY_KEY) ensures key in Keys(after, BY_KEY) {
      var j :| 0 <= j < |kept| && Keys(kept, BY_KEY)[j] == key;
      assert Keys(after, BY_KEY)[j] == key;
    }
  }

  /** A label and vocabulary some occurrence has, with the first identifier any has. */
  ghost predicate IsTold(subjects: seq<Subject>, s: Subject)
  {
    && (exists x :: x in subjects && x.name == s.name && x.vocabulary == s.vocabulary)
    && IsFirstIdentifier(subjects, SubjectKey(s.name, s.vocabulary), s.identifier)
  }

  lemma FirstIdentifierIsOne(subjects: seq<Subject>, key: SubjectKey, a: Option<string>, b: Option<string>)
    requires IsFirstIdentifier(subjects, key, a) && IsFirstIdentifier(subjects, key, b)
    ensures a == b
  {
    if !(forall i :: 0 <= i < |subjects| && BY_KEY(subjects[i]) == key ==> subjects[i].identifier.None?) {
      var i :| IsIdentifiedAt(subjects, key, i) && subjects[i].identifier == a && forall j :: 0 <= j < i ==> !IsIdentifiedAt(subjects, key, j);
      var j :| IsIdentifiedAt(subjects, key, j) && subjects[j].identifier == b && forall k :: 0 <= k < j ==> !IsIdentifiedAt(subjects, key, k);
      assert i == j;
    }
  }

  lemma KeptIsTold(subjects: seq<Subject>, s: Subject)
    ensures s in Kept(subjects) <==> IsTold(subjects, s)
  {
    KeptKeepsTheFirst(subjects);
    DistinctIsDistinct(Keys(subjects, BY_KEY));
    var kept, key := Kept(subjects), BY_KEY(s);
    assert key in Keys(kept, BY_KEY) <==> exists x :: x in subjects && x.name == s.name && x.vocabulary == s.vocabulary by {
      if x :| x in subjects && x.name == s.name && x.vocabulary == s.vocabulary {
        var i :| 0 <= i < |subjects| && subjects[i] == x;
        assert Keys(subjects, BY_KEY)[i] == key;
      }
      if key in Keys(kept, BY_KEY) {
        var i :| 0 <= i < |subjects| && Keys(subjects, BY_KEY)[i] == key;
        assert subjects[i] in subjects;
      }
    }
    if s in kept {
      var i :| 0 <= i < |kept| && kept[i] == s;
      assert Keys(kept, BY_KEY)[i] == key;
    }
    if key in Keys(kept, BY_KEY) {
      var i :| 0 <= i < |kept| && Keys(kept, BY_KEY)[i] == key;
      assert kept[i] in kept;
      if IsFirstIdentifier(subjects, key, s.identifier) {
        FirstIdentifierIsOne(subjects, key, s.identifier, kept[i].identifier);
      }
    }
  }

  /** Which subjects a fold leaves: one for each label and vocabulary, with the first identifier any occurrence had,
      but an undeclared one only where nothing of its label is declared, or where it has an identifier
      that no declared one of its label has. */
  lemma FoldedIsTold(subjects: seq<Subject>, s: Subject)
    ensures s in FoldedSubjects(subjects) <==>
              && IsTold(subjects, s)
              && (|| s.vocabulary.Some?
                  || (forall d :: IsTold(subjects, d) && d.name == s.name ==> d.vocabulary.None?)
                  || (s.identifier.Some? && forall d :: IsTold(subjects, d) && d.name == s.name && d.vocabulary.Some? ==> d.identifier != s.identifier))
  {
    var kept := Kept(subjects);
    forall d ensures d in kept <==> IsTold(subjects, d) {
      KeptIsTold(subjects, d);
    }
    FoldedHas(kept, s);
    WithHasOnly(kept, BY_NAME, s.name);
    assert forall d :: d in With(kept, BY_NAME, s.name) <==> IsTold(subjects, d) && d.name == s.name;
  }

  lemma FoldedHas(kept: seq<Subject>, s: Subject)
    ensures s in Grouped(Survivors(kept, kept), BY_NAME, Names(kept)) <==> s in kept && Survives(s, kept)
  {
    GroupedHasOnly(Survivors(kept, kept), Names(kept));
    SurvivorsAreThose(kept, kept);
    DistinctIsDistinct(Keys(kept, BY_NAME));
    if s in kept {
      var i :| 0 <= i < |kept| && kept[i] == s;
      assert Keys(kept, BY_NAME)[i] == s.name;
    }
  }

  /** Folding twice is folding once. */
  lemma FoldedTwice(subjects: seq<Subject>)
    ensures FoldedSubjects(FoldedSubjects(subjects)) == FoldedSubjects(subjects)
  {
    var folded := FoldedSubjects(subjects);
    FoldedShape(subjects);
    GatheredIsItself(folded, BY_KEY, FILL_IDENTIFIER);
    AllSurvive(folded, folded);
  }

  // ── Headings and identifiers ──────────────────────────────────────────────

  const BY_PAIR: Heading -> Headings.Key := (h: Heading) => h.key
  const FILL_HEADING: (Heading, Heading) -> Heading := (a: Heading, b: Heading) => Headings.Filled(a, b)

  /** `_union`: the headings of every source, joined by scheme and number. */
  function Union(headings: seq<Heading>): seq<Heading>
  {
    Gathered(headings, BY_PAIR, FILL_HEADING)
  }

  const BY_ITSELF: Assertion -> Assertion := (a: Assertion) => a
  const FIRST: (Assertion, Assertion) -> Assertion := (a: Assertion, b: Assertion) => a

  /** `_distinct`. */
  function DistinctAssertions(assertions: seq<Assertion>): seq<Assertion>
  {
    Gathered(assertions, BY_ITSELF, FIRST)
  }

  lemma HeadingFoldKeepsTheKey()
    ensures KeepsTheKey(BY_PAIR, FILL_HEADING) && KeepsTheKey(BY_ITSELF, FIRST)
  {
  }

  /** The caption and the kind a heading comes out with are the first any occurrence had. */
  lemma {:induction false} UnionKeepsTheFirst(headings: seq<Heading>)
    ensures forall h :: h in Union(headings) ==>
              h.caption == Headings.FirstCaption(headings, h.key) && h.kind == Headings.FirstKind(headings, h.key)
    ensures Keys(Union(headings), BY_PAIR) == Distinct(Keys(headings, BY_PAIR))
  {
    HeadingFoldKeepsTheKey();
    GatheredKeys(headings, BY_PAIR, FILL_HEADING);
    if headings != [] {
      var before, last := headings[..|headings| - 1], headings[|headings| - 1];
      UnionKeepsTheFirst(before);
      assert before + [last] == headings;
      var kept := Union(before);
      var i := IndexOf(kept, BY_PAIR, last.key);
      forall h | h in Union(headings)
        ensures h.caption == Headings.FirstCaption(headings, h.key) && h.kind == Headings.FirstKind(headings, h.key)
      {
        Headings.FirstOfAppended(before, last, h.key);
        var j :| 0 <= j < |Union(headings)| && Union(headings)[j] == h;
        if j < |kept| {
          assert kept[j] in kept;
          OtherKey(headings, kept, i, j);
        } else {
          NotYetNamed(before, last.key);
        }
      }
    }
  }

  lemma OtherKey(headings: seq<Heading>, kept: seq<Heading>, i: nat, j: nat)
    requires headings != [] && kept == Union(headings[..|headings| - 1]) && i == IndexOf(kept, BY_PAIR, headings[|headings| - 1].key)
    requires j < |kept|
    ensures j != i ==> kept[j].key != headings[|headings| - 1].key
  {
    HeadingFoldKeepsTheKey();
    GatheredKeys(headings[..|headings| - 1], BY_PAIR, FILL_HEADING);
    if j != i && i < |kept| {
      assert Keys(kept, BY_PAIR)[i] != Keys(kept, BY_PAIR)[j];
    }
  }

  lemma NotYetNamed(headings: seq<Heading>, key: Headings.Key)
    requires IndexOf(Union(headings), BY_PAIR, key) == |Union(headings)|
    ensures Headings.FirstCaption(headings, key) == None && Headings.FirstKind(headings, key) == None
  {
    HeadingFoldKeepsTheKey();
    GatheredKeys(headings, BY_PAIR, FILL_HEADING);
    DistinctIsDistinct(Keys(headings, BY_PAIR));
    var kept := Union(headings);
    assert forall j :: 0 <= j < |kept| ==> Keys(kept, BY_PAIR)[j] != key;
    assert key !in Keys(headings, BY_PAIR);
    assert Headings.KeysOf(headings) == Keys(headings, BY_PAIR);
    Headings.NothingForAKeyNotWanted(headings, key);
  }

  // ── Records ───────────────────────────────────────────────────────────────

  datatype Scalar = Text(text: string) | Number(number: real)

  type Scalars = map<string, Scalar>

  /** Which scalars one record fills in for another, and what a column can hold and a source may say. */
  datatype Schema = Schema(fills: set<string>, holds: (string, Scalar) -> bool)

  /** A catalogue's answer; a scalar that is absent has no entry. */
  datatype Record = Record(
    source: string,
    scalars: Scalars,
    subjects: seq<Subject>,
    headings: seq<Heading>,
    identifiers: seq<Assertion>,
    folded: bool)

  /** Both droppers: what cannot be held or may not be claimed is cleared. */
  function Bounded(schema: Schema, scalars: Scalars): Scalars
  {
    map f | f in scalars && schema.holds(f, scalars[f]) :: scalars[f]
  }

  /** The folds, whatever the flag says. */
  ghost function Refolded(schema: Schema, r: Record): Record
  {
    Record(
      r.source, Bounded(schema, r.scalars),
      FoldedSubjects(r.subjects), Union(r.headings), DistinctAssertions(r.identifiers), true)
  }

  /** `__post_init__`: the scalars bounded always, the collections folded unless the flag is set. */
  ghost function Built(schema: Schema, r: Record): Record
  {
    if r.folded then r.(scalars := Bounded(schema, r.scalars)) else Refolded(schema, r)
  }

  /** The catalogues a joined source names. */
  function Sources(source: string): seq<string>
  {
    NonEmpty(SplitOn('+', source))
  }

  function JoinedSource(a: string, b: string): string
  {
    Join("+", SortedKeys(Sources(a) + Sources(b)))
  }

  function FilledScalars(schema: Schema, a: Scalars, b: Scalars): Scalars
  {
    map f | f in a.Keys + b.Keys && (f in a || f in schema.fills) :: if f in a then a[f] else b[f]
  }

  function Either<T>(a: seq<T>, b: seq<T>): seq<T>
  {
    if a == [] then b else a
  }

  /** `filled_from`'s `replace`, before it is built. */
  function Filling(schema: Schema, a: Record, b: Record): Record
  {
    Record(
      JoinedSource(a.source, b.source), FilledScalars(schema, a.scalars, b.scalars),
      Either(a.subjects, b.subjects), Either(a.headings, b.headings), Either(a.identifiers, b.identifiers), a.folded)
  }

  /** `merged_with`'s second `replace`, before it is built: the one that reopens the fold. */
  function Merging(filled: Record, a: Record, b: Record): Record
  {
    filled.(subjects := a.subjects + b.subjects, headings := a.headings + b.headings,
            identifiers := a.identifiers + b.identifiers, folded := false)
  }

  function Rewritten(a: Record, values: map<string, Option<Scalar>>): Record
  {
    a.(scalars := map f | f in a.scalars.Keys + values.Keys && (f in values ==> values[f].Some?)
                        :: if f in values then values[f].value else a.scalars[f])
  }

  /** How a record comes about: parsed, or made of others. */
  datatype Origin =
    | Parsed(raw: Record)
    | FilledFrom(a: Origin, b: Origin)
    | MergedWith(a: Origin, b: Origin)
    | WithScalars(a: Origin, values: map<string, Option<Scalar>>)

  /** Only construction sets the flag. */
  ghost predicate IsGenuine(o: Origin)
  {
    match o
    case Parsed(raw) => !raw.folded
    case FilledFrom(a, b) => IsGenuine(a) && IsGenuine(b)
    case MergedWith(a, b) => IsGenuine(a) && IsGenuine(b)
    case WithScalars(a, _) => IsGenuine(a)
  }

  ghost function Made(schema: Schema, o: Origin): Record
  {
    match o
    case Parsed(raw) => Built(schema, raw)
    case FilledFrom(a, b) => Built(schema, Filling(schema, Made(schema, a), Made(schema, b)))
    case MergedWith(a, b) =>
      var x, y := Made(schema, a), Made(schema, b);
      Built(schema, Merging(Built(schema, Filling(schema, x, y)), x, y))
    case WithScalars(a, values) => Built(schema, Rewritten(Made(schema, a), values))
  }

  /** The same, folding at every construction. */
  ghost function MadeFoldingAlways(schema: Schema, o: Origin): Record
  {
    match o
    case Parsed(raw) => Refolded(schema, raw)
    case FilledFrom(a, b) => Refolded(schema, Filling(schema, MadeFoldingAlways(schema, a), MadeFoldingAlways(schema, b)))
    case MergedWith(a, b) =>
      var x, y := MadeFoldingAlways(schema, a), MadeFoldingAlways(schema, b);
      Refolded(schema, Merging(Refolded(schema, Filling(schema, x, y)), x, y))
    case WithScalars(a, values) => Refolded(schema, Rewritten(MadeFoldingAlways(schema, a), values))
  }

  /** Collections no fold would change and scalars no dropper would clear. */
  ghost predicate IsSettled(schema: Schema, r: Record)
  {
    && r.folded && Bounded(schema, r.scalars) == r.scalars
    && FoldedSubjects(r.subjects) == r.subjects && Union(r.headings) == r.headings
    && DistinctAssertions(r.identifiers) == r.identifiers
  }

  lemma RefoldedIsSettled(schema: Schema, r: Record)
    ensures IsSettled(schema, Refolded(schema, r))
  {
    FoldedTwice(r.subjects);
    HeadingFoldKeepsTheKey();
    GatheredTwice(r.headings, BY_PAIR, FILL_HEADING);
    GatheredTwice(r.identifiers, BY_ITSELF, FIRST);
    assert Bounded(schema, Bounded(schema, r.scalars)) == Bounded(schema, r.scalars);
  }

  /** Where the collections are settled, skipping the fold and folding come to the same. */
  lemma SkippingIsFolding(schema: Schema, r: Record)
    requires r.folded ==> FoldedSubjects(r.subjects) == r.subjects && Union(r.headings) == r.headings
                          && DistinctAssertions(r.identifiers) == r.identifiers
    ensures Built(schema, r) == Refolded(schema, r) && IsSettled(schema, Built(schema, r))
  {
    RefoldedIsSettled(schema, r);
  }

  /** The flag cannot be observed: every record that can come about, by any chain of parsing, filling,
      merging and rewriting, is the one always folding would have made, and is settled. */
  lemma {:induction false} FlagIsUnobservable(schema: Schema, o: Origin)
    requires IsGenuine(o)
    ensures Made(schema, o) == MadeFoldingAlways(schema, o) && IsSettled(schema, Made(schema, o))
  {
    match o
    case Parsed(raw) => SkippingIsFolding(schema, raw);
    case FilledFrom(a, b) =>
      FlagIsUnobservable(schema, a);
      FlagIsUnobservable(schema, b);
      SkippingIsFolding(schema, Filling(schema, Made(schema, a), Made(schema, b)));
    case MergedWith(a, b) =>
      FlagIsUnobservable(schema, a);
      FlagIsUnobservable(schema, b);
      var x, y := Made(schema, a), Made(schema, b);
      SkippingIsFolding(schema, Filling(schema, x, y));
      SkippingIsFolding(schema, Merging(Built(schema, Filling(schema, x, y)), x, y));
    case WithScalars(a, values) =>
      FlagIsUnobservable(schema, a);
      SkippingIsFolding(schema, Rewritten(Made(schema, a), values));
  }

  // ── Filling from several ──────────────────────────────────────────────────

  lemma {:induction false} NonEmptyIs(parts: seq<string>)
    ensures forall p :: p in NonEmpty(parts) <==> p in parts && p != ""
  {
    if parts != [] {
      NonEmptyIs(parts[1..]);
      assert forall p :: p in parts <==> p == parts[0] || p in parts[1..];
    }
  }

  lemma SourcesOfJoined(a: string, b: string)
    ensures Sources(JoinedSource(a, b)) == SortedKeys(Sources(a) + Sources(b))
    ensures forall s :: s in Sources(JoinedSource(a, b)) <==> s in Sources(a) || s in Sources(b)
  {
    var keys := Sources(a) + Sources(b);
    SortedKeysAreAscending(keys);
    SourcesAreNames(a);
    SourcesAreNames(b);
    assert forall k :: k in keys <==> k in Sources(a) || k in Sources(b);
    JoinedNamesAreRead(SortedKeys(keys));
  }

  predicate IsAName(name: string)
  {
    name != "" && '+' !in name
  }

  lemma SourcesAreNames(source: string)
    ensures forall s :: s in Sources(source) ==> IsAName(s)
  {
    var parts := SplitOn('+', source);
    NonEmptyIs(parts);
    SplitHasNoSeparator('+', source);
    forall s | s in Sources(source) ensures IsAName(s) {
      var i :| 0 <= i < |parts| && parts[i] == s;
    }
  }

  lemma JoinedNamesAreRead(names: seq<string>)
    requires forall n :: n in names ==> IsAName(n)
    ensures Sources(Join("+", names)) == names
  {
    forall i | 0 <= i < |names| ensures IsAName(names[i]) {
      assert names[i] in names;
    }
    if names == [] {
      assert SplitOn('+', "") == [""] && NonEmpty([""]) == [];
    } else {
      SplitJoin('+', names);
      NonEmptyKeeps(names);
    }
  }

  lemma JoinedSourceIsAssociative(a: string, b: string, c: string)
    ensures JoinedSource(JoinedSource(a, b), c) == JoinedSource(a, JoinedSource(b, c))
  {
    SourcesOfJoined(a, b);
    SourcesOfJoined(b, c);
    var left, right := Sources(JoinedSource(a, b)) + Sources(c), Sources(a) + Sources(JoinedSource(b, c));
    SortedKeysAreAscending(left);
    SortedKeysAreAscending(right);
    AscendingIsUnique(SortedKeys(left), SortedKeys(right));
  }

  ghost function Filled(schema: Schema, a: Record, b: Record): Record
  {
    Built(schema, Filling(schema, a, b))
  }

  lemma FilledStaysSettled(schema: Schema, a: Record, b: Record)
    requires IsSettled(schema, a) && IsSettled(schema, b)
    ensures IsSettled(schema, Filled(schema, a, b)) && Filled(schema, a, b) == Filling(schema, a, b)
  {
    SkippingIsFolding(schema, Filling(schema, a, b));
    FilledIsBounded(schema, a.scalars, b.scalars);
  }

  lemma FilledIsBounded(schema: Schema, a: Scalars, b: Scalars)
    requires Bounded(schema, a) == a && Bounded(schema, b) == b
    ensures Bounded(schema, FilledScalars(schema, a, b)) == FilledScalars(schema, a, b)
  {
    AllAreHeld(schema, a);
    AllAreHeld(schema, b);
  }

  lemma AllAreHeld(schema: Schema, a: Scalars)
    requires Bounded(schema, a) == a
    ensures forall f :: f in a ==> schema.holds(f, a[f])
  {
    forall f | f in a ensures schema.holds(f, a[f]) {
      assert f in Bounded(schema, a);
    }
  }

  lemma ScalarsAreAssociative(schema: Schema, a: Scalars, b: Scalars, c: Scalars)
    ensures FilledScalars(schema, FilledScalars(schema, a, b), c) == FilledScalars(schema, a, FilledScalars(schema, b, c))
  {
  }

  /** A row that three catalogues answered for is the same whichever two were folded first: nothing a
      leading catalogue said is overwritten, and each gap is filled by the first that can. */
  lemma FillingIsAssociative(schema: Schema, a: Record, b: Record, c: Record)
    requires IsSettled(schema, a) && IsSettled(schema, b) && IsSettled(schema, c)
    ensures Filled(schema, Filled(schema, a, b), c) == Filled(schema, a, Filled(schema, b, c))
  {
    FilledStaysSettled(schema, a, b);
    FilledStaysSettled(schema, b, c);
    FilledStaysSettled(schema, Filled(schema, a, b), c);
    FilledStaysSettled(schema, a, Filled(schema, b, c));
    UnbuiltIsAssociative(schema, a, b, c);
  }

  lemma UnbuiltIsAssociative(schema: Schema, a: Record, b: Record, c: Record)
    ensures Filling(schema, Filling(schema, a, b), c) == Filling(schema, a, Filling(schema, b, c))
  {
    JoinedSourceIsAssociative(a.source, b.source, c.source);
    ScalarsAreAssociative(schema, a.scalars, b.scalars, c.scalars);
  }

  // ── What a record made of others says ─────────────────────────────────────

  /** The catalogues a source names are those either names, in order. */
  ghost predicate NamesBoth(a: string, b: string, source: string)
  {
    exists x, y, all :: AreRuns(Just('+'), a, x) && AreRuns(Just('+'), b, y) && AreRuns(Just('+'), source, all) && Ascending(all)
                        && forall n :: n in all <==> n in x || n in y
  }

  lemma JoinedNamesBoth(a: string, b: string)
    ensures NamesBoth(a, b, JoinedSource(a, b))
  {
    SplitIsRuns('+', a);
    SplitIsRuns('+', b);
    SplitIsRuns('+', JoinedSource(a, b));
    SourcesOfJoined(a, b);
    SortedKeysAreAscending(Sources(a) + Sources(b));
  }

  /** Filling takes nothing away: a scalar, the subjects, the headings and the identifiers are the leading
      record's wherever it has any, and the other's where it has none and, of a scalar, may fill it. */
  lemma FillingIsTold(schema: Schema, a: Record, b: Record)
    requires IsSettled(schema, a) && IsSettled(schema, b)
    ensures var r := Built(schema, Filling(schema, a, b));
            && (forall f :: f in r.scalars <==> f in a.scalars || (f in b.scalars && f in schema.fills))
            && (forall f :: f in r.scalars ==> r.scalars[f] == if f in a.scalars then a.scalars[f] else b.scalars[f])
            && r.subjects == (if |a.subjects| > 0 then a.subjects else b.subjects)
            && r.headings == (if |a.headings| > 0 then a.headings else b.headings)
            && r.identifiers == (if |a.identifiers| > 0 then a.identifiers else b.identifiers)
            && NamesBoth(a.source, b.source, r.source)
  {
    FilledStaysSettled(schema, a, b);
    JoinedNamesBoth(a.source, b.source);
  }

  /** Merging takes both records' collections, the leading one's first, and folds them; the rest is filled. */
  lemma MergingIsTold(schema: Schema, a: Record, b: Record)
    requires IsSettled(schema, a) && IsSettled(schema, b)
    ensures var r := Built(schema, Merging(Built(schema, Filling(schema, a, b)), a, b));
            && (forall f :: f in r.scalars <==> f in a.scalars || (f in b.scalars && f in schema.fills))
            && (forall f :: f in r.scalars ==> r.scalars[f] == if f in a.scalars then a.scalars[f] else b.scalars[f])
            && Names(r.subjects) == Names(a.subjects + b.subjects)
            && Keys(r.headings, BY_PAIR) == Distinct(Keys(a.headings + b.headings, BY_PAIR))
            && (forall h :: h in r.headings ==>
                  && Headings.IsFirstCaption(a.headings + b.headings, h.key, h.caption)
                  && Headings.IsFirstKind(a.headings + b.headings, h.key, h.kind))
            && r.identifiers == Distinct(a.identifiers + b.identifiers)
            && NamesBoth(a.source, b.source, r.source)
  {
    FilledStaysSettled(schema, a, b);
    FilledIsBounded(schema, a.scalars, b.scalars);
    JoinedNamesBoth(a.source, b.source);
    FoldedShape(a.subjects + b.subjects);
    UnionIsTold(a.headings + b.headings);
    AssertionsAreDistinct(a.identifiers + b.identifiers);
  }

  lemma UnionIsTold(headings: seq<Heading>)
    ensures Keys(Union(headings), BY_PAIR) == Distinct(Keys(headings, BY_PAIR))
    ensures forall h :: h in Union(headings) ==>
              Headings.IsFirstCaption(headings, h.key, h.caption) && Headings.IsFirstKind(headings, h.key, h.kind)
  {
    UnionKeepsTheFirst(headings);
    forall h | h in Union(headings)
      ensures Headings.IsFirstCaption(headings, h.key, h.caption) && Headings.IsFirstKind(headings, h.key, h.kind)
    {
      Headings.FirstCaptionIs(headings, h.key);
      Headings.FirstKindIs(headings, h.key);
    }
  }

  lemma AssertionsAreDistinct(assertions: seq<Assertion>)
    ensures DistinctAssertions(assertions) == Distinct(assertions)
  {
    HeadingFoldKeepsTheKey();
    GatheredKeys(assertions, BY_ITSELF, FIRST);
    assert Keys(assertions, BY_ITSELF) == assertions;
    assert Keys(DistinctAssertions(assertions), BY_ITSELF) == DistinctAssertions(assertions);
  }

  /** Rewriting scalars writes and clears just those, and what may not stand is cleared; a record once folded
      keeps its collections. */
  lemma RewritingIsTold(schema: Schema, a: Record, values: map<string, Option<Scalar>>)
    requires IsSettled(schema, a)
    ensures var r := Built(schema, Rewritten(a, values));
            && (forall f :: f in r.scalars <==>
                  if f in values then values[f].Some? && schema.holds(f, values[f].value) else f in a.scalars)
            && (forall f :: f in r.scalars ==> r.scalars[f] == if f in values then values[f].value else a.scalars[f])
            && r == a.(scalars := r.scalars)
  {
    AllAreHeld(schema, a.scalars);
  }

  /** A parsed record keeps every scalar that may stand, and no other. */
  lemma ParsingIsTold(schema: Schema, raw: Record)
    requires !raw.folded
    ensures var r := Built(schema, raw);
            && (forall f :: f in r.scalars <==> f in raw.scalars && schema.holds(f, raw.scalars[f]))
            && (forall f :: f in r.scalars ==> r.scalars[f] == raw.scalars[f])
            && r.source == raw.source && r.folded && Names(r.subjects) == Names(raw.subjects)
            && Keys(r.headings, BY_PAIR) == Distinct(Keys(raw.headings, BY_PAIR))
            && r.identifiers == Distinct(raw.identifiers)
  {
    FoldedShape(raw.subjects);
    UnionIsTold(raw.headings);
    AssertionsAreDistinct(raw.identifiers);
  }
}
