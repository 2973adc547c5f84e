/** Adding a catalogue record's headings to a book: what one call leaves, and what any interleaving
    of transactions that check, lock, re-read and insert leaves. */
module Headings {
  import opened Sequences
  import opened Wrappers

  const MAX_CLASSIFICATIONS_PER_BOOK := 8

  /** The pair the unique index is on. */
  datatype Key = Key(scheme: string, number: string)

  datatype Heading = Heading(key: Key, caption: Option<string>, kind: Option<string>)

  function KeysOf(headings: seq<Heading>): (keys: seq<Key>)
    ensures |keys| == |headings|
  {
    seq(|headings|, i requires 0 <= i < |headings| => headings[i].key)
  }

  ghost predicate AreDistinct(keys: seq<Key>)
  {
    forall i, j :: 0 <= i < j < |keys| ==> keys[i] != keys[j]
  }

  // ── Which keys are added ──────────────────────────────────────────────────

  /** The keys not held, each at its first occurrence. */
  function NewKeys(held: seq<Key>, wanted: seq<Key>): seq<Key>
  {
    if wanted == [] then []
    else
      var before := NewKeys(held, wanted[..|wanted| - 1]);
      var key := wanted[|wanted| - 1];
      if key in held || key in before then before else before + [key]
  }

  function Room(held: seq<Key>): int
  {
    MAX_CLASSIFICATIONS_PER_BOOK - |held|
  }

  function Take(keys: seq<Key>, room: int): seq<Key>
  {
    if room <= 0 then [] else if room < |keys| then keys[..room] else keys
  }

  /** `_headings_to_add`, by key: as many of the new keys as there is room for. */
  function KeysToAdd(held: seq<Key>, wanted: seq<Key>): seq<Key>
  {
    Take(NewKeys(held, wanted), Room(held))
  }

  /** The first of the headings with this key. */
  function FirstWith(headings: seq<Heading>, key: Key): Option<Heading>
  {
    if headings == [] then None
    else
      var before := FirstWith(headings[..|headings| - 1], key);
      var last := headings[|headings| - 1];
      if before.Some? then before else if last.key == key then Some(last) else None
  }

  lemma {:induction false} FirstWithHasTheKey(headings: seq<Heading>, key: Key)
    ensures FirstWith(headings, key).Some? <==> key in KeysOf(headings)
    ensures FirstWith(headings, key).Some? ==> FirstWith(headings, key).value.key == key
  {
    if headings != [] {
      var n := |headings| - 1;
      FirstWithHasTheKey(headings[..n], key);
      assert KeysOf(headings) == KeysOf(headings[..n]) + [headings[n].key];
    }
  }

  lemma {:induction false} FirstWithStays(headings: seq<Heading>, i: nat, key: Key)
    requires i <= |headings| && FirstWith(headings[..i], key).Some?
    ensures FirstWith(headings, key) == FirstWith(headings[..i], key)
  {
    if i < |headings| {
      assert headings[..|headings| - 1][..i] == headings[..i];
      FirstWithStays(headings[..|headings| - 1], i, key);
    } else {
      assert headings[..i] == headings;
    }
  }

  method HeadingsToAdd(stored: seq<Heading>, headings: seq<Heading>) returns (adds: map<Key, Heading>, order: seq<Key>)
    ensures order == KeysToAdd(KeysOf(stored), KeysOf(headings))
    ensures forall k :: k in adds <==> k in order
    ensures forall k :: k in adds ==> FirstWith(headings, k) == Some(adds[k])
  {
    var held := KeysOf(stored);
    var room := MAX_CLASSIFICATIONS_PER_BOOK - |stored|;
    adds, order := map[], [];
    var i := 0;
    while i < |headings| && |order| < room
      invariant i <= |headings| && |order| <= if room < 0 then 0 else room
      invariant order == NewKeys(held, KeysOf(headings[..i]))
      invariant forall k :: k in adds <==> k in order
      invariant forall k :: k in adds ==> FirstWith(headings[..i], k) == Some(adds[k])
    {
      var key := headings[i].key;
      OneMoreWanted(held, headings, i);
      if key !in held && key !in adds {
        adds, order := adds[key := headings[i]], order + [key];
      }
      i := i + 1;
    }
    AllThatFit(stored, headings, i, order);
    forall k | k in adds ensures FirstWith(headings, k) == Some(adds[k]) {
      FirstWithStays(headings, i, k);
    }
  }

  lemma AllThatFit(stored: seq<Heading>, headings: seq<Heading>, i: nat, order: seq<Key>)
    requires i <= |headings| && order == NewKeys(KeysOf(stored), KeysOf(headings[..i]))
    requires |order| <= if Room(KeysOf(stored)) < 0 then 0 else Room(KeysOf(stored))
    requires i < |headings| ==> |order| >= Room(KeysOf(stored))
    ensures order == KeysToAdd(KeysOf(stored), KeysOf(headings))
  {
    assert KeysOf(headings)[..i] == KeysOf(headings[..i]);
    NewKeysGrow(KeysOf(stored), KeysOf(headings), i);
    assert i == |headings| ==> headings[..i] == headings;
  }

  lemma OneMoreWanted(held: seq<Key>, headings: seq<Heading>, i: nat)
    requires i < |headings|
    ensures var before, key := NewKeys(held, KeysOf(headings[..i])), headings[i].key;
            && NewKeys(held, KeysOf(headings[..i + 1])) == (if key in held || key in before then before else before + [key])
            && (key !in held && key !in before ==> FirstWith(headings[..i + 1], key) == Some(headings[i]))
    ensures forall k :: FirstWith(headings[..i], k).Some? ==> FirstWith(headings[..i + 1], k) == FirstWith(headings[..i], k)
  {
    var wanted, more := KeysOf(headings[..i]), KeysOf(headings[..i + 1]);
    assert more[..|more| - 1] == wanted && headings[..i + 1][..i] == headings[..i];
    NewKeysAreTheNew(held, wanted);
    FirstWithHasTheKey(headings[..i], headings[i].key);
  }

  lemma {:induction false} NewKeysAreTheNew(held: seq<Key>, wanted: seq<Key>)
    ensures forall k :: k in NewKeys(held, wanted) <==> k in wanted && k !in held
    ensures AreDistinct(NewKeys(held, wanted))
  {
    if wanted != [] {
      NewKeysAreTheNew(held, wanted[..|wanted| - 1]);
    }
  }

  lemma {:induction false} NewKeysGrow(held: seq<Key>, wanted: seq<Key>, i: nat)
    requires i <= |wanted|
    ensures NewKeys(held, wanted[..i]) <= NewKeys(held, wanted)
  {
    if i < |wanted| {
      NewKeysGrow(held, wanted[..|wanted| - 1], i);
      assert wanted[..|wanted| - 1][..i] == wanted[..i];
    } else {
      assert wanted[..i] == wanted;
    }
  }

  // ── What one call leaves ──────────────────────────────────────────────────

  /** The first caption the payload has for a key. */
  function FirstCaption(payload: seq<Heading>, key: Key): Option<string>
  {
    if payload == [] then None
    else if payload[0].key == key && payload[0].caption.Some? then payload[0].caption
    else FirstCaption(payload[1..], key)
  }

  function FirstKind(payload: seq<Heading>, key: Key): Option<string>
  {
    if payload == [] then None
    else if payload[0].key == key && payload[0].kind.Some? then payload[0].kind
    else FirstKind(payload[1..], key)
  }

  /** The caption and the kind are what is stored, else the payload's first; nothing stored is replaced. */
  function Completed(h: Heading, payload: seq<Heading>): Heading
  {
    Heading(
      h.key,
      if h.caption.Some? then h.caption else FirstCaption(payload, h.key),
      if h.kind.Some? then h.kind else FirstKind(payload, h.key))
  }

  function AllCompleted(headings: seq<Heading>, payload: seq<Heading>): (all: seq<Heading>)
    ensures |all| == |headings|
  {
    seq(|headings|, i requires 0 <= i < |headings| => Completed(headings[i], payload))
  }

  function Bare(keys: seq<Key>): (headings: seq<Heading>)
    ensures |headings| == |keys|
  {
    seq(|keys|, i requires 0 <= i < |keys| => Heading(keys[i], None, None))
  }

  /** The stored rows completed, and after them the added ones in the payload's order. */
  function Headed(stored: seq<Heading>, payload: seq<Heading>): seq<Heading>
  {
    AllCompleted(stored + Bare(KeysToAdd(KeysOf(stored), KeysOf(payload))), payload)
  }

  /** One more payload heading on a row it is for. */
  function Filled(row: Heading, h: Heading): Heading
  {
    Heading(row.key, if row.caption.None? then h.caption else row.caption, if row.kind.None? then h.kind else row.kind)
  }

  lemma {:induction false} FirstOfAppended(payload: seq<Heading>, h: Heading, key: Key)
    ensures FirstCaption(payload + [h], key)
         == if FirstCaption(payload, key).None? && h.key == key then h.caption else FirstCaption(payload, key)
    ensures FirstKind(payload + [h], key)
         == if FirstKind(payload, key).None? && h.key == key then h.kind else FirstKind(payload, key)
  {
    if payload == [] {
      assert payload + [h] == [h];
    } else {
      assert (payload + [h])[1..] == payload[1..] + [h];
      FirstOfAppended(payload[1..], h, key);
    }
  }

  lemma CompletedByOneMore(row: Heading, payload: seq<Heading>, h: Heading)
    ensures Completed(row, payload + [h]) == if h.key == row.key then Filled(Completed(row, payload), h) else Completed(row, payload)
  {
    FirstOfAppended(payload, h, row.key);
  }

  lemma {:induction false} NothingForAKeyNotWanted(payload: seq<Heading>, key: Key)
    requires key !in KeysOf(payload)
    ensures FirstCaption(payload, key) == None && FirstKind(payload, key) == None
  {
    if payload != [] {
      assert KeysOf(payload)[0] == payload[0].key;
      assert KeysOf(payload[1..]) == KeysOf(payload)[1..];
      NothingForAKeyNotWanted(payload[1..], key);
    }
  }

  lemma KeysOfHeaded(stored: seq<Heading>, payload: seq<Heading>)
    ensures KeysOf(Headed(stored, payload)) == KeysOf(stored) + KeysToAdd(KeysOf(stored), KeysOf(payload))
  {
  }

  lemma KeysOfHeadedAreDistinct(stored: seq<Heading>, payload: seq<Heading>)
    requires AreDistinct(KeysOf(stored))
    ensures AreDistinct(KeysOf(Headed(stored, payload)))
  {
    var held, wanted := KeysOf(stored), KeysOf(payload);
    KeysOfHeaded(stored, payload);
    AddingStaysDistinct(held, wanted);
  }

  lemma AddingStaysDistinct(held: seq<Key>, wanted: seq<Key>)
    requires AreDistinct(held)
    ensures AreDistinct(held + KeysToAdd(held, wanted))
  {
    NewKeysAreTheNew(held, wanted);
    var adds, all := KeysToAdd(held, wanted), held + KeysToAdd(held, wanted);
    forall i, j | 0 <= i < j < |all| ensures all[i] != all[j] {
      if i < |held| <= j {
        assert adds[j - |held|] in NewKeys(held, wanted);
      }
    }
  }

  /** One more payload heading changes one row: it completes the row that has its key, or is added where
      there is none and there is room. */
  lemma HeadedByOneMore(
    stored: seq<Heading>, payload: seq<Heading>, h: Heading, longer: seq<Heading>, rows: seq<Heading>, after: seq<Heading>)
    requires AreDistinct(KeysOf(stored)) && longer == payload + [h]
    requires rows == Headed(stored, payload) && after == Headed(stored, longer)
    ensures forall j :: 0 <= j < |rows| && rows[j].key == h.key ==> after == rows[j := Filled(rows[j], h)]
    ensures h.key in KeysOf(rows)
            || after == if |rows| < MAX_CLASSIFICATIONS_PER_BOOK then rows + [Heading(h.key, h.caption, h.kind)] else rows
  {
    var held, wanted := KeysOf(stored), KeysOf(payload);
    var more := KeysOf(longer);
    assert more[..|more| - 1] == wanted && more[|more| - 1] == h.key;
    NewKeysAreTheNew(held, wanted);
    var unseen, taken := NewKeys(held, wanted), KeysToAdd(held, wanted);
    var base := stored + Bare(taken);
    KeysOfHeaded(stored, payload);
    KeysOfHeadedAreDistinct(stored, payload);
    forall i | 0 <= i < |rows| ensures i < |after| && after[i] == if h.key == rows[i].key then Filled(rows[i], h) else rows[i] {
      CompletedByOneMore(base[i], payload, h);
      assert taken <= KeysToAdd(held, more);
    }
    assert forall j :: 0 <= j < |rows| ==> KeysOf(rows)[j] == rows[j].key;
    if h.key in KeysOf(rows) {
      assert forall k :: k in taken ==> k in unseen;
      assert KeysToAdd(held, more) == taken;
    } else {
      assert h.key !in held;
      if |rows| < MAX_CLASSIFICATIONS_PER_BOOK {
        assert taken == unseen && h.key !in wanted;
        NothingForAKeyNotWanted(payload, h.key);
        CompletedByOneMore(Heading(h.key, None, None), payload, h);
        assert KeysToAdd(held, more) == taken + [h.key];
      } else {
        assert KeysToAdd(held, more) == taken;
      }
    }
  }

  /** The same, in the call's own terms: `order` is what was found to add before the loop, and the one
      to add is the heading at hand. */
  lemma OneMoreHeading(
    stored: seq<Heading>, headings: seq<Heading>, i: nat, h: Heading, rows: seq<Heading>, order: seq<Key>, after: seq<Heading>)
    requires AreDistinct(KeysOf(stored)) && i < |headings| && h == headings[i]
    requires order == KeysToAdd(KeysOf(stored), KeysOf(headings))
    requires rows == Headed(stored, headings[..i]) && after == Headed(stored, headings[..i + 1])
    ensures forall j :: 0 <= j < |rows| && rows[j].key == h.key ==> after == rows[j := Filled(rows[j], h)]
    ensures h.key in KeysOf(rows) || after == if h.key in order then rows + [Heading(h.key, h.caption, h.kind)] else rows
    ensures h.key in KeysOf(rows) || h.key !in order || FirstWith(headings, h.key) == Some(h)
  {
    OneMore(headings, i);
    HeadedByOneMore(stored, headings[..i], h, headings[..i + 1], rows, after);
    if h.key !in KeysOf(rows) {
      AddedIsFirst(stored, headings, i, h, rows, order);
    }
  }

  lemma AddedIsFirst(stored: seq<Heading>, headings: seq<Heading>, i: nat, h: Heading, rows: seq<Heading>, order: seq<Key>)
    requires i < |headings| && h == headings[i] && rows == Headed(stored, headings[..i])
    requires h.key !in KeysOf(rows) && order == KeysToAdd(KeysOf(stored), KeysOf(headings))
    ensures h.key in order <==> |rows| < MAX_CLASSIFICATIONS_PER_BOOK
    ensures h.key in order ==> FirstWith(headings, h.key) == Some(h)
  {
    AddedIffRoom(stored, headings, i, rows, order);
    if h.key in order {
      FirstIsHere(headings, i, rows, stored);
    }
  }

  /** `existing`: where the row of each key is. */
  ghost predicate Places(rows: seq<Heading>, existing: map<Key, nat>)
  {
    && (forall k :: k in existing <==> k in KeysOf(rows))
    && (forall k :: k in existing ==> existing[k] < |rows| && rows[existing[k]].key == k)
  }

  class Book {
    var rows: seq<Heading>

    /** Adds or completes the book's headings; returns the numbers of those it changed. */
    method AddHeadings(headings: seq<Heading>) returns (changed: seq<string>)
      requires AreDistinct(KeysOf(rows))
      modifies this`rows
      ensures rows == Headed(old(rows), headings)
      ensures exists at :: IsHeadedBy(old(rows), headings, rows, at)
      ensures AreDistinct(KeysOf(rows))
      ensures Tells(changed, old(rows), rows)
      ensures changed == [] <==> rows == old(rows)
    {
      changed := [];
      ghost var stored := rows;
      HeadedByNothing(stored);
      ghost var at := HeadedIsTold(stored, headings);
      if headings == [] {
        return;
      }
      var adds, order := HeadingsToAdd(rows, headings);
      assert forall i, j :: 0 <= i < j < |rows| ==> KeysOf(rows)[i] != KeysOf(rows)[j];
      var existing: map<Key, nat> := map i | 0 <= i < |rows| :: KeysOf(rows)[i] := i;
      var i := 0;
      while i < |headings|
        invariant i <= |headings|
        invariant rows == Headed(stored, headings[..i]) && Places(rows, existing)
        invariant Tells(changed, stored, rows) && IsGrown(stored, rows)
      {
        OneMoreHeading(stored, headings, i, headings[i], rows, order, Headed(stored, headings[..i + 1]));
        ghost var before := rows;
        var one;
        existing, one := AddOrComplete(headings[i], existing, adds);
        TellsOneMore(changed, stored, before, rows, one, headings[i].key.number);
        if one {
          changed := changed + [headings[i].key.number];
        }
        i := i + 1;
      }
      assert headings[..i] == headings;
      KeysOfHeadedAreDistinct(stored, headings);
      TellsOfNothing(changed, stored, rows);
    }

    /** One heading of the payload: onto the row it has, or onto a new one if it is to be added. */
    method AddOrComplete(h: Heading, existing: map<Key, nat>, adds: map<Key, Heading>)
      returns (places: map<Key, nat>, changed: bool)
      requires Places(rows, existing)
      modifies this`rows
      ensures Places(rows, places) && IsGrown(old(rows), rows)
      ensures h.key in KeysOf(old(rows)) ==> exists j :: 0 <= j < |old(rows)| && old(rows)[j].key == h.key
                                                       && rows == old(rows)[j := Filled(old(rows)[j], h)]
      ensures h.key in KeysOf(old(rows))
              || rows == if h.key in adds then old(rows) + [Heading(h.key, adds[h.key].caption, adds[h.key].kind)] else old(rows)
      ensures changed <==> rows != old(rows)
      ensures forall n :: IsChanged(old(rows), rows, n) <==> changed && n == h.key.number
    {
      places, changed := existing, false;
      if h.key in existing {
        changed := Complete(existing[h.key], h);
        OneRowChanged(old(rows), rows, existing[h.key]);
      } else if h.key in adds {
        places := existing[h.key := |rows|];
        rows := rows + [Heading(h.key, adds[h.key].caption, adds[h.key].kind)];
        assert KeysOf(rows) == KeysOf(old(rows)) + [h.key];
        changed := true;
        OneRowChanged(old(rows), rows, |old(rows)|);
      }
    }

    /** Fills in what the row at `j` lacks; never replaces what it has. */
    method Complete(j: nat, h: Heading) returns (filled: bool)
      requires j < |rows|
      modifies this`rows
      ensures rows == old(rows)[j := Filled(old(rows)[j], h)] && KeysOf(rows) == KeysOf(old(rows))
      ensures filled <==> rows != old(rows)
    {
      filled := false;
      if rows[j].caption.None? && h.caption.Some? {
        rows := rows[j := rows[j].(caption := h.caption)];
        filled := true;
      }
      if rows[j].kind.None? && h.kind.Some? {
        rows := rows[j := rows[j].(kind := h.kind)];
        filled := true;
      }
      assert filled ==> rows[j] != old(rows)[j];
    }
  }

  /** Every row is where it was with nothing taken from it, so a change is never undone by a later one. */
  ghost predicate IsGrown(stored: seq<Heading>, rows: seq<Heading>)
  {
    |stored| <= |rows| && forall i :: 0 <= i < |stored| ==> IsFuller(stored[i], rows[i])
  }

  predicate IsFuller(a: Heading, b: Heading)
  {
    a.key == b.key && (a.caption.Some? ==> b.caption == a.caption) && (a.kind.Some? ==> b.kind == a.kind)
  }

  /** Some row with this number is new or not what it was. */
  ghost predicate IsChanged(stored: seq<Heading>, rows: seq<Heading>, number: string)
  {
    exists j :: IsChangedAt(stored, rows, number, j)
  }

  ghost predicate IsChangedAt(stored: seq<Heading>, rows: seq<Heading>, number: string, j: int)
  {
    0 <= j < |rows| && rows[j].key.number == number && (j >= |stored| || rows[j] != stored[j])
  }

  lemma OneRowChanged(stored: seq<Heading>, rows: seq<Heading>, j: nat)
    requires j < |rows| && |stored| <= |rows| && (|rows| > |stored| ==> j == |stored| == |rows| - 1)
    requires forall i :: 0 <= i < |rows| && i != j ==> i < |stored| && rows[i] == stored[i]
    ensures forall n :: IsChanged(stored, rows, n) <==> rows != stored && n == rows[j].key.number
  {
    forall n ensures IsChanged(stored, rows, n) <==> rows != stored && n == rows[j].key.number {
      if rows != stored {
        assert IsChangedAt(stored, rows, rows[j].key.number, j);
      }
    }
  }

  /** What two steps changed is what either did: nothing filled in is taken back. */
  lemma ChangedInTwoSteps(stored: seq<Heading>, before: seq<Heading>, rows: seq<Heading>)
    requires IsGrown(stored, before) && IsGrown(before, rows)
    ensures forall n :: IsChanged(stored, rows, n) <==> IsChanged(stored, before, n) || IsChanged(before, rows, n)
  {
    forall n ensures IsChanged(stored, rows, n) <==> IsChanged(stored, before, n) || IsChanged(before, rows, n) {
      if j :| IsChangedAt(stored, before, n, j) {
        assert IsFuller(before[j], rows[j]) && (j < |stored| ==> IsFuller(stored[j], before[j]));
        assert IsChangedAt(stored, rows, n, j);
      }
      if j :| IsChangedAt(before, rows, n, j) {
        assert j < |stored| ==> IsFuller(stored[j], before[j]) && IsFuller(before[j], rows[j]);
        assert IsChangedAt(stored, rows, n, j);
      }
      if j :| IsChangedAt(stored, rows, n, j) {
        assert j < |before| ==> IsFuller(before[j], rows[j]);
        assert IsChangedAt(stored, before, n, j) || IsChangedAt(before, rows, n, j);
      }
    }
  }

  /** The numbers listed are those of the rows that changed. */
  ghost predicate Tells(changed: seq<string>, stored: seq<Heading>, rows: seq<Heading>)
  {
    forall n :: n in changed <==> IsChanged(stored, rows, n)
  }

  lemma TellsOneMore(
    changed: seq<string>, stored: seq<Heading>, before: seq<Heading>, rows: seq<Heading>, one: bool, number: string)
    requires Tells(changed, stored, before) && IsGrown(stored, before) && IsGrown(before, rows)
    requires forall n :: IsChanged(before, rows, n) <==> one && n == number
    ensures Tells(if one then changed + [number] else changed, stored, rows) && IsGrown(stored, rows)
  {
    ChangedInTwoSteps(stored, before, rows);
  }

  lemma TellsOfNothing(changed: seq<string>, stored: seq<Heading>, rows: seq<Heading>)
    requires Tells(changed, stored, rows) && IsGrown(stored, rows)
    ensures changed == [] <==> rows == stored
  {
    assert changed != [] ==> changed[0] in changed;
    if rows != stored {
      var j :| 0 <= j < |rows| && (j >= |stored| || rows[j] != stored[j]);
      assert IsChangedAt(stored, rows, rows[j].key.number, j);
      assert rows[j].key.number in changed;
    }
  }

  lemma HeadedByNothing(stored: seq<Heading>)
    ensures Headed(stored, []) == stored
  {
    assert KeysOf([]) == [];
    assert forall i :: 0 <= i < |stored| ==> Completed(stored[i], []) == stored[i];
  }

  lemma AddedIffRoom(stored: seq<Heading>, headings: seq<Heading>, i: nat, rows: seq<Heading>, order: seq<Key>)
    requires i < |headings| && rows == Headed(stored, headings[..i])
    requires headings[i].key !in KeysOf(rows) && order == KeysToAdd(KeysOf(stored), KeysOf(headings))
    ensures headings[i].key in order <==> |rows| < MAX_CLASSIFICATIONS_PER_BOOK
  {
    var held, wanted := KeysOf(stored), KeysOf(headings);
    assert KeysOf(headings[..i]) == wanted[..i] && KeysOf(headings[..i + 1]) == wanted[..i + 1];
    KeysOfHeaded(stored, headings[..i]);
    OneMoreWanted(held, headings, i);
    NewKeysGrow(held, wanted, i);
    NewKeysGrow(held, wanted, i + 1);
    TakenIffRoom(NewKeys(held, wanted[..i]), headings[i].key, NewKeys(held, wanted), held, KeysOf(rows));
  }

  /** Of new keys in order, the next one is taken while there is room. */
  lemma TakenIffRoom(before: seq<Key>, key: Key, all: seq<Key>, held: seq<Key>, keys: seq<Key>)
    requires keys == held + Take(before, Room(held)) && key !in keys
    requires key !in held && key !in before ==> before + [key] <= all
    requires before <= all
    ensures key in Take(all, Room(held)) <==> |keys| < MAX_CLASSIFICATIONS_PER_BOOK
  {
    if |keys| < MAX_CLASSIFICATIONS_PER_BOOK {
      assert Take(before, Room(held)) == before;
      assert all[|before|] == key && Take(all, Room(held))[|before|] == key;
    } else {
      assert Take(all, Room(held)) == Take(before, Room(held));
    }
  }

  lemma FirstIsHere(headings: seq<Heading>, i: nat, rows: seq<Heading>, stored: seq<Heading>)
    requires i < |headings| && rows == Headed(stored, headings[..i]) && |rows| < MAX_CLASSIFICATIONS_PER_BOOK
    requires headings[i].key !in KeysOf(rows)
    ensures FirstWith(headings, headings[i].key) == Some(headings[i])
  {
    KeysOfHeaded(stored, headings[..i]);
    UnaddedIsUnwanted(KeysOf(stored), KeysOf(headings[..i]), headings[i].key);
    FirstWithHere(headings, i);
  }

  /** While there is room, a key that is not there was not asked for. */
  lemma UnaddedIsUnwanted(held: seq<Key>, wanted: seq<Key>, key: Key)
    requires |held + KeysToAdd(held, wanted)| < MAX_CLASSIFICATIONS_PER_BOOK && key !in held + KeysToAdd(held, wanted)
    ensures key !in wanted
  {
    NewKeysAreTheNew(held, wanted);
    assert KeysToAdd(held, wanted) == NewKeys(held, wanted);
  }

  lemma FirstWithHere(headings: seq<Heading>, i: nat)
    requires i < |headings| && headings[i].key !in KeysOf(headings[..i])
    ensures FirstWith(headings, headings[i].key) == Some(headings[i])
  {
    FirstWithHasTheKey(headings[..i], headings[i].key);
    assert headings[..i + 1][..i] == headings[..i];
    FirstWithStays(headings, i + 1, headings[i].key);
  }

  /** A second identical call finds nothing to add and nothing to complete. */
  lemma SecondCallChangesNothing(stored: seq<Heading>, payload: seq<Heading>)
    requires AreDistinct(KeysOf(stored))
    ensures Headed(Headed(stored, payload), payload) == Headed(stored, payload)
  {
    var held, wanted, rows := KeysOf(stored), KeysOf(payload), Headed(stored, payload);
    var taken := KeysToAdd(held, wanted);
    NewKeysAreTheNew(held, wanted);
    NewKeysAreTheNew(KeysOf(rows), wanted);
    KeysOfHeaded(stored, payload);
    var again := NewKeys(KeysOf(rows), wanted);
    assert KeysToAdd(KeysOf(rows), wanted) == [] by {
      assert Room(KeysOf(rows)) > 0 ==> taken == NewKeys(held, wanted);
      assert again != [] ==> again[0] in again;
    }
  }

  // ── The same, told place by place ─────────────────────────────────────────

  /** The first occurrences, in order, of the keys that are not held. */
  ghost predicate AreFirsts(held: seq<Key>, wanted: seq<Key>, at: seq<nat>)
  {
    && (forall i, j :: 0 <= i < j < |at| ==> at[i] < at[j])
    && (forall i :: 0 <= i < |at| ==> at[i] < |wanted| && wanted[at[i]] !in held && wanted[at[i]] !in wanted[..at[i]])
    && (forall p :: 0 <= p < |wanted| && wanted[p] !in held && wanted[p] !in wanted[..p] ==> p in at)
  }

  lemma {:induction false} NewKeysAreFirsts(held: seq<Key>, wanted: seq<Key>) returns (at: seq<nat>)
    ensures AreFirsts(held, wanted, at) && NewKeys(held, wanted) == PlacedAt(wanted, at)
  {
    if wanted == [] {
      at := [];
    } else {
      var n, init := |wanted| - 1, wanted[..|wanted| - 1];
      var before := NewKeysAreFirsts(held, init);
      at := if wanted[n] !in held && wanted[n] !in init then before + [n] else before;
      FirstsOneMore(held, init, wanted, before, at);
      NewKeysOneMore(held, init, wanted, before, at);
    }
  }

  lemma NewKeysOneMore(held: seq<Key>, init: seq<Key>, wanted: seq<Key>, before: seq<nat>, at: seq<nat>)
    requires wanted != [] && init == wanted[..|wanted| - 1] && AreFirsts(held, init, before) && AreFirsts(held, wanted, at)
    requires at == if wanted[|init|] !in held && wanted[|init|] !in init then before + [|init|] else before
    requires NewKeys(held, init) == PlacedAt(init, before)
    ensures NewKeys(held, wanted) == PlacedAt(wanted, at)
  {
    NewKeysAreTheNew(held, init);
    assert PlacedAt(wanted, before) == PlacedAt(init, before);
    assert wanted[|init|] !in held && wanted[|init|] !in init ==> PlacedAt(wanted, at) == PlacedAt(wanted, before) + [wanted[|init|]];
  }

  ghost function PlacedAt(keys: seq<Key>, at: seq<nat>): seq<Key>
    requires forall i :: 0 <= i < |at| ==> at[i] < |keys|
  {
    seq(|at|, i requires 0 <= i < |at| => keys[at[i]])
  }

  lemma FirstsOneMore(held: seq<Key>, init: seq<Key>, wanted: seq<Key>, before: seq<nat>, at: seq<nat>)
    requires wanted != [] && init == wanted[..|wanted| - 1] && AreFirsts(held, init, before)
    requires at == if wanted[|init|] !in held && wanted[|init|] !in init then before + [|init|] else before
    ensures AreFirsts(held, wanted, at)
  {
    var n := |init|;
    forall i | 0 <= i < |at| ensures at[i] < |wanted| && wanted[at[i]] !in held && wanted[at[i]] !in wanted[..at[i]] {
      if i < |before| {
        assert at[i] == before[i] < n && wanted[..at[i]] == init[..at[i]];
      } else {
        assert wanted[..n] == init;
      }
    }
    forall p | 0 <= p < |wanted| && wanted[p] !in held && wanted[p] !in wanted[..p] ensures p in at {
      if p < n {
        assert wanted[..p] == init[..p] && p in before;
      } else {
        assert at[|before|] == n;
      }
    }
  }

  /** Some heading of the payload with this key has this, and none before it has any. */
  ghost predicate IsFirstCaption(payload: seq<Heading>, key: Key, caption: Option<string>)
  {
    if forall i :: 0 <= i < |payload| && payload[i].key == key ==> payload[i].caption.None? then caption.None?
    else exists i :: 0 <= i < |payload| && payload[i].key == key && payload[i].caption.Some? && payload[i].caption == caption
                     && forall j :: 0 <= j < i && payload[j].key == key ==> payload[j].caption.None?
  }

  ghost predicate IsFirstKind(payload: seq<Heading>, key: Key, kind: Option<string>)
  {
    if forall i :: 0 <= i < |payload| && payload[i].key == key ==> payload[i].kind.None? then kind.None?
    else exists i :: 0 <= i < |payload| && payload[i].key == key && payload[i].kind.Some? && payload[i].kind == kind
                     && forall j :: 0 <= j < i && payload[j].key == key ==> payload[j].kind.None?
  }

  lemma {:induction false} FirstCaptionIs(payload: seq<Heading>, key: Key)
    ensures IsFirstCaption(payload, key, FirstCaption(payload, key))
  {
    if payload != [] && !(payload[0].key == key && payload[0].caption.Some?) {
      var rest := payload[1..];
      FirstCaptionIs(rest, key);
      assert forall i :: 0 <= i < |rest| ==> rest[i] == payload[i + 1];
      if i :| 0 <= i < |rest| && rest[i].key == key && rest[i].caption.Some? && rest[i].caption == FirstCaption(rest, key)
              && forall j :: 0 <= j < i && rest[j].key == key ==> rest[j].caption.None? {
        assert forall j :: 0 < j < i + 1 ==> payload[j] == rest[j - 1];
        assert payload[i + 1].caption == FirstCaption(payload, key);
      }
    }
  }

  lemma {:induction false} FirstKindIs(payload: seq<Heading>, key: Key)
    ensures IsFirstKind(payload, key, FirstKind(payload, key))
  {
    if payload != [] && !(payload[0].key == key && payload[0].kind.Some?) {
      var rest := payload[1..];
      FirstKindIs(rest, key);
      assert forall i :: 0 <= i < |rest| ==> rest[i] == payload[i + 1];
      if i :| 0 <= i < |rest| && rest[i].key == key && rest[i].kind.Some? && rest[i].kind == FirstKind(rest, key)
              && forall j :: 0 <= j < i && rest[j].key == key ==> rest[j].kind.None? {
        assert forall j :: 0 < j < i + 1 ==> payload[j] == rest[j - 1];
        assert payload[i + 1].kind == FirstKind(payload, key);
      }
    }
  }

  /** What a row has it keeps, and what it lacks is the payload's first for its key. */
  ghost predicate IsCompletedBy(row: Heading, payload: seq<Heading>, after: Heading)
  {
    && after.key == row.key
    && (if row.caption.Some? then after.caption == row.caption else IsFirstCaption(payload, row.key, after.caption))
    && (if row.kind.Some? then after.kind == row.kind else IsFirstKind(payload, row.key, after.kind))
  }

  /** The rows there were, completed, and after them, up to eight in all, one for each key of the payload there
      was no row for, in the order the payload first names them. */
  ghost predicate IsHeadedBy(stored: seq<Heading>, payload: seq<Heading>, rows: seq<Heading>, at: seq<nat>)
  {
    && AreFirsts(KeysOf(stored), KeysOf(payload), at)
    && |stored| <= |rows| == |stored| + (if |stored| >= 8 then 0 else if |stored| + |at| > 8 then 8 - |stored| else |at|)
    && (forall j :: 0 <= j < |stored| ==> IsCompletedBy(stored[j], payload, rows[j]))
    && (forall j :: |stored| <= j < |rows| ==> IsCompletedBy(Heading(payload[at[j - |stored|]].key, None, None), payload, rows[j]))
  }

  lemma CompletedIsTold(row: Heading, payload: seq<Heading>)
    ensures IsCompletedBy(row, payload, Completed(row, payload))
  {
    FirstCaptionIs(payload, row.key);
    FirstKindIs(payload, row.key);
  }

  lemma RowsAreTold(stored: seq<Heading>, payload: seq<Heading>, taken: seq<Key>, at: seq<nat>)
    requires AreFirsts(KeysOf(stored), KeysOf(payload), at)
    requires taken == Take(PlacedAt(KeysOf(payload), at), 8 - |stored|)
    ensures IsHeadedBy(stored, payload, AllCompleted(stored + Bare(taken), payload), at)
  {
    var before := stored + Bare(taken);
    forall j | 0 <= j < |before| {
      CompletedIsTold(before[j], payload);
    }
    forall j | 0 <= j < |taken| ensures before[|stored| + j] == Heading(payload[at[j]].key, None, None) {
      assert taken[j] == PlacedAt(KeysOf(payload), at)[j];
    }
  }

  lemma HeadedIsTold(stored: seq<Heading>, payload: seq<Heading>) returns (at: seq<nat>)
    ensures IsHeadedBy(stored, payload, Headed(stored, payload), at)
  {
    at := NewKeysAreFirsts(KeysOf(stored), KeysOf(payload));
    RowsAreTold(stored, payload, KeysToAdd(KeysOf(stored), KeysOf(payload)), at);
  }

  // ── Any interleaving ──────────────────────────────────────────────────────

  /** The committed keys of one book, who holds its lock, and what each open transaction has loaded or written. */
  datatype Shelf = Shelf(keys: seq<Key>, holder: Option<nat>, open: map<nat, seq<Key>>)

  datatype Step =
    | Load(tx: nat)
    | Add(tx: nat, wanted: seq<Key>)
    | Commit(tx: nat)
    | Rollback(tx: nat)

  /** A call that would add waits for the lock while another transaction has it. */
  predicate IsEnabled(s: Shelf, step: Step)
  {
    match step
    case Load(tx) => tx !in s.open
    case Add(tx, wanted) => tx in s.open && (KeysToAdd(s.open[tx], wanted) == [] || s.holder.None? || s.holder == Some(tx))
    case Commit(tx) => tx in s.open
    case Rollback(tx) => tx in s.open
  }

  /** The check reads what was loaded, which may be stale; the lock is taken only when that shows a key
      to add, the committed keys are read again under it, and it is let go at the end of the transaction. */
  function Next(s: Shelf, step: Step): Shelf
    requires IsEnabled(s, step)
  {
    match step
    case Load(tx) => s.(open := s.open[tx := s.keys])
    case Add(tx, wanted) =>
      if KeysToAdd(s.open[tx], wanted) == [] then s
      else
        var seen := if s.holder == Some(tx) then s.open[tx] else s.keys;
        s.(holder := Some(tx), open := s.open[tx := seen + KeysToAdd(seen, wanted)])
    case Commit(tx) =>
      Shelf(if s.holder == Some(tx) then s.open[tx] else s.keys, Freed(s, tx), s.open - {tx})
    case Rollback(tx) => Shelf(s.keys, Freed(s, tx), s.open - {tx})
  }

  function Freed(s: Shelf, tx: nat): Option<nat>
  {
    if s.holder == Some(tx) then None else s.holder
  }

  ghost predicate IsRun(run: seq<Shelf>, steps: seq<Step>)
  {
    |run| == |steps| + 1 && forall i :: 0 <= i < |steps| ==> IsEnabled(run[i], steps[i]) && run[i + 1] == Next(run[i], steps[i])
  }

  ghost predicate IsWithin(keys: seq<Key>, ceiling: nat)
  {
    |keys| <= ceiling && AreDistinct(keys)
  }

  /** What the lock protects: the holder's keys extend the committed ones. */
  ghost predicate IsSound(s: Shelf, ceiling: nat)
  {
    && IsWithin(s.keys, ceiling)
    && (s.holder.Some? ==>
          s.holder.value in s.open && s.keys <= s.open[s.holder.value] && IsWithin(s.open[s.holder.value], ceiling))
  }

  lemma AddingStaysWithin(keys: seq<Key>, wanted: seq<Key>, ceiling: nat)
    requires IsWithin(keys, ceiling) && ceiling >= MAX_CLASSIFICATIONS_PER_BOOK
    ensures IsWithin(keys + KeysToAdd(keys, wanted), ceiling)
  {
    AddingStaysDistinct(keys, wanted);
  }

  lemma StepStaysSound(s: Shelf, step: Step, ceiling: nat)
    requires IsEnabled(s, step) && IsSound(s, ceiling) && ceiling >= MAX_CLASSIFICATIONS_PER_BOOK
    ensures IsSound(Next(s, step), ceiling) && s.keys <= Next(s, step).keys
  {
    if step.Add? {
      AddingStaysWithin(if s.holder == Some(step.tx) then s.open[step.tx] else s.keys, step.wanted, ceiling);
    }
  }

  /** In any interleaving the committed rows never pass the ceiling, or what there was if that was past
      it already, never hold a key twice, and never lose a key another transaction committed. */
  lemma {:induction false} EveryInterleavingKeepsTheCeiling(run: seq<Shelf>, steps: seq<Step>, i: nat, j: nat)
    requires IsRun(run, steps) && i <= j < |run|
    requires AreDistinct(run[0].keys) && run[0].holder.None?
    ensures |run[j].keys| <= 8 || |run[j].keys| <= |run[0].keys|
    ensures AreDistinct(run[j].keys) && run[i].keys <= run[j].keys
  {
    var ceiling := if |run[0].keys| > MAX_CLASSIFICATIONS_PER_BOOK then |run[0].keys| else MAX_CLASSIFICATIONS_PER_BOOK;
    SoundAt(run, steps, j, ceiling);
    KeysOnlyGrow(run, steps, i, j, ceiling);
  }

  lemma {:induction false} SoundAt(run: seq<Shelf>, steps: seq<Step>, i: nat, ceiling: nat)
    requires IsRun(run, steps) && i < |run| && IsSound(run[0], ceiling) && ceiling >= MAX_CLASSIFICATIONS_PER_BOOK
    ensures IsSound(run[i], ceiling)
  {
    if i > 0 {
      SoundAt(run, steps, i - 1, ceiling);
      StepStaysSound(run[i - 1], steps[i - 1], ceiling);
    }
  }

  lemma {:induction false} KeysOnlyGrow(run: seq<Shelf>, steps: seq<Step>, i: nat, j: nat, ceiling: nat)
    requires IsRun(run, steps) && i <= j < |run| && IsSound(run[0], ceiling) && ceiling >= MAX_CLASSIFICATIONS_PER_BOOK
    ensures run[i].keys <= run[j].keys
    decreases j - i
  {
    if i < j {
      KeysOnlyGrow(run, steps, i, j - 1, ceiling);
      SoundAt(run, steps, j - 1, ceiling);
      StepStaysSound(run[j - 1], steps[j - 1], ceiling);
    }
  }

  /** A transaction by itself adds what there is to add, and what it does not commit was never there. */
  lemma OneTransaction(s: Shelf, tx: nat, wanted: seq<Key>)
    requires tx !in s.open && s.holder.None?
    ensures var loaded := Next(s, Load(tx));
            && IsEnabled(loaded, Add(tx, wanted))
            && Next(Next(loaded, Add(tx, wanted)), Commit(tx)).keys == s.keys + KeysToAdd(s.keys, wanted)
            && Next(Next(loaded, Add(tx, wanted)), Rollback(tx)).keys == s.keys
            && forall more :: IsEnabled(Next(loaded, Add(tx, wanted)), Add(tx, more))
  {
  }

  /** Of two transactions that read before either wrote, the second waits for the first and then adds to what
      the first committed: no key is lost, and none is added twice. */
  lemma SecondSeesTheFirst(s: Shelf, one: nat, two: nat, wanted: seq<Key>, more: seq<Key>)
    requires one != two && one !in s.open && two !in s.open && s.holder.None?
    requires KeysToAdd(s.keys, wanted) != [] && KeysToAdd(s.keys, more) != []
    ensures var both := Next(Next(s, Load(one)), Load(two));
            var first := Next(both, Add(one, wanted));
            var free := Next(first, Commit(one));
            && IsEnabled(both, Add(one, wanted)) && !IsEnabled(first, Add(two, more)) && IsEnabled(free, Add(two, more))
            && Next(Next(free, Add(two, more)), Commit(two)).keys == free.keys + KeysToAdd(free.keys, more)
            && free.keys == s.keys + KeysToAdd(s.keys, wanted)
  {
  }
}
