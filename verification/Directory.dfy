/** Accounts a directory signs in: the row a name lands on, the test account that moves out of its
    way, and the loop that finds it a free name. */
module Directory {
  import opened Decimals
  import opened Wrappers

  const USERNAME_MAX := 50

  // ── A free name ───────────────────────────────────────────────────────────

  /** `base[:n]`, where a negative bound counts from the end. */
  function Slice(base: string, n: int): string
  {
    if n >= 0 then if n < |base| then base[..n] else base
    else if |base| + n >= 0 then base[..|base| + n] else ""
  }

  function Candidate(base: string, suffix: nat): string
  {
    Slice(base, USERNAME_MAX - 1 - |Digits(suffix)|) + "-" + Digits(suffix)
  }

  /** What stands after the last hyphen. */
  function AfterHyphen(s: string): string
  {
    if s == "" || s[|s| - 1] == '-' then "" else AfterHyphen(s[..|s| - 1]) + [s[|s| - 1]]
  }

  lemma {:induction false} AfterHyphenOf(head: string, tail: string)
    requires '-' !in tail
    ensures AfterHyphen(head + "-" + tail) == tail
  {
    var s := head + "-" + tail;
    if tail == "" {
      assert s[|s| - 1] == '-';
    } else {
      var rest := tail[..|tail| - 1];
      assert s[..|s| - 1] == head + "-" + rest && s[|s| - 1] == tail[|tail| - 1];
      AfterHyphenOf(head, rest);
      assert rest + [tail[|tail| - 1]] == tail;
    }
  }

  /** However much of the base is cut, the suffix can be read back: no two candidates are the same name. */
  lemma CandidateIsInjective(base: string, m: nat, n: nat)
    requires Candidate(base, m) == Candidate(base, n)
    ensures m == n
  {
    SuffixIsRead(base, m);
    SuffixIsRead(base, n);
  }

  lemma SuffixIsRead(base: string, n: nat)
    ensures Number(AfterHyphen(Candidate(base, n))) == n
  {
    DigitsAreRead(n);
    DigitsArePlain(n);
    AfterHyphenOf(Slice(base, USERNAME_MAX - 1 - |Digits(n)|), Digits(n));
  }

  /** As much of the base as the column holds beside a hyphen and the suffix; and where the digits alone fill the
      column, the base less as many of its last characters as they are over. */
  lemma CandidateIs(base: string, n: nat)
    ensures var room := 49 - |Digits(n)|;
            Candidate(base, n) == (if |base| <= room then base else if room >= 0 then base[..room]
                                   else if |base| >= -room then base[..|base| + room] else "") + "-" + Digits(n)
  {
  }

  function Pow10(k: nat): nat
  {
    if k == 0 then 1 else 10 * Pow10(k - 1)
  }

  lemma {:induction false} DigitsFit(n: nat, k: nat)
    requires k >= 1 && n < Pow10(k)
    ensures |Digits(n)| <= k
  {
    if n >= 10 {
      assert k > 1;
      DigitsFit(n / 10, k - 1);
    }
  }

  ghost predicate IsLowestFree(names: set<string>, base: string, suffix: nat)
  {
    && suffix >= 2 && Candidate(base, suffix) !in names
    && forall j :: 2 <= j < suffix ==> Candidate(base, j) in names
  }

  lemma SubsetIsNoLarger(a: set<string>, b: set<string>)
    requires a <= b
    ensures |a| <= |b|
  {
    if a != {} {
      var x :| x in a;
      SubsetIsNoLarger(a - {x}, b - {x});
    }
  }

  /** The names tried before this suffix. */
  function Tried(base: string, suffix: nat): set<string>
  {
    if suffix <= 2 then {} else Tried(base, suffix - 1) + {Candidate(base, suffix - 1)}
  }

  /** Every one of them is a name of its own. */
  lemma {:induction false} TriedAreDistinct(base: string, suffix: nat)
    requires suffix >= 2
    ensures |Tried(base, suffix)| == suffix - 2
    ensures forall later :: later >= suffix ==> Candidate(base, later) !in Tried(base, suffix)
  {
    if suffix > 2 {
      TriedAreDistinct(base, suffix - 1);
      forall later | later >= suffix ensures Candidate(base, later) !in Tried(base, suffix) {
        if Candidate(base, later) == Candidate(base, suffix - 1) {
          CandidateIsInjective(base, suffix - 1, later);
        }
      }
    }
  }

  /** There is a free suffix within one more try than there are names. */
  lemma SomeSuffixIsFree(names: set<string>, base: string) returns (suffix: nat)
    ensures IsLowestFree(names, base, suffix) && suffix <= |names| + 2
  {
    suffix := 2;
    while Candidate(base, suffix) in names
      invariant 2 <= suffix <= |names| + 2 && Tried(base, suffix) <= names
      invariant forall j :: 2 <= j < suffix ==> Candidate(base, j) in names
      decreases |names| + 2 - suffix
    {
      suffix := suffix + 1;
      TriedAreDistinct(base, suffix);
      SubsetIsNoLarger(Tried(base, suffix), names);
    }
  }

  ghost function FreeSuffix(names: set<string>, base: string): (suffix: nat)
    ensures IsLowestFree(names, base, suffix) && suffix <= |names| + 2
  {
    assert exists suffix: nat :: IsLowestFree(names, base, suffix) && suffix <= |names| + 2 by {
      var suffix := SomeSuffixIsFree(names, base);
    }
    var suffix: nat :| IsLowestFree(names, base, suffix) && suffix <= |names| + 2;
    suffix
  }

  /** `_free_username`: the loop ends, at the lowest suffix nobody uses, within the names there are; and
      the name fits its column for every number of users whose count can be written in it. */
  method FreeUsername(names: set<string>, base: string) returns (name: string, ghost tries: nat)
    ensures name == Candidate(base, FreeSuffix(names, base)) && name !in names
    ensures tries <= |names| + 1
    ensures |names| + 2 < Pow10(49) ==> |name| <= 50
  {
    var suffix := 2;
    ghost var found := FreeSuffix(names, base);
    tries := 1;
    while Candidate(base, suffix) in names
      invariant 2 <= suffix <= found && tries == suffix - 1
      invariant forall j :: 2 <= j < suffix ==> Candidate(base, j) in names
      decreases found - suffix
    {
      suffix := suffix + 1;
      tries := tries + 1;
    }
    name := Candidate(base, suffix);
    if |names| + 2 < Pow10(USERNAME_MAX - 1) {
      DigitsFit(suffix, USERNAME_MAX - 1);
    }
  }

  // ── Upserts ───────────────────────────────────────────────────────────────

  datatype User = User(name: string, admin: bool, source: string, email: Option<string>, test: bool)

  /** What the deployment's configuration says of a directory. */
  datatype Config = Config(groupSet: string -> bool, ownsEmail: string -> bool)

  /** One sign in: the name, whether the directory calls it an admin, which directory, and its usable address. */
  datatype Identity = Identity(name: string, admin: bool, source: string, email: Option<string>)

  predicate IsStorable(name: string)
  {
    |name| <= USERNAME_MAX && '\0' !in name
  }

  function Find(users: seq<User>, name: string): (i: nat)
    ensures i <= |users| && (i < |users| ==> users[i].name == name)
    ensures forall j :: 0 <= j < i ==> users[j].name != name
  {
    if users == [] then 0 else if users[0].name == name then 0 else 1 + Find(users[1..], name)
  }

  function NamesOf(users: seq<User>): set<string>
  {
    set i | 0 <= i < |users| :: users[i].name
  }

  ghost predicate AreUnique(users: seq<User>)
  {
    forall i, j :: 0 <= i < j < |users| ==> users[i].name != users[j].name
  }

  /** The users with a test account of this name, if there is one, moved aside. */
  ghost function Cleared(users: seq<User>, name: string): seq<User>
  {
    var i := Find(users, name);
    if i < |users| && users[i].test
    then users[i := users[i].(name := Candidate(name, FreeSuffix(NamesOf(users), name)))]
    else users
  }

  /** The row an identity gets, or its old one brought up to date. */
  function Made(id: Identity, config: Config, first: bool): User
  {
    User(id.name, id.admin || first, id.source, if config.ownsEmail(id.source) then id.email else None, false)
  }

  function Updated(user: User, id: Identity, config: Config): User
  {
    User(
      user.name, id.admin || (user.admin && !config.groupSet(id.source)), id.source,
      if config.ownsEmail(id.source) then id.email else user.email, user.test)
  }

  ghost function Upserted(users: seq<User>, id: Identity, config: Config): seq<User>
  {
    if !IsStorable(id.name) then users
    else
      var cleared := Cleared(users, id.name);
      var i := Find(cleared, id.name);
      if i < |cleared| then cleared[i := Updated(cleared[i], id, config)]
      else cleared + [Made(id, config, cleared == [])]
  }

  /** The row an identity signs in as. A member of that name keeps their row: they are an admin where the
      directory says so, or where they were and no group decides it, and their address is the directory's
      where it owns addresses and theirs where it does not. Anybody else gets a new row, the first of
      all as an admin. */
  ghost predicate IsSignedIn(users: seq<User>, id: Identity, config: Config, row: nat, user: User)
  {
    && user.name == id.name && !user.test && user.source == id.source
    && (row < |users| ==>
          && users[row].name == id.name && !users[row].test
          && (user.admin <==> id.admin || (users[row].admin && !config.groupSet(id.source)))
          && user.email == if config.ownsEmail(id.source) then id.email else users[row].email)
    && (row >= |users| ==>
          && row == |users| && (forall j :: 0 <= j < |users| ==> users[j].name != id.name || users[j].test)
          && (user.admin <==> id.admin || users == [])
          && user.email == if config.ownsEmail(id.source) then id.email else None)
  }

  lemma UpsertedIsSignedIn(users: seq<User>, id: Identity, config: Config, row: nat)
    requires AreUnique(users) && IsStorable(id.name)
    requires row == Find(Cleared(users, id.name), id.name)
    ensures row < |Upserted(users, id, config)| && IsSignedIn(users, id, config, row, Upserted(users, id, config)[row])
  {
    ClearedIsUnique(users, id.name);
    var cleared := Cleared(users, id.name);
    if row == |cleared| {
      forall j | 0 <= j < |users| ensures users[j].name != id.name || users[j].test {
        assert cleared[j].name != id.name;
      }
    }
  }

  class Accounts {
    var users: seq<User>

    /** The row the identity signs in as; past the end of the rows where it is refused. */
    method UpsertDirectoryUser(id: Identity, config: Config) returns (row: nat)
      requires AreUnique(users)
      modifies this`users
      ensures users == Upserted(old(users), id, config) && AreUnique(users)
      ensures row < |users| <==> |id.name| <= 50 && '\0' !in id.name
      ensures row == |users| ==> users == old(users)
      ensures row < |users| ==> IsSignedIn(old(users), id, config, row, users[row])
    {
      if |id.name| > USERNAME_MAX {
        return |users|;
      }
      if '\0' in id.name {
        return |users|;
      }
      UpsertedIsUnique(users, id, config);
      ghost var place := Find(Cleared(users, id.name), id.name);
      UpsertedIsSignedIn(users, id, config, place);
      row := FindUser(id.name);
      if row < |users| && users[row].test {
        MoveTestAccountAside(row);
        row := |users|;
      }
      var admin := id.admin;
      if row == |users| && users == [] {
        admin := true;
      }
      if row < |users| && users[row].admin && !admin && !config.groupSet(id.source) {
        admin := true;
      }
      var owns := config.ownsEmail(id.source);
      if row == |users| {
        users := users + [User(id.name, admin, id.source, if owns then id.email else None, false)];
        return;
      }
      if users[row].admin != admin || users[row].source != id.source || (owns && users[row].email != id.email) {
        if owns && users[row].email != id.email {
          users := users[row := users[row].(email := id.email)];
        }
        users := users[row := users[row].(admin := admin, source := id.source)];
      }
    }

    method FindUser(name: string) returns (i: nat)
      ensures i == Find(users, name)
    {
      i := 0;
      while i < |users| && users[i].name != name
        invariant i <= |users| && Find(users, name) == i + Find(users[i..], name)
      {
        assert users[i..][1..] == users[i + 1..];
        i := i + 1;
      }
    }

    method MoveTestAccountAside(row: nat)
      requires row < |users| && users[row].test && row == Find(users, users[row].name) && AreUnique(users)
      modifies this`users
      ensures users == Cleared(old(users), old(users)[row].name)
      ensures Find(users, old(users)[row].name) == |users| && |users| == |old(users)|
    {
      var name, tries := FreeUsername(NamesOf(users), users[row].name);
      ClearedIsUnique(users, users[row].name);
      users := users[row := users[row].(name := name)];
    }
  }

  lemma FindIs(users: seq<User>, name: string, i: nat)
    requires i <= |users| && (i < |users| ==> users[i].name == name)
    requires forall j :: 0 <= j < i ==> users[j].name != name
    ensures Find(users, name) == i
  {
  }

  /** Moving a test account aside keeps the names unique and frees the one asked for; nothing but that
      account's name changes. */
  lemma ClearedIsUnique(users: seq<User>, name: string)
    requires AreUnique(users)
    ensures AreUnique(Cleared(users, name)) && |Cleared(users, name)| == |users|
    ensures var i := Find(Cleared(users, name), name);
            i < |users| ==> i == Find(users, name) && !users[i].test && Cleared(users, name) == users
    ensures forall j :: 0 <= j < |users| ==>
              Cleared(users, name)[j] == users[j]
              || (users[j].test && users[j].name == name && Cleared(users, name)[j] == users[j].(name := Cleared(users, name)[j].name))
  {
    var i, cleared := Find(users, name), Cleared(users, name);
    if i < |users| && users[i].test {
      var free := Candidate(name, FreeSuffix(NamesOf(users), name));
      assert forall j :: 0 <= j < |users| ==> users[j].name in NamesOf(users);
      assert free !in NamesOf(users) && name in NamesOf(users);
      FindIs(cleared, name, |users|);
    }
  }

  lemma UpsertedIsUnique(users: seq<User>, id: Identity, config: Config)
    requires AreUnique(users)
    ensures AreUnique(Upserted(users, id, config))
  {
    ClearedIsUnique(users, id.name);
  }

  /** What one sign in does to each account there was: a test account keeps all but perhaps its name and is
      not the one signed in as; any other is untouched unless it is the identity's own. */
  lemma UpsertTouchesOneAccount(users: seq<User>, id: Identity, config: Config, j: nat)
    requires AreUnique(users) && j < |users|
    ensures |users| <= |Upserted(users, id, config)| <= |users| + 1
    ensures var after := Upserted(users, id, config)[j];
            && after.test == users[j].test
            && (users[j].test ==> after == users[j].(name := after.name) && (after.name != id.name || !IsStorable(id.name)))
            && (!users[j].test && users[j].name != id.name ==> after == users[j])
            && (!users[j].test ==> after.name == users[j].name)
  {
    ClearedIsUnique(users, id.name);
    var cleared := Cleared(users, id.name);
    assert cleared[j].name == id.name ==> Find(cleared, id.name) == j by {
      var i := Find(cleared, id.name);
      assert i < |cleared| && i < j ==> cleared[i].name != cleared[j].name;
    }
  }

  ghost function Run(users: seq<User>, ids: seq<Identity>, config: Config): seq<User>
  {
    if ids == [] then users else Upserted(Run(users, ids[..|ids| - 1], config), ids[|ids| - 1], config)
  }

  /** Over every run of sign ins names stay unique, no account is lost, and a test account is a test
      account still, with everything it had but perhaps its name. */
  lemma {:induction false} EveryRunKeepsAccounts(users: seq<User>, ids: seq<Identity>, config: Config, j: nat)
    requires AreUnique(users) && j < |users|
    ensures AreUnique(Run(users, ids, config)) && |users| <= |Run(users, ids, config)|
    ensures var after := Run(users, ids, config)[j];
            after.test == users[j].test && (users[j].test ==> after == users[j].(name := after.name))
            && (!users[j].test ==> after.name == users[j].name)
  {
    if ids != [] {
      var before := Run(users, ids[..|ids| - 1], config);
      EveryRunKeepsAccounts(users, ids[..|ids| - 1], config, j);
      UpsertedIsUnique(before, ids[|ids| - 1], config);
      UpsertTouchesOneAccount(before, ids[|ids| - 1], config, j);
    }
  }

  /** Signing in again changes nothing, but for one case: the first account of a library is made an admin
      whatever its directory says, and its next sign in takes that back where an admin group is set
      that it is not in. */
  lemma RepeatIsNoOpIff(users: seq<User>, id: Identity, config: Config)
    requires AreUnique(users)
    ensures var after := Upserted(users, id, config);
            Upserted(after, id, config) == after
            <==> !(IsStorable(id.name) && users == [] && !id.admin && config.groupSet(id.source))
  {
    var after := Upserted(users, id, config);
    ClearedIsUnique(users, id.name);
    UpsertedIsUnique(users, id, config);
    if IsStorable(id.name) {
      var cleared := Cleared(users, id.name);
      var i := Find(cleared, id.name);
      FindIs(after, id.name, i);
      assert i < |cleared| ==> !users[i].test;
      assert Cleared(after, id.name) == after;
      assert after[i := Updated(after[i], id, config)] == after <==> Updated(after[i], id, config) == after[i];
    }
  }
}
