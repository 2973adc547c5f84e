/** Getting back in: a member asks, an admin approves and reads out a code, the member redeems it. */
module Resets {
  // The bcrypt of a code is ideal, so a row keeps the normalised code itself; one call reads the clock once.
  import opened Wrappers

  /** Seconds. */
  const RESET_REQUEST_TTL := 7 * 24 * 3600
  const RESET_CODE_TTL := 3600

  datatype User = User(local: bool, blocked: bool, password: string, validFrom: Option<int>, sync: Option<string>)

  /** Granted by whom and when, and until when its code works; no code once it is spent. */
  datatype Approval = Approval(admin: string, at: int, codeExpires: int, code: Option<string>)

  datatype Row = Row(account: string, requested: int, expires: int, approval: Option<Approval>, completed: Option<int>)

  datatype State = State(users: map<string, User>, requests: seq<Row>)

  predicate IsCodeCharacter(c: char)
  {
    'A' <= c <= 'Z' || 'a' <= c <= 'z' || '0' <= c <= '9'
  }

  function Upper(c: char): char
  {
    if 'a' <= c <= 'z' then (c as int - 32) as char else c
  }

  /** `normalise_code`: what was typed, reduced to what was generated. */
  function Normal(raw: string): string
  {
    if raw == "" then ""
    else (if IsCodeCharacter(raw[0]) then [Upper(raw[0])] else "") + Normal(raw[1..])
  }

  // ── One call, on values ───────────────────────────────────────────────────

  predicate IsLive(row: Row, account: string)
  {
    row.account == account && row.completed.None?
  }

  /** Where the account's unredeemed request stands; past the end where there is none. */
  function LiveIndex(requests: seq<Row>, account: string): (i: nat)
    ensures i <= |requests|
    ensures i < |requests| ==> IsLive(requests[i], account)
    ensures forall j :: 0 <= j < i ==> !IsLive(requests[j], account)
  {
    if requests == [] then 0
    else if IsLive(requests[0], account) then 0
    else 1 + LiveIndex(requests[1..], account)
  }

  function Live(requests: seq<Row>, account: string): Option<Row>
  {
    var i := LiveIndex(requests, account);
    if i < |requests| then Some(requests[i]) else None
  }

  predicate HasLapsed(row: Row, now: int)
  {
    if row.approval.Some? then row.approval.value.codeExpires <= now else row.expires <= now
  }

  function Without(requests: seq<Row>, i: nat): seq<Row>
    requires i < |requests|
  {
    requests[..i] + requests[i + 1..]
  }

  function Asked(account: string, now: int): Row
  {
    Row(account, now, now + RESET_REQUEST_TTL, None, None)
  }

  predicate MayReset(users: map<string, User>, account: string)
  {
    account in users && users[account].local
  }

  function RequestIn(s: State, now: int, account: string): State
  {
    var i := LiveIndex(s.requests, account);
    if !MayReset(s.users, account) then s
    else if i == |s.requests| then s.(requests := s.requests + [Asked(account, now)])
    else if !HasLapsed(s.requests[i], now) then s
    else s.(requests := Without(s.requests, i) + [Asked(account, now)])
  }

  function ApproveIn(s: State, now: int, account: string, admin: string, code: string): State
  {
    var i := LiveIndex(s.requests, account);
    if i == |s.requests| then s
    else
      var approval := Approval(admin, now, now + RESET_CODE_TTL, Some(Normal(code)));
      s.(requests := s.requests[i := s.requests[i].(approval := Some(approval))])
  }

  function DismissIn(s: State, account: string): State
  {
    var i := LiveIndex(s.requests, account);
    if i == |s.requests| then s else s.(requests := Without(s.requests, i))
  }

  /** Whether this row answers this code now. */
  predicate Answers(row: Row, now: int, code: string)
  {
    row.approval.Some? && row.approval.value.codeExpires > now && row.approval.value.code == Some(Normal(code))
  }

  predicate Redeems(s: State, now: int, account: string, code: string)
  {
    && MayReset(s.users, account) && Live(s.requests, account).Some?
    && Answers(Live(s.requests, account).value, now, code)
  }

  function RedeemIn(s: State, now: int, account: string, code: string, password: string): State
  {
    if !Redeems(s, now, account, code) then s
    else
      var i := LiveIndex(s.requests, account);
      var spent := s.requests[i].approval.value.(code := None);
      State(
        s.users[account := s.users[account].(password := password, validFrom := Some(now), sync := None)],
        s.requests[i := s.requests[i].(approval := Some(spent), completed := Some(now))])
  }

  /** `session_is_live`: whether a token minted then may still act as the account. */
  predicate SessionIsLive(user: User, issued: Option<int>)
  {
    (user.validFrom.Some? ==> issued.Some? && issued.value >= user.validFrom.value) && !user.blocked
  }

  // ── One call ──────────────────────────────────────────────────────────────

  class Accounts {
    var users: map<string, User>
    var requests: seq<Row>

    function Current(): State
      reads this
    {
      State(users, requests)
    }

    method RequestPasswordReset(now: int, account: string)
      modifies this`requests
      ensures Current() == RequestIn(old(Current()), now, account)
      ensures var live := Live(old(requests), account);
              if account !in users || !users[account].local
                 || (live.Some? && if live.value.approval.Some? then now < live.value.approval.value.codeExpires else now < live.value.expires)
              then requests == old(requests)
              else
                var i := LiveIndex(old(requests), account);
                requests == (if live.None? then old(requests) else old(requests)[..i] + old(requests)[i + 1..])
                            + [Row(account, now, now + 604_800, None, None)]
    {
      if account !in users || !users[account].local {
        return;
      }
      var i := FindLive(account);
      if i < |requests| {
        if !HasLapsed(requests[i], now) {
          return;
        }
        requests := requests[..i] + requests[i + 1..];
      }
      requests := requests + [Row(account, now, now + RESET_REQUEST_TTL, None, None)];
    }

    /** Looks the rows through for the one not yet redeemed. */
    method FindLive(account: string) returns (i: nat)
      ensures i == LiveIndex(requests, account)
    {
      i := 0;
      while i < |requests| && !(requests[i].account == account && requests[i].completed.None?)
        invariant i <= |requests|
        invariant LiveIndex(requests, account) == i + LiveIndex(requests[i..], account)
      {
        assert requests[i..][1..] == requests[i + 1..];
        i := i + 1;
      }
    }

    method ApproveReset(now: int, account: string, admin: string, code: string) returns (found: bool)
      modifies this`requests
      ensures found <==> Live(old(requests), account).Some?
      ensures Current() == ApproveIn(old(Current()), now, account, admin, code)
      ensures found ==> var i := LiveIndex(old(requests), account);
                requests == old(requests)[i := old(requests)[i].(approval := Some(Approval(admin, now, now + 3_600, Some(Normal(code)))))]
      ensures !found ==> requests == old(requests)
    {
      var i := FindLive(account);
      if i == |requests| {
        return false;
      }
      var approval := Approval(admin, now, now + RESET_CODE_TTL, Some(Normal(code)));
      requests := requests[i := requests[i].(approval := Some(approval))];
      found := true;
    }

    method DismissReset(account: string) returns (found: bool)
      modifies this`requests
      ensures found <==> Live(old(requests), account).Some?
      ensures Current() == DismissIn(old(Current()), account)
      ensures var i := LiveIndex(old(requests), account);
              requests == if found then old(requests)[..i] + old(requests)[i + 1..] else old(requests)
    {
      var i := FindLive(account);
      if i == |requests| {
        return false;
      }
      requests := requests[..i] + requests[i + 1..];
      found := true;
    }

    method RedeemReset(now: int, account: string, code: string, password: string) returns (redeemed: bool)
      modifies this
      ensures redeemed <==> Redeems(old(Current()), now, account, code)
      ensures redeemed <==>
                var live := Live(old(requests), account);
                && account in old(users) && old(users)[account].local
                && live.Some? && live.value.approval.Some?
                && now < live.value.approval.value.codeExpires && live.value.approval.value.code == Some(Normal(code))
      ensures Current() == RedeemIn(old(Current()), now, account, code, password)
      ensures !redeemed ==> Current() == old(Current())
      ensures redeemed ==>
                && users == old(users)[account := User(true, old(users)[account].blocked, password, Some(now), None)]
                && Live(old(requests), account).value.completed.None?
                && var i := LiveIndex(old(requests), account);
                   |requests| == |old(requests)| && requests[i].completed == Some(now) && requests[i].approval.value.code.None?
    {
      if account !in users || !users[account].local {
        return false;
      }
      var i := FindLive(account);
      if i == |requests| || requests[i].approval.None? {
        return false;
      }
      var approval := requests[i].approval.value;
      if approval.codeExpires <= now {
        return false;
      }
      if approval.code != Some(Normal(code)) {
        return false;
      }
      users := users[account := users[account].(password := password)];
      EndEverySession(now, account);
      requests := requests[i := requests[i].(approval := Some(approval.(code := None)), completed := Some(now))];
      redeemed := true;
    }

    method EndEverySession(now: int, account: string)
      requires account in users
      modifies this`users
      ensures users == old(users)[account := old(users)[account].(validFrom := Some(now), sync := None)]
    {
      users := users[account := users[account].(validFrom := Some(now), sync := None)];
    }
  }

  // ── Runs ──────────────────────────────────────────────────────────────────

  datatype Call =
    | Request(now: int, account: string)
    | Approve(now: int, account: string, admin: string, code: string)
    | Dismiss(now: int, account: string)
    | Redeem(now: int, account: string, code: string, password: string)

  function After(s: State, call: Call): State
  {
    match call
    case Request(now, account) => RequestIn(s, now, account)
    case Approve(now, account, admin, code) => ApproveIn(s, now, account, admin, code)
    case Dismiss(_, account) => DismissIn(s, account)
    case Redeem(now, account, code, password) => RedeemIn(s, now, account, code, password)
  }

  function Run(s: State, calls: seq<Call>): State
  {
    if calls == [] then s else After(Run(s, calls[..|calls| - 1]), calls[|calls| - 1])
  }

  /** The state the call at `i` meets. */
  function Before(s: State, calls: seq<Call>, i: nat): State
    requires i <= |calls|
  {
    Run(s, calls[..i])
  }

  lemma BeforeStep(s: State, calls: seq<Call>, i: nat)
    requires i < |calls|
    ensures Before(s, calls, i + 1) == After(Before(s, calls, i), calls[i])
  {
    var first := calls[..i + 1];
    assert first[..|first| - 1] == calls[..i] && first[|first| - 1] == calls[i];
  }

  ghost predicate IsMonotone(calls: seq<Call>)
  {
    forall i, j :: 0 <= i <= j < |calls| ==> calls[i].now <= calls[j].now
  }

  predicate IsRedeemedAt(s: State, calls: seq<Call>, i: nat, account: string)
    requires i < |calls|
  {
    && calls[i].Redeem? && calls[i].account == account
    && Redeems(Before(s, calls, i), calls[i].now, account, calls[i].code)
  }

  // ── One live request ──────────────────────────────────────────────────────

  /** At most one unredeemed request for each account. */
  ghost predicate OneLive(requests: seq<Row>)
  {
    forall i, j, account :: 0 <= i < j < |requests| && IsLive(requests[i], account) ==> !IsLive(requests[j], account)
  }

  /** What a call does to its own account's live row: makes or replaces, approves, removes, redeems it. */
  function LiveNext(users: map<string, User>, live: Option<Row>, call: Call): Option<Row>
  {
    match call
    case Request(now, account) =>
      if MayReset(users, account) && (live.None? || HasLapsed(live.value, now)) then Some(Asked(account, now)) else live
    case Approve(now, _, admin, code) =>
      if live.None? then None
      else Some(live.value.(approval := Some(Approval(admin, now, now + RESET_CODE_TTL, Some(Normal(code))))))
    case Dismiss(_, _) => None
    case Redeem(now, account, code, _) =>
      if MayReset(users, account) && live.Some? && Answers(live.value, now, code) then None else live
  }

  lemma IndexIs(requests: seq<Row>, account: string, i: nat)
    requires i <= |requests| && (i < |requests| ==> IsLive(requests[i], account))
    requires forall j :: 0 <= j < i ==> !IsLive(requests[j], account)
    ensures LiveIndex(requests, account) == i
  {
  }

  /** The rows with an account's live one taken out. */
  lemma LiveWithout(requests: seq<Row>, i: nat, account: string)
    requires OneLive(requests) && i < |requests| && requests[i].completed.None?
    ensures OneLive(Without(requests, i))
    ensures Live(Without(requests, i), account) == if account == requests[i].account then None else Live(requests, account)
  {
    var kept := Without(requests, i);
    assert forall j :: 0 <= j < |kept| ==> kept[j] == requests[if j < i then j else j + 1];
    forall j, k, a | 0 <= j < k < |kept| && IsLive(kept[j], a) ensures !IsLive(kept[k], a) {
      assert IsLive(requests[if j < i then j else j + 1], a);
    }
    var k := LiveIndex(requests, account);
    assert IsLive(requests[i], requests[i].account);
    IndexIs(kept, account, if account == requests[i].account then |kept| else if k < i then k else k - 1);
  }

  lemma LiveOfAppended(requests: seq<Row>, row: Row, account: string)
    requires OneLive(requests) && row.completed.None? && Live(requests, row.account).None?
    ensures OneLive(requests + [row])
    ensures Live(requests + [row], account) == if row.account == account then Some(row) else Live(requests, account)
  {
    var k := LiveIndex(requests, account);
    IndexIs(requests + [row], account, if row.account == account || k < |requests| then k else k + 1);
  }

  /** The live row rewritten in place, or completed. */
  lemma LiveOfUpdated(requests: seq<Row>, i: nat, row: Row, account: string)
    requires OneLive(requests) && i < |requests| && row.account == requests[i].account && requests[i].completed.None?
    ensures OneLive(requests[i := row])
    ensures Live(requests[i := row], account)
         == if row.account != account then Live(requests, account) else if row.completed.None? then Some(row) else None
  {
    var k := LiveIndex(requests, account);
    assert IsLive(requests[i], row.account);
    IndexIs(requests[i := row], account, if row.account != account then k else if row.completed.None? then i else |requests|);
  }

  /** A call changes its own account's live row as `LiveNext` says and no other account's, and there is
      still at most one. */
  lemma LiveAfter(s: State, call: Call, account: string)
    requires OneLive(s.requests)
    ensures OneLive(After(s, call).requests)
    ensures Live(After(s, call).requests, account)
         == if account == call.account then LiveNext(s.users, Live(s.requests, account), call) else Live(s.requests, account)
  {
    var i, after := LiveIndex(s.requests, call.account), After(s, call).requests;
    if call.Request? {
      if MayReset(s.users, call.account) {
        if i == |s.requests| {
          LiveOfAppended(s.requests, Asked(call.account, call.now), account);
        } else if HasLapsed(s.requests[i], call.now) {
          LiveOfReplaced(s.requests, i, Asked(call.account, call.now), account);
        }
      }
    } else if i < |s.requests| {
      if call.Dismiss? {
        LiveWithout(s.requests, i, account);
      } else if after != s.requests {
        LiveOfUpdated(s.requests, i, after[i], account);
      }
    }
  }

  lemma LiveOfReplaced(requests: seq<Row>, i: nat, row: Row, account: string)
    requires OneLive(requests) && i < |requests| && requests[i].completed.None?
    requires row.account == requests[i].account && row.completed.None?
    ensures OneLive(Without(requests, i) + [row])
    ensures Live(Without(requests, i) + [row], account) == if row.account == account then Some(row) else Live(requests, account)
  {
    LiveWithout(requests, i, row.account);
    LiveWithout(requests, i, account);
    LiveOfAppended(Without(requests, i), row, account);
  }

  lemma {:induction false} EveryRunHasOneLive(s: State, calls: seq<Call>)
    requires OneLive(s.requests)
    ensures OneLive(Run(s, calls).requests)
  {
    if calls != [] {
      EveryRunHasOneLive(s, calls[..|calls| - 1]);
      LiveAfter(Run(s, calls[..|calls| - 1]), calls[|calls| - 1], "");
    }
  }

  // ── A redemption has an approval of its own ───────────────────────────────

  /** The row as the approval at `j` left it. */
  predicate IsGrantedBy(row: Row, call: Call)
  {
    && call.Approve? && call.account == row.account
    && row.approval == Some(Approval(call.admin, call.now, call.now + RESET_CODE_TTL, Some(Normal(call.code))))
  }

  /** The approval at `j` made the account's row what it is before call `n`, and no call in between touched it. */
  ghost predicate IsGrantSince(s: State, calls: seq<Call>, n: nat, account: string, j: nat, row: Row)
    requires j < n <= |calls|
  {
    && calls[j].account == account && IsGrantedBy(row, calls[j])
    && forall k :: j < k <= n ==> Live(Before(s, calls, k).requests, account) == Some(row)
  }

  lemma {:induction false} ApprovedRowWasGranted(s: State, calls: seq<Call>, n: nat, account: string) returns (j: nat)
    requires n <= |calls| && OneLive(s.requests) && s.requests == []
    requires Live(Before(s, calls, n).requests, account).Some? && Live(Before(s, calls, n).requests, account).value.approval.Some?
    ensures j < n && IsGrantSince(s, calls, n, account, j, Live(Before(s, calls, n).requests, account).value)
  {
    assert n > 0 by { assert calls[..0] == []; }
    var m := n - 1;
    GrantedOrStood(s, calls, m, account);
    if calls[m].Approve? && calls[m].account == account {
      j := m;
    } else {
      j := ApprovedRowWasGranted(s, calls, m, account);
    }
  }

  /** A call leaves an approved request live that it has just approved, or that stood so before it. */
  lemma GrantedOrStood(s: State, calls: seq<Call>, m: nat, account: string)
    requires m < |calls| && OneLive(s.requests)
    requires Live(Before(s, calls, m + 1).requests, account).Some? && Live(Before(s, calls, m + 1).requests, account).value.approval.Some?
    ensures var row := Live(Before(s, calls, m + 1).requests, account).value;
            row.account == account &&
            if calls[m].Approve? && calls[m].account == account then IsGrantedBy(row, calls[m])
            else Live(Before(s, calls, m).requests, account) == Some(row)
  {
    EveryRunHasOneLive(s, calls[..m]);
    BeforeStep(s, calls, m);
    LiveAfter(Before(s, calls, m), calls[m], account);
  }

  /** Over every run from no requests: a redemption that succeeds is preceded by an approval of that
      very row, whose code it gave, within the code's time; no call between the two touched the
      row, so no other redemption was granted by the same approval. */
  lemma EveryRedemptionHasItsApproval(s: State, calls: seq<Call>, i: nat, account: string) returns (j: nat)
    requires s.requests == [] && i < |calls| && IsRedeemedAt(s, calls, i, account)
    ensures Live(Before(s, calls, i).requests, account).Some?
    ensures j < i && IsGrantSince(s, calls, i, account, j, Live(Before(s, calls, i).requests, account).value)
    ensures calls[j].Approve? && calls[j].account == account
    ensures Normal(calls[j].code) == Normal(calls[i].code) && calls[i].now < calls[j].now + 3_600
    ensures forall k :: j <= k < i ==> !IsRedeemedAt(s, calls, k, account)
    ensures Live(Before(s, calls, i + 1).requests, account).None?
  {
    j := ApprovedRowWasGranted(s, calls, i, account);
    var row := Live(Before(s, calls, i).requests, account).value;
    forall k | j <= k < i ensures !IsRedeemedAt(s, calls, k, account) {
      NothingLiveAfterRedeeming(s, calls, k, account);
    }
    NothingLiveAfterRedeeming(s, calls, i, account);
  }

  lemma NothingLiveAfterRedeeming(s: State, calls: seq<Call>, i: nat, account: string)
    requires s.requests == [] && i < |calls|
    ensures IsRedeemedAt(s, calls, i, account) ==> Live(Before(s, calls, i + 1).requests, account).None?
  {
    EveryRunHasOneLive(s, calls[..i]);
    BeforeStep(s, calls, i);
    LiveAfter(Before(s, calls, i), calls[i], account);
  }

  // ── Lapsed or redeemable ──────────────────────────────────────────────────

  /** An approved row either answers its own code or may be replaced, and never both: asking again cannot
      cancel a code that would still have worked, and once it would not, asking again starts a new
      request at once. */
  lemma LapsedOrRedeemable(s: State, now: int, account: string, code: string)
    requires OneLive(s.requests) && MayReset(s.users, account)
    requires Live(s.requests, account).Some?
    requires var approval := Live(s.requests, account).value.approval; approval.Some? && approval.value.code == Some(Normal(code))
    ensures Redeems(s, now, account, code) <==> RequestIn(s, now, account) == s
    ensures !Redeems(s, now, account, code) <==> Live(RequestIn(s, now, account).requests, account) == Some(Asked(account, now))
  {
    LiveAfter(s, Request(now, account), account);
    assert Asked(account, now).approval.None?;
  }

  /** So at every instant of every run from no requests: an approved row was approved in the run and not
      touched since, and the code given then works for its hour, exactly as long as asking again
      changes nothing. */
  lemma EveryApprovalLapsesOrRedeems(s: State, calls: seq<Call>, n: nat, account: string, now: int) returns (j: nat)
    requires s.requests == [] && n <= |calls| && MayReset(Before(s, calls, n).users, account)
    requires Live(Before(s, calls, n).requests, account).Some? && Live(Before(s, calls, n).requests, account).value.approval.Some?
    ensures j < n && IsGrantSince(s, calls, n, account, j, Live(Before(s, calls, n).requests, account).value)
    ensures var here := Before(s, calls, n);
            var redeems := Redeems(here, now, account, calls[j].code);
            && (redeems <==> now < calls[j].now + RESET_CODE_TTL)
            && (redeems <==> RequestIn(here, now, account) == here)
            && (!redeems <==> Live(RequestIn(here, now, account).requests, account) == Some(Asked(account, now)))
  {
    j := ApprovedRowWasGranted(s, calls, n, account);
    EveryRunHasOneLive(s, calls[..n]);
    LapsedOrRedeemable(Before(s, calls, n), now, account, calls[j].code);
  }

  /** The queue's own time is not asked for at approval: a request past it, which the queue no longer
      shows, is granted all the same and then lives as long as any code. */
  lemma ApprovalRevivesALapsedRequest(s: State, now: int, account: string, admin: string, code: string)
    requires OneLive(s.requests) && MayReset(s.users, account)
    requires Live(s.requests, account).Some? && HasLapsed(Live(s.requests, account).value, now)
    ensures var after := ApproveIn(s, now, account, admin, code);
            && Live(after.requests, account).Some? && !HasLapsed(Live(after.requests, account).value, now)
            && forall later :: now <= later ==> (Redeems(after, later, account, code) <==> later < now + RESET_CODE_TTL)
  {
    LiveAfter(s, Approve(now, account, admin, code), account);
  }

  // ── What a code is ────────────────────────────────────────────────────────

  /** Capitals and digits only, as every code is that is drawn: the alphabet leaves out I, O, 0 and 1 besides. */
  ghost predicate IsPlain(text: string)
  {
    forall i :: 0 <= i < |text| ==> 'A' <= text[i] <= 'Z' || '0' <= text[i] <= '9'
  }

  lemma {:induction false} NormalConcat(a: string, b: string)
    ensures Normal(a + b) == Normal(a) + Normal(b)
  {
    if a == "" {
      assert a + b == b && Normal(a) + Normal(b) == Normal(b);
    } else {
      var first := if IsCodeCharacter(a[0]) then [Upper(a[0])] else "";
      assert (a + b)[1..] == a[1..] + b && (a + b)[0] == a[0];
      NormalConcat(a[1..], b);
      assert first + (Normal(a[1..]) + Normal(b)) == (first + Normal(a[1..])) + Normal(b);
    }
  }

  /** By code points: a capital or a digit counts as it is, a lower-case letter as its capital, and any other
      character for nothing. */
  lemma NormalOfOne(c: char)
    ensures var p := c as int;
            Normal([c]) == if 0x41 <= p <= 0x5A || 0x30 <= p <= 0x39 then [c]
                           else if 0x61 <= p <= 0x7A then [(p - 0x20) as char] else ""
  {
    assert [c][1..] == "";
  }

  lemma NormalOfThree(a: string, c: char, b: string)
    ensures Normal(a + [c] + b) == Normal(a) + Normal([c]) + Normal(b)
  {
    NormalConcat(a, [c]);
    NormalConcat(a + [c], b);
  }

  lemma {:induction false} PlainIsItsOwn(text: string)
    requires IsPlain(text)
    ensures Normal(text) == text
  {
    if text != "" {
      PlainIsItsOwn(text[1..]);
      NormalOfOne(text[0]);
      assert text == [text[0]] + text[1..];
    }
  }

  /** Spaces, hyphens and whatever else is no ASCII letter or digit count for nothing, wherever they stand:
      neither in the code as it was given nor as it is typed. */
  lemma OtherCharactersDoNotCount(s: State, now: int, account: string, admin: string, a: string, c: char, b: string)
    requires !('A' <= c <= 'Z' || 'a' <= c <= 'z' || '0' <= c <= '9')
    ensures Redeems(s, now, account, a + [c] + b) <==> Redeems(s, now, account, a + b)
    ensures ApproveIn(s, now, account, admin, a + [c] + b) == ApproveIn(s, now, account, admin, a + b)
  {
    NormalOfThree(a, c, b);
    NormalOfOne(c);
    NormalConcat(a, b);
    assert Normal(a) + "" == Normal(a);
  }

  /** Nor does case. */
  lemma CaseDoesNotCount(s: State, now: int, account: string, admin: string, a: string, n: nat, b: string)
    requires n < 26
    ensures var small, capital := ('a' as int + n) as char, ('A' as int + n) as char;
            && (Redeems(s, now, account, a + [small] + b) <==> Redeems(s, now, account, a + [capital] + b))
            && ApproveIn(s, now, account, admin, a + [small] + b) == ApproveIn(s, now, account, admin, a + [capital] + b)
  {
    var small, capital := ('a' as int + n) as char, ('A' as int + n) as char;
    NormalOfThree(a, small, b);
    NormalOfThree(a, capital, b);
    NormalOfOne(small);
    NormalOfOne(capital);
  }

  /** And every capital and every digit does: of the codes made of them, as all that are drawn are, the one
      approved is redeemed, within its hour, and no other. */
  lemma OnlyTheCodeRedeems(s: State, now: int, account: string, admin: string, code: string, later: int, typed: string)
    requires account in s.users && s.users[account].local && Live(s.requests, account).Some?
    requires OneLive(s.requests) && IsPlain(code) && IsPlain(typed)
    ensures Redeems(ApproveIn(s, now, account, admin, code), later, account, typed) <==> typed == code && later < now + 3_600
  {
    PlainIsItsOwn(code);
    PlainIsItsOwn(typed);
    LiveAfter(s, Approve(now, account, admin, code), account);
  }

  // ── Sessions ──────────────────────────────────────────────────────────────

  /** Some redemption of the account among the calls is later than the token, or the token has no time. */
  ghost predicate IsOutdated(s: State, calls: seq<Call>, account: string, issued: Option<int>)
  {
    exists i :: 0 <= i < |calls| && IsRedeemedAt(s, calls, i, account) && (issued.None? || issued.value < calls[i].now)
  }

  lemma OutdatedByLast(s: State, calls: seq<Call>, account: string, issued: Option<int>)
    requires calls != []
    ensures var n := |calls| - 1;
            IsOutdated(s, calls, account, issued)
            <==> IsOutdated(s, calls[..n], account, issued)
                 || (IsRedeemedAt(s, calls, n, account) && (issued.None? || issued.value < calls[n].now))
  {
    var n := |calls| - 1;
    forall i | 0 <= i < n ensures IsRedeemedAt(s, calls[..n], i, account) == IsRedeemedAt(s, calls, i, account) {
      assert calls[..n][..i] == calls[..i];
    }
    if i :| 0 <= i < |calls[..n]| && IsRedeemedAt(s, calls[..n], i, account) && (issued.None? || issued.value < calls[..n][i].now) {
      assert IsRedeemedAt(s, calls, i, account);
    }
  }

  /** The account was cut off, if at all, no later than these calls. */
  predicate IsCutOffBefore(user: User, calls: seq<Call>)
  {
    user.validFrom.Some? ==> forall i :: 0 <= i < |calls| ==> user.validFrom.value <= calls[i].now
  }

  /** Over every run under a clock that does not go back, the tokens an account may act with are exactly
      those it could act with before and that are not older than any of its redemptions: one refused
      for that is refused for ever, and one minted since the last is not. */
  lemma {:induction false} SessionsEndAtRedemption(s: State, calls: seq<Call>, account: string, issued: Option<int>)
    requires account in s.users && IsMonotone(calls) && IsCutOffBefore(s.users[account], calls)
    ensures account in Run(s, calls).users && Run(s, calls).users[account].blocked == s.users[account].blocked
    ensures SessionIsLive(Run(s, calls).users[account], issued)
       <==> !s.users[account].blocked && !IsOutdated(s, calls, account, issued)
            && (s.users[account].validFrom.Some? ==> issued.Some? && s.users[account].validFrom.value <= issued.value)
    ensures var cutoff := Run(s, calls).users[account].validFrom;
            cutoff == s.users[account].validFrom || (cutoff.Some? && calls != [] && cutoff.value <= calls[|calls| - 1].now)
  {
    if calls != [] {
      var n := |calls| - 1;
      SessionsEndAtRedemption(s, calls[..n], account, issued);
      OutdatedByLast(s, calls, account, issued);
      OneCallOnUser(Before(s, calls, n), calls[n], account);
    }
  }

  /** The member's password is the one chosen at the account's last redemption, or the one there was
      before any: no request, approval or dismissal sets it, and nobody else's redemption. */
  lemma {:induction false} PasswordIsTheLastRedeemed(s: State, calls: seq<Call>, account: string) returns (i: int)
    requires account in s.users
    ensures -1 <= i < |calls| && account in Run(s, calls).users
    ensures forall k :: i < k < |calls| ==> !IsRedeemedAt(s, calls, k, account)
    ensures i < 0 ==> Run(s, calls).users[account].password == s.users[account].password
    ensures i >= 0 ==> IsRedeemedAt(s, calls, i, account) && Run(s, calls).users[account].password == calls[i].password
  {
    if calls == [] {
      return -1;
    }
    var n := |calls| - 1;
    var before := calls[..n];
    i := PasswordIsTheLastRedeemed(s, before, account);
    forall k | 0 <= k < n ensures IsRedeemedAt(s, before, k, account) == IsRedeemedAt(s, calls, k, account) {
      assert before[..k] == calls[..k];
    }
    OneCallOnUser(Before(s, calls, n), calls[n], account);
    if IsRedeemedAt(s, calls, n, account) {
      i := n;
    }
  }

  lemma OneCallOnUser(s: State, call: Call, account: string)
    requires account in s.users
    ensures var redeems := call.Redeem? && call.account == account && Redeems(s, call.now, account, call.code);
            && account in After(s, call).users
            && After(s, call).users[account]
               == if redeems then s.users[account].(password := call.password, validFrom := Some(call.now), sync := None)
                  else s.users[account]
  {
  }
}
