/**
 * Per-account polling status of the IMAP reader: a failed poll marks the
 * account inactive and schedules the next attempt after an exponential
 * delay; a successful poll clears the error and the delay; each polling
 * round skips the accounts whose retry time has not come yet.
 *
 * Time is a whole number of seconds; the random jitter added to the retry
 * time is not modelled.
 */
module Backoff {
  import opened Wrappers
  import opened Strings

  /** Upper bound of a delay in seconds (`min(600, ...)`). */
  const CapSeconds: nat := 600

  /** The exponent stops growing after this many failures (`min(retries, 6)`). */
  const MaxExponent: nat := 6

  /** Length limit of the stored error text. */
  const ErrorLimit: nat := 300

  function Pow2(e: nat): (r: nat)
    ensures r >= 1
  {
    if e == 0 then 1 else 2 * Pow2(e - 1)
  }

  lemma {:induction false} Pow2Mono(a: nat, b: nat)
    requires a <= b
    ensures Pow2(a) <= Pow2(b)
    decreases b
  {
    if a < b {
      Pow2Mono(a, b - 1);
    }
  }

  function Min(a: nat, b: nat): nat { if a < b then a else b }

  /** `min(600, 2 ** min(retries, 6))`: the wait in seconds after the `retries`-th failure in a row. */
  function Delay(retries: nat): nat {
    Min(CapSeconds, Pow2(Min(retries, MaxExponent)))
  }

  /** The delay grows with the failure count, doubles from 2 up to 64 and then stays there: the 600-second cap is never reached. */
  lemma DelayBounds(retries: nat)
    ensures 1 <= Delay(retries) <= 64 < CapSeconds
    ensures retries >= 1 ==> Delay(retries) >= 2
    ensures retries < MaxExponent ==> Delay(retries + 1) == 2 * Delay(retries)
    ensures retries >= MaxExponent ==> Delay(retries) == 64
  {
    assert Pow2(6) == 64;
    Pow2Mono(Min(retries, MaxExponent), 6);
    if retries >= 1 {
      Pow2Mono(1, Min(retries, MaxExponent));
    }
  }

  lemma DelayMonotone(a: nat, b: nat)
    requires a <= b
    ensures Delay(a) <= Delay(b)
  {
    Pow2Mono(Min(a, MaxExponent), Min(b, MaxExponent));
  }

  // ---------------------------------------------------------------------
  // One account's status
  // ---------------------------------------------------------------------

  /**
   * The status record of one account: `active`, `last_ok` (the time of the
   * last success as text, or "" after a failure), `last_err`, `retries`
   * and `retry_at` (0 when no retry is pending).
   */
  datatype AccountStatus = AccountStatus(active: bool, lastOk: string, lastErr: Option<string>, retries: nat, retryAt: nat)

  /** `st.get("retries", 0)` on the possibly missing record. */
  function StoredRetries(accounts: map<string, AccountStatus>, email: string): nat {
    if email in accounts then accounts[email].retries else 0
  }

  /** `st.get("retry_at", 0)` on the possibly missing record. */
  function StoredRetryAt(accounts: map<string, AccountStatus>, email: string): nat {
    if email in accounts then accounts[email].retryAt else 0
  }

  /** `s[:n]`. */
  function Truncate(s: string, n: nat): (r: string)
    ensures |r| == Min(|s|, n) && r == s[..|r|]
  {
    if |s| <= n then s else s[..n]
  }

  /** The record after a successful poll at `now`. */
  function Succeeded(now: nat): AccountStatus {
    AccountStatus(true, NatToString(now), None, 0, 0)
  }

  /** The record after a failed poll at `now`, given the failure count stored before it. */
  function Failed(storedRetries: nat, now: nat, errType: string, errMsg: string): AccountStatus {
    var retries := storedRetries + 1;
    AccountStatus(false, "", Some(Truncate(errType + ": " + errMsg, ErrorLimit)), retries, now + Delay(retries))
  }

  /** `retry_at and retry_at > now`: the account is still waiting. */
  predicate BackingOff(retryAt: nat, now: nat) {
    retryAt != 0 && retryAt > now
  }

  /**
   * The shape of a record last written by a poll: an active account has no
   * error and no pending retry, an inactive one has both.
   */
  predicate Consistent(st: AccountStatus) {
    (st.active <==> st.retries == 0) &&
    (st.retries == 0 <==> st.retryAt == 0) &&
    (st.active <==> st.lastErr.None?) &&
    (!st.active ==> st.lastOk == [])
  }

  /**
   * What every record of the table satisfies, whoever wrote it last: a
   * pending retry, a failure count and an error go together, an error
   * comes without a success time, and an active account has a success
   * time and no failures.  Switching an account off keeps this, though it
   * breaks `Consistent`.
   */
  predicate Coherent(st: AccountStatus) {
    (st.retries == 0 <==> st.retryAt == 0) &&
    (st.retries == 0 <==> st.lastErr.None?) &&
    (st.lastErr.Some? ==> st.lastOk == []) &&
    (st.active ==> st.retries == 0 && st.lastOk != [])
  }

  /** `st["active"] = False` on an existing record. */
  function SwitchedOff(st: AccountStatus): (r: AccountStatus)
    ensures !r.active && r.retries == st.retries && r.retryAt == st.retryAt
    ensures r.lastOk == st.lastOk && r.lastErr == st.lastErr
    ensures Coherent(st) ==> Coherent(r)
  {
    st.(active := false)
  }

  /** `setdefault(email, {}).update({"active": False})`: the other fields stay, and a new record has no failures. */
  function Deactivated(accounts: map<string, AccountStatus>, email: string): (st: AccountStatus)
    ensures !st.active
    ensures st.retries == StoredRetries(accounts, email) && st.retryAt == StoredRetryAt(accounts, email)
    ensures email in accounts ==> st.lastOk == accounts[email].lastOk && st.lastErr == accounts[email].lastErr
    ensures email in accounts && Coherent(accounts[email]) ==> Coherent(st)
    ensures email !in accounts ==> Coherent(st)
  {
    if email in accounts then SwitchedOff(accounts[email])
    else AccountStatus(false, "", None, 0, 0)
  }

  /** A success leaves a consistent record that is never backing off. */
  lemma SuccessResets(now: nat, t: nat)
    ensures Consistent(Succeeded(now)) && Coherent(Succeeded(now))
    ensures Succeeded(now).retries == 0 && !BackingOff(Succeeded(now).retryAt, t)
  {
  }

  /** A failure leaves a consistent record, counts one more failure, and blocks the account until exactly `now + Delay(retries)`. */
  lemma FailureBacksOff(storedRetries: nat, now: nat, errType: string, errMsg: string, t: nat)
    ensures var st := Failed(storedRetries, now, errType, errMsg);
            Consistent(st) && Coherent(st) && st.retries == storedRetries + 1 >= 1 &&
            now < st.retryAt <= now + 64 &&
            |st.lastErr.value| <= ErrorLimit &&
            (BackingOff(st.retryAt, t) <==> t < now + Delay(st.retries))
  {
    DelayBounds(storedRetries + 1);
  }

  // ---------------------------------------------------------------------
  // A history of poll outcomes
  // ---------------------------------------------------------------------

  datatype Outcome = Success(at: nat) | Failure(at: nat, errType: string, errMsg: string)

  /** The record after one more outcome. */
  function Apply(st: Option<AccountStatus>, o: Outcome): AccountStatus {
    match o
    case Success(now) => Succeeded(now)
    case Failure(now, t, m) => Failed(match st case None => 0 case Some(s) => s.retries, now, t, m)
  }

  /** The record after a history of outcomes, oldest first. */
  function Replay(st: Option<AccountStatus>, os: seq<Outcome>): Option<AccountStatus>
    decreases |os|
  {
    if os == [] then st else Some(Apply(Replay(st, os[..|os| - 1]), os[|os| - 1]))
  }

  /** The number of failures since the last success. */
  function TrailingFailures(os: seq<Outcome>): nat
    decreases |os|
  {
    if os == [] || os[|os| - 1].Success? then 0 else 1 + TrailingFailures(os[..|os| - 1])
  }

  function RetriesOf(st: Option<AccountStatus>): nat {
    match st case None => 0 case Some(s) => s.retries
  }

  /**
   * The stored failure count is the number of failures since the last
   * success (plus the starting count if there was none), so the delay
   * after `k` failures in a row is `Delay(k)`.
   */
  lemma {:induction false} ReplayRetries(st: Option<AccountStatus>, os: seq<Outcome>)
    ensures (exists k :: 0 <= k < |os| && os[k].Success?) ==> RetriesOf(Replay(st, os)) == TrailingFailures(os)
    ensures (forall k :: 0 <= k < |os| ==> os[k].Failure?) ==> RetriesOf(Replay(st, os)) == RetriesOf(st) + |os|
    decreases |os|
  {
    if os != [] {
      var init := os[..|os| - 1];
      ReplayRetries(st, init);
      assert forall k :: 0 <= k < |init| ==> init[k] == os[k];
      if os[|os| - 1].Failure? {
        assert (exists k :: 0 <= k < |os| && os[k].Success?) ==> exists k :: 0 <= k < |init| && init[k].Success?;
      }
    }
  }

  /** Every record a history produces is consistent. */
  lemma ReplayConsistent(st: Option<AccountStatus>, os: seq<Outcome>)
    requires os != []
    ensures Replay(st, os).Some? && Consistent(Replay(st, os).value)
  {
    var last := os[|os| - 1];
    var before := RetriesOf(Replay(st, os[..|os| - 1]));
    match last
    case Success(now) =>
      SuccessResets(now, 0);
    case Failure(now, t, m) =>
      FailureBacksOff(before, now, t, m, 0);
  }

  // ---------------------------------------------------------------------
  // The shared status table and the polling round
  // ---------------------------------------------------------------------

  /** The accounts `imap_loop` polls this round: those not backing off, in their original order. */
  function Eligible(accounts: map<string, AccountStatus>, emails: seq<string>, now: nat): (r: seq<string>)
    decreases |emails|
  {
    if emails == [] then []
    else
      var e := emails[|emails| - 1];
      Eligible(accounts, emails[..|emails| - 1], now) +
        (if BackingOff(StoredRetryAt(accounts, e), now) then [] else [e])
  }

  /** An account is polled exactly when it is listed and not backing off. */
  lemma {:induction false} EligibleMembers(accounts: map<string, AccountStatus>, emails: seq<string>, now: nat, e: string)
    ensures e in Eligible(accounts, emails, now) <==> e in emails && !BackingOff(StoredRetryAt(accounts, e), now)
    decreases |emails|
  {
    if emails != [] {
      var init := emails[..|emails| - 1];
      EligibleMembers(accounts, init, now, e);
      assert emails == init + [emails[|emails| - 1]];
    }
  }

  /** Filtering a list is filtering its parts: the kept accounts stay in their order. */
  lemma {:induction false} EligibleAppend(accounts: map<string, AccountStatus>, a: seq<string>, b: seq<string>, now: nat)
    ensures Eligible(accounts, a + b, now) == Eligible(accounts, a, now) + Eligible(accounts, b, now)
    decreases |b|
  {
    if b == [] {
      assert a + b == a;
    } else {
      var binit := b[..|b| - 1];
      assert (a + b)[..|a + b| - 1] == a + binit;
      EligibleAppend(accounts, a, binit, now);
    }
  }

  /** With no account backing off, every account is polled. */
  lemma {:induction false} EligibleAll(accounts: map<string, AccountStatus>, emails: seq<string>, now: nat)
    requires forall k :: 0 <= k < |emails| ==> !BackingOff(StoredRetryAt(accounts, emails[k]), now)
    ensures Eligible(accounts, emails, now) == emails
    decreases |emails|
  {
    if emails != [] {
      var init := emails[..|emails| - 1];
      assert forall k :: 0 <= k < |init| ==> init[k] == emails[k];
      EligibleAll(accounts, init, now);
    }
  }

  /** After a failure at `now`, the next rounds skip the account until `now + Delay(retries)` and poll it from then on. */
  lemma FailedAccountSkipped(accounts: map<string, AccountStatus>, emails: seq<string>, email: string,
                             now: nat, errType: string, errMsg: string, t: nat)
    requires email in emails
    ensures var st := Failed(StoredRetries(accounts, email), now, errType, errMsg);
            email in Eligible(accounts[email := st], emails, t) <==> t >= now + Delay(st.retries)
  {
    var st := Failed(StoredRetries(accounts, email), now, errType, errMsg);
    FailureBacksOff(StoredRetries(accounts, email), now, errType, errMsg, t);
    EligibleMembers(accounts[email := st], emails, t, email);
  }

  /** After a success the account is polled in every later round. */
  lemma SucceededAccountPolled(accounts: map<string, AccountStatus>, emails: seq<string>, email: string, now: nat, t: nat)
    requires email in emails
    ensures email in Eligible(accounts[email := Succeeded(now)], emails, t)
  {
    EligibleMembers(accounts[email := Succeeded(now)], emails, t, email);
  }

  /** Two tables with the same retry times select the same accounts. */
  lemma {:induction false} EligibleSameRetryAt(a1: map<string, AccountStatus>, a2: map<string, AccountStatus>,
                                               emails: seq<string>, now: nat)
    requires forall e :: StoredRetryAt(a1, e) == StoredRetryAt(a2, e)
    ensures Eligible(a1, emails, now) == Eligible(a2, emails, now)
    decreases |emails|
  {
    if emails != [] {
      EligibleSameRetryAt(a1, a2, emails[..|emails| - 1], now);
      var e := emails[|emails| - 1];
      assert StoredRetryAt(a1, e) == StoredRetryAt(a2, e);
    }
  }

  /** Switching an account off outside the poll does not change which accounts the next round polls. */
  lemma DeactivationKeepsSelection(accounts: map<string, AccountStatus>, email: string, emails: seq<string>, now: nat)
    ensures Eligible(accounts[email := Deactivated(accounts, email)], emails, now) == Eligible(accounts, emails, now)
  {
    var a2 := accounts[email := Deactivated(accounts, email)];
    forall e ensures StoredRetryAt(a2, e) == StoredRetryAt(accounts, e) {
    }
    EligibleSameRetryAt(a2, accounts, emails, now);
  }

  /** Switching every account off (`/stop`) does not change which accounts a later round polls. */
  lemma DeactivateAllKeepsSelection(accounts: map<string, AccountStatus>, emails: seq<string>, now: nat)
    ensures var a2 := map e | e in accounts :: Deactivated(accounts, e);
            Eligible(a2, emails, now) == Eligible(accounts, emails, now)
  {
    var a2 := map e | e in accounts :: Deactivated(accounts, e);
    forall e ensures StoredRetryAt(a2, e) == StoredRetryAt(accounts, e) {
    }
    EligibleSameRetryAt(a2, accounts, emails, now);
  }

  /** In a coherent record an active account has no pending retry, so it is polled in every round. */
  lemma ActiveAccountPolled(accounts: map<string, AccountStatus>, emails: seq<string>, now: nat, e: string)
    requires e in accounts && Coherent(accounts[e]) && accounts[e].active
    requires e in emails
    ensures e in Eligible(accounts, emails, now)
  {
    EligibleMembers(accounts, emails, now, e);
  }

  /** An account whose record was dropped starts afresh: listed again, it is polled at once. */
  lemma ForgottenAccountPolled(accounts: map<string, AccountStatus>, gone: set<string>, emails: seq<string>, now: nat, e: string)
    requires e in gone && e in emails
    ensures e in Eligible(accounts - gone, emails, now)
  {
    EligibleMembers(accounts - gone, emails, now, e);
  }

  /** The status table `IMAP_STATUS[user]["accounts"]`, updated in place by each poll. */
  class PollStatus {
    var accounts: map<string, AccountStatus>

    predicate Valid()
      reads this
    {
      forall e :: e in accounts ==> Coherent(accounts[e])
    }

    constructor ()
      ensures accounts == map[] && Valid()
    {
      accounts := map[];
    }

    /** The success branch of `fetch_and_post_new_mails`. */
    method RecordSuccess(email: string, now: nat)
      requires Valid()
      modifies this
      ensures accounts == old(accounts)[email := Succeeded(now)]
      ensures Valid()
    {
      accounts := accounts[email := Succeeded(now)];
    }

    /** The failure branch of `fetch_and_post_new_mails`. */
    method RecordFailure(email: string, now: nat, errType: string, errMsg: string)
      requires Valid()
      modifies this
      ensures accounts == old(accounts)[email := Failed(StoredRetries(old(accounts), email), now, errType, errMsg)]
      ensures Valid()
    {
      var retries := StoredRetries(accounts, email) + 1;
      var st := AccountStatus(false, "", Some(Truncate(errType + ": " + errMsg, ErrorLimit)), retries, now + Delay(retries));
      FailureBacksOff(retries - 1, now, errType, errMsg, now);
      accounts := accounts[email := st];
    }

    /** An account switched off outside the poll: when added, stopped alone, or stopped with all the user's accounts. */
    method Deactivate(email: string)
      requires Valid()
      modifies this
      ensures accounts == old(accounts)[email := Deactivated(old(accounts), email)]
      ensures Valid()
    {
      accounts := accounts[email := Deactivated(accounts, email)];
    }

    /** `/stop`: every record of the table is switched off, one at a time. */
    method DeactivateAll()
      requires Valid()
      modifies this
      ensures accounts == map e | e in old(accounts) :: Deactivated(old(accounts), e)
      ensures Valid()
    {
      var before := accounts;
      var m := accounts;
      var rest := m.Keys;
      while rest != {}
        invariant rest <= before.Keys && m.Keys == before.Keys
        invariant forall e :: e in before && e !in rest ==> m[e] == SwitchedOff(before[e])
        invariant forall e :: e in rest ==> m[e] == before[e]
        decreases rest
      {
        var e :| e in rest;
        m := m[e := SwitchedOff(m[e])];
        rest := rest - {e};
      }
      ghost var want := map e | e in before :: Deactivated(before, e);
      assert forall e :: e in want ==> m[e] == want[e];
      assert m == want;
      accounts := m;
    }

    /** Deleting accounts: `pop(em, None)` for each deleted address, absent ones included. */
    method Forget(emails: seq<string>)
      requires Valid()
      modifies this
      ensures accounts == old(accounts) - (set e | e in emails)
      ensures Valid()
    {
      var m := accounts;
      for i := 0 to |emails|
        invariant m == accounts - (set k | 0 <= k < i :: emails[k])
      {
        assert (set k | 0 <= k < i + 1 :: emails[k]) == (set k | 0 <= k < i :: emails[k]) + {emails[i]};
        m := m - {emails[i]};
      }
      assert (set k | 0 <= k < |emails| :: emails[k]) == (set e | e in emails);
      accounts := m;
    }

    /** The selection loop of `imap_loop`: skip the accounts still backing off. */
    method SelectEligible(emails: seq<string>, now: nat) returns (toPoll: seq<string>)
      ensures toPoll == Eligible(accounts, emails, now)
      ensures Valid() ==> forall e :: e in emails && e in accounts && accounts[e].active ==> e in toPoll
    {
      toPoll := [];
      var i := 0;
      while i < |emails|
        invariant 0 <= i <= |emails|
        invariant toPoll == Eligible(accounts, emails[..i], now)
      {
        var e := emails[i];
        var retryAt := if e in accounts then accounts[e].retryAt else 0;
        assert emails[..i + 1][..i] == emails[..i];
        if !(retryAt != 0 && retryAt > now) {
          toPoll := toPoll + [e];
        }
        i := i + 1;
      }
      assert emails[..i] == emails;
      if Valid() {
        forall e | e in emails && e in accounts && accounts[e].active
          ensures e in toPoll
        {
          ActiveAccountPolled(accounts, emails, now, e);
        }
      }
    }
  }
}
