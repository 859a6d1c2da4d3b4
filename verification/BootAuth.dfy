/** The bootloader's challenge and response, with its retry interval and lockout: src/transport.rs.
  The tag computation is a verdict; times are nanoseconds of a monotone clock. */
module BootAuth {
  import opened Bytes

  const MS: nat := 1_000_000
  const RETRY_INTERVAL: nat := 5_000 * MS
  const LOCKOUT: nat := 60_000 * MS
  const LOCKOUT_AFTER_FAILURES: nat := 3
  const RESPONSE_LEN: nat := 16

  datatype TagVerdict = Unavailable | Mismatch | Match

  datatype Auth = Auth(
    challengePending: bool,
    lastAttemptAt: Option<nat>,
    failedAttempts: nat,
    lockoutUntil: Option<nat>)

  const FRESH := Auth(false, None, 0, None)

  datatype Outcome =
    | Granted
    | ChallengeIssued
    | Locked
    | RateLimited
    | Failed(malformed: bool, cryptoFail: bool)

  function Refreshed(a: Auth, now: nat): Auth {
    if a.lockoutUntil.Some? && now >= a.lockoutUntil.value
    then a.(lockoutUntil := None, failedAttempts := 0, lastAttemptAt := None)
    else a
  }

  predicate IsLocked(a: Auth, now: nat) {
    a.lockoutUntil.Some? && now < a.lockoutUntil.value
  }

  predicate IsRateLimited(a: Auth, now: nat) {
    a.lastAttemptAt.Some? && Max(0, now - a.lastAttemptAt.value) < RETRY_INTERVAL
  }

  function AfterFailure(a: Auth, now: nat): Auth {
    var n := if a.failedAttempts < 255 then a.failedAttempts + 1 else a.failedAttempts;
    if n >= LOCKOUT_AFTER_FAILURES
    then Auth(false, Some(now), n, Some(now + LOCKOUT))
    else a.(lastAttemptAt := Some(now), failedAttempts := n)
  }

  /** EnterBootloader with authentication required: the outcome and the state before a granted session begins. */
  function Attempt(a: Auth, now: nat, payloadLen: nat, verdict: TagVerdict): (Auth, Outcome) {
    var r := Refreshed(a, now);
    if IsLocked(r, now) then (r, Locked)
    else if payloadLen == 0 then (r.(challengePending := true), ChallengeIssued)
    else if IsRateLimited(r, now) then (r, RateLimited)
    else if payloadLen != RESPONSE_LEN then (AfterFailure(r, now), Failed(true, false))
    else
      var taken := r.(challengePending := false);
      if !r.challengePending then (AfterFailure(taken, now), Failed(false, false))
      else if verdict.Unavailable? then (AfterFailure(taken, now), Failed(false, true))
      else if verdict.Mismatch? then (AfterFailure(taken, now), Failed(false, false))
      else (FRESH, Granted)
  }

  class BootAuth {
    var challengePending: bool
    var lastAttemptAt: Option<nat>
    var failedAttempts: nat
    var lockoutUntil: Option<nat>

    constructor ()
      ensures View() == FRESH
    {
      challengePending, lastAttemptAt, failedAttempts, lockoutUntil := false, None, 0, None;
    }

    function View(): Auth
      reads this
    {
      Auth(challengePending, lastAttemptAt, failedAttempts, lockoutUntil)
    }

    method RefreshWindow(now: nat)
      modifies this
      ensures View() == Refreshed(old(View()), now)
    {
      if lockoutUntil.Some? && now >= lockoutUntil.value {
        lockoutUntil := None;
        failedAttempts := 0;
        lastAttemptAt := None;
      }
    }

    method RecordFailure(now: nat)
      modifies this
      ensures View() == AfterFailure(old(View()), now)
    {
      lastAttemptAt := Some(now);
      if failedAttempts < 255 {
        failedAttempts := failedAttempts + 1;
      }
      if failedAttempts >= LOCKOUT_AFTER_FAILURES {
        lockoutUntil := Some(now + LOCKOUT);
        challengePending := false;
      }
    }

    method RecordSuccess()
      modifies this
      ensures View() == FRESH
    {
      lastAttemptAt := None;
      failedAttempts := 0;
      lockoutUntil := None;
      challengePending := false;
    }

    method Try(now: nat, payloadLen: nat, verdict: TagVerdict) returns (outcome: Outcome)
      modifies this
      ensures (View(), outcome) == Attempt(old(View()), now, payloadLen, verdict)
    {
      RefreshWindow(now);
      if lockoutUntil.Some? && now < lockoutUntil.value {
        return Locked;
      }
      if payloadLen == 0 {
        challengePending := true;
        return ChallengeIssued;
      }
      if lastAttemptAt.Some? && Max(0, now - lastAttemptAt.value) < RETRY_INTERVAL {
        return RateLimited;
      }
      if payloadLen != RESPONSE_LEN {
        RecordFailure(now);
        return Failed(true, false);
      }
      var pending := challengePending;
      challengePending := false;
      if !pending {
        RecordFailure(now);
        return Failed(false, false);
      }
      if verdict.Unavailable? {
        RecordFailure(now);
        return Failed(false, true);
      }
      if verdict.Mismatch? {
        RecordFailure(now);
        return Failed(false, false);
      }
      RecordSuccess();
      outcome := Granted;
    }
  }

  // ---- the times of failures ----

  /** The failures since power-up or the last entry, after one more attempt. */
  function WithOutcome(f: seq<nat>, outcome: Outcome, now: nat): seq<nat> {
    match outcome
    case Failed(_, _) => f + [now]
    case Granted => []
    case _ => f
  }

  /** Failures come in threes: five seconds apart within a group, a minute between groups. */
  predicate Spaced(f: seq<nat>) {
    forall i :: 0 < i < |f| ==> f[i] - f[i - 1] >= if i % 3 == 0 then LOCKOUT else RETRY_INTERVAL
  }

  /** How the counters tell where in its group of three the last failure stands, at time `t` or later. */
  predicate Agrees(a: Auth, f: seq<nat>, t: nat) {
    && a.failedAttempts <= 3
    && a.failedAttempts % 3 == |f| % 3
    && (a.failedAttempts > 0 ==> |f| > 0 && a.lastAttemptAt == Some(f[|f| - 1]))
    && (a.failedAttempts == 0 ==> a.lastAttemptAt == None && (|f| > 0 ==> t >= f[|f| - 1] + LOCKOUT))
    && a.lockoutUntil == if a.failedAttempts == 3 then Some(f[|f| - 1] + LOCKOUT) else None
  }

  lemma RefreshKeeps(a: Auth, f: seq<nat>, t: nat, now: nat)
    requires Agrees(a, f, t) && t <= now
    ensures Agrees(Refreshed(a, now), f, now)
    ensures Refreshed(a, now).failedAttempts == 3 ==> IsLocked(Refreshed(a, now), now)
  {
  }

  lemma SpacedAppend(f: seq<nat>, now: nat)
    requires Spaced(f)
    requires |f| > 0 ==> now - f[|f| - 1] >= if |f| % 3 == 0 then LOCKOUT else RETRY_INTERVAL
    ensures Spaced(f + [now])
  {
    var g := f + [now];
    forall i | 0 < i < |g|
      ensures g[i] - g[i - 1] >= if i % 3 == 0 then LOCKOUT else RETRY_INTERVAL
    {
      if i < |f| {
        assert g[i] == f[i] && g[i - 1] == f[i - 1];
      }
    }
  }

  lemma FailureKeeps(a: Auth, f: seq<nat>, now: nat)
    requires Agrees(a, f, now) && Spaced(f) && a.failedAttempts < 3 && !IsRateLimited(a, now)
    ensures Agrees(AfterFailure(a, now), f + [now], now) && Spaced(f + [now])
  {
    SpacedAppend(f, now);
    hide Spaced;
  }

  lemma AttemptKeeps(a: Auth, f: seq<nat>, t: nat, now: nat, payloadLen: nat, verdict: TagVerdict)
    requires Agrees(a, f, t) && Spaced(f) && t <= now
    ensures var (a', o) := Attempt(a, now, payloadLen, verdict);
            Agrees(a', WithOutcome(f, o, now), now) && Spaced(WithOutcome(f, o, now))
  {
    hide Refreshed, AfterFailure, Spaced;
    var r := Refreshed(a, now);
    RefreshKeeps(a, f, t, now);
    if !IsLocked(r, now) && !IsRateLimited(r, now) {
      FailureKeeps(r, f, now);
      FailureKeeps(r.(challengePending := false), f, now);
    }
    NoFailuresAreSpaced();
  }

  lemma NoFailuresAreSpaced()
    ensures Spaced([])
  {
  }

  lemma SpacedSpan(f: seq<nat>, i: nat)
    requires Spaced(f) && i + 3 < |f|
    ensures f[i + 3] - f[i] >= LOCKOUT
  {
    assert (i + 1) % 3 == 0 || (i + 2) % 3 == 0 || (i + 3) % 3 == 0;
    assert f[i + 1] - f[(i + 1) - 1] >= RETRY_INTERVAL && f[i + 2] - f[(i + 2) - 1] >= RETRY_INTERVAL
        && f[i + 3] - f[(i + 3) - 1] >= RETRY_INTERVAL;
  }
}
