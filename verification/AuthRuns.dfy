/** The bootloader's challenge, retry interval and lockout over every run of packets, clock readings and reboots. All of
  it lives in fields that a reboot clears: src/transport.rs. */
module AuthRuns {
  import opened Bytes
  import opened BootAuth
  import opened FlashUpdate
  import opened FlashRuns

  /** The clock of the commands never goes back. */
  ghost predicate MonotoneClock(es: seq<Event>) {
    forall i, j :: 0 <= i < j < |es| && es[i].Packet? && es[j].Packet? ==> es[i].cmdNow <= es[j].cmdNow
  }

  predicate IsAttempt(cfg: Config, e: Event) {
    cfg.authRequired && e.Packet? && e.cmd.EnterBootloader?
  }

  /** What became of the `k`-th event as an attempt to enter the bootloader. */
  function OutcomeAt(cfg: Config, es: seq<Event>, k: nat): Option<Outcome>
    requires k < |es|
  {
    if IsAttempt(cfg, es[k])
    then Some(Attempt(At(cfg, es, k).n.auth, es[k].cmdNow, es[k].cmd.payloadLen, es[k].cmd.response).1)
    else None
  }

  predicate FailsAt(cfg: Config, es: seq<Event>, k: nat)
    requires k < |es|
  {
    OutcomeAt(cfg, es, k).Some? && OutcomeAt(cfg, es, k).value.Failed?
  }

  /** An event after which failures are counted afresh. */
  predicate StartsAfresh(cfg: Config, es: seq<Event>, k: nat)
    requires k < |es|
  {
    es[k].Reboot? || OutcomeAt(cfg, es, k) == Some(Granted)
  }

  /** The times of the failures among the first `k` events since the last reboot or granted entry. */
  function Failures(cfg: Config, es: seq<Event>, k: nat): seq<nat>
    requires k <= |es|
  {
    if k == 0 then []
    else if es[k - 1].Reboot? then []
    else
      match OutcomeAt(cfg, es, k - 1)
      case None => Failures(cfg, es, k - 1)
      case Some(outcome) => WithOutcome(Failures(cfg, es, k - 1), outcome, es[k - 1].cmdNow)
  }

  function Latest(es: seq<Event>, k: nat): nat
    requires k <= |es|
  {
    if k == 0 then 0 else if es[k - 1].Packet? then es[k - 1].cmdNow else Latest(es, k - 1)
  }

  // ---- the fields agree with the failures ----

  /** The reply tells the outcome. */
  lemma OutcomeIsAnswered(cfg: Config, es: seq<Event>, k: nat)
    requires k < |es| && IsAttempt(cfg, es[k])
    ensures ReplyTo(cfg, At(cfg, es, k), es[k]) == OutcomeReply(OutcomeAt(cfg, es, k).value)
  {
    hide Attempt, At;
  }

  lemma AuthStep(cfg: Config, w: World, e: Event)
    ensures var a := Step(cfg, w, e).n.auth;
            if e.Reboot? then a == FRESH
            else if IsAttempt(cfg, e) then
              a == Attempt(w.n.auth, e.cmdNow, e.cmd.payloadLen, e.cmd.response).0
            else if e.cmd.EnterBootloader? then a == FRESH
            else if e.cmd.FlashComplete? && ReplyTo(cfg, w, e) == Ack then a == w.n.auth.(challengePending := false)
            else a == w.n.auth
  {
    hide Crc.Crc32, Reg32Val, U32Val, Refreshed, AfterFailure, VerifyRefusal, BlockRefusal, ResumeRefusal, Recorded;
  }

  lemma LatestIsBehind(es: seq<Event>, k: nat)
    requires MonotoneClock(es) && k < |es| && es[k].Packet?
    ensures Latest(es, k) <= es[k].cmdNow
  {
    LatestIsSome(es, k);
  }

  lemma {:induction false} LatestIsSome(es: seq<Event>, k: nat)
    requires k <= |es|
    ensures Latest(es, k) == 0 || exists i :: 0 <= i < k && es[i].Packet? && es[i].cmdNow == Latest(es, k)
    decreases k
  {
    if k == 0 {
    } else if !es[k - 1].Packet? {
      LatestIsSome(es, k - 1);
    }
  }

  /** Over any run, failures since power-up or the last entry come in threes, five seconds apart within a group and a
    minute between groups, and the fields say where in its group the last one stands. */
  lemma {:induction false} FailuresAreSpaced(cfg: Config, es: seq<Event>, k: nat)
    requires k <= |es| && MonotoneClock(es)
    ensures Spaced(Failures(cfg, es, k))
    ensures Agrees(At(cfg, es, k).n.auth, Failures(cfg, es, k), Latest(es, k))
    decreases k
  {
    hide Step, Attempt, Spaced, Agrees;
    if k == 0 {
      FreshAgrees(0);
    } else {
      var w, e := At(cfg, es, k - 1), es[k - 1];
      FailuresAreSpaced(cfg, es, k - 1);
      AuthStep(cfg, w, e);
      FreshAgrees(Latest(es, k));
      if e.Packet? {
        LatestIsBehind(es, k - 1);
        if IsAttempt(cfg, e) {
          AttemptKeeps(w.n.auth, Failures(cfg, es, k - 1), Latest(es, k - 1),
                       e.cmdNow, e.cmd.payloadLen, e.cmd.response);
        } else {
          NoAuthNoFailures(cfg, es, k - 1);
          StillAgrees(w.n.auth, Failures(cfg, es, k - 1), Latest(es, k - 1), Latest(es, k));
        }
      }
    }
  }

  lemma FreshAgrees(t: nat)
    ensures Spaced([]) && Agrees(FRESH, [], t)
  {
  }

  lemma StillAgrees(a: Auth, f: seq<nat>, t: nat, now: nat)
    requires Agrees(a, f, t) && t <= now
    ensures Agrees(a, f, now) && Agrees(a.(challengePending := false), f, now)
  {
  }

  lemma {:induction false} NoAuthNoFailures(cfg: Config, es: seq<Event>, k: nat)
    requires k <= |es|
    ensures !cfg.authRequired ==> Failures(cfg, es, k) == []
    decreases k
  {
    hide Attempt;
    if k == 0 {
    } else {
      NoAuthNoFailures(cfg, es, k - 1);
    }
  }

  // ---- exactly when a response is weighed ----

  /** How long a host has to wait after the last of the failures `f` before a response counts. */
  function Wait(f: seq<nat>): nat {
    if f == [] then 0 else if |f| % 3 == 0 then LOCKOUT else RETRY_INTERVAL
  }

  predicate Due(f: seq<nat>, now: nat) {
    f == [] || now >= f[|f| - 1] + Wait(f)
  }

  lemma DueExactly(a: Auth, f: seq<nat>, t: nat, now: nat, payloadLen: nat, verdict: TagVerdict)
    requires Agrees(a, f, t) && t <= now && payloadLen > 0
    ensures var outcome := Attempt(a, now, payloadLen, verdict).1;
            && (outcome.Granted? || outcome.Failed? <==> Due(f, now))
            && (outcome.Locked? <==> !Due(f, now) && |f| % 3 == 0)
            && (outcome.Granted? <==> Due(f, now) && payloadLen == RESPONSE_LEN && verdict.Match? && a.challengePending)
  {
  }

  /** A response is weighed, and not turned away by the retry interval or the lockout, exactly when five seconds have
    passed since the last failure of this power-up, or a minute if it was the third of its group. */
  lemma ResponseIsWeighedExactly(cfg: Config, es: seq<Event>, k: nat)
    requires k < |es| && MonotoneClock(es) && IsAttempt(cfg, es[k]) && es[k].cmd.payloadLen > 0
    ensures var outcome := OutcomeAt(cfg, es, k).value; var f := Failures(cfg, es, k);
            && (outcome.Granted? || outcome.Failed? <==> Due(f, es[k].cmdNow))
            && (outcome.Locked? <==> !Due(f, es[k].cmdNow) && |f| % 3 == 0)
  {
    hide Attempt, Agrees, Due;
    FailuresAreSpaced(cfg, es, k);
    LatestIsBehind(es, k);
    DueExactly(At(cfg, es, k).n.auth, Failures(cfg, es, k), Latest(es, k),
               es[k].cmdNow, es[k].cmd.payloadLen, es[k].cmd.response);
  }

  // ---- four failures ----

  ghost predicate NoneStartsAfresh(cfg: Config, es: seq<Event>, i: nat, k: nat)
    requires k <= |es|
  {
    forall j :: i <= j < k ==> !StartsAfresh(cfg, es, j)
  }

  lemma OneEventMore(cfg: Config, es: seq<Event>, k: nat)
    requires k < |es| && !StartsAfresh(cfg, es, k)
    ensures Failures(cfg, es, k + 1)
         == if FailsAt(cfg, es, k) then Failures(cfg, es, k) + [es[k].cmdNow] else Failures(cfg, es, k)
  {
    hide Attempt, At;
  }

  lemma {:induction false} FailuresGrow(cfg: Config, es: seq<Event>, i: nat, k: nat)
    requires i <= k <= |es| && NoneStartsAfresh(cfg, es, i, k)
    ensures Failures(cfg, es, i) <= Failures(cfg, es, k)
    decreases k
  {
    hide Failures, FailsAt, StartsAfresh;
    if k == i {
    } else {
      FailuresGrow(cfg, es, i, k - 1);
      OneEventMore(cfg, es, k - 1);
    }
  }

  /** Four failures, with no reboot and no entry between them, take at least a minute, whatever else is sent. */
  lemma FourFailuresTakeAMinute(cfg: Config, es: seq<Event>, i: nat, j: nat, l: nat, m: nat)
    requires i < j < l < m < |es| && MonotoneClock(es)
    requires FailsAt(cfg, es, i) && FailsAt(cfg, es, j) && FailsAt(cfg, es, l) && FailsAt(cfg, es, m)
    requires NoneStartsAfresh(cfg, es, i, m)
    ensures es[m].cmdNow - es[i].cmdNow >= LOCKOUT
  {
    hide Failures, Attempt, At, Spaced, Agrees;
    var f := Failures(cfg, es, m + 1);
    OneEventMore(cfg, es, i);
    OneEventMore(cfg, es, j);
    OneEventMore(cfg, es, l);
    OneEventMore(cfg, es, m);
    FailuresGrow(cfg, es, i + 1, j);
    FailuresGrow(cfg, es, j + 1, l);
    FailuresGrow(cfg, es, l + 1, m);
    var n := |Failures(cfg, es, i)|;
    assert f[n] == es[i].cmdNow && f[|f| - 1] == es[m].cmdNow && n + 3 < |f|;
    FailuresAreSpaced(cfg, es, m + 1);
    SpacedSpan(f, n);
    SpacedGrows(f, n + 3, |f| - 1);
  }

  lemma {:induction false} SpacedGrows(f: seq<nat>, i: nat, j: nat)
    requires Spaced(f) && i <= j < |f|
    ensures f[i] <= f[j]
    decreases j
  {
    if i == j {
    } else {
      SpacedGrows(f, i, j - 1);
    }
  }

  // ---- and a reboot between them ----

  ghost predicate RebootBetween(es: seq<Event>, i: nat, j: nat)
    requires i <= j <= |es|
  {
    exists k :: i < k < j && es[k].Reboot?
  }

  /** Which of the three gaps between four failures have a reboot. */
  datatype Gaps = Gaps(first: bool, second: bool, third: bool)

  /** Four failures of a run, with a reboot in just those gaps, and no entry. */
  ghost predicate FourFailures(cfg: Config, es: seq<Event>, i: nat, j: nat, l: nat, m: nat, reboots: Gaps) {
    && i < j < l < m < |es|
    && MonotoneClock(es)
    && FailsAt(cfg, es, i) && FailsAt(cfg, es, j) && FailsAt(cfg, es, l) && FailsAt(cfg, es, m)
    && (reboots.first <==> RebootBetween(es, i, j))
    && (reboots.second <==> RebootBetween(es, j, l))
    && (reboots.third <==> RebootBetween(es, l, m))
    && (forall k :: i <= k < m ==> OutcomeAt(cfg, es, k) != Some(Granted))
  }

  function TimeOf(e: Event): nat {
    if e.Packet? then e.cmdNow else 0
  }

  ghost predicate MinuteIsKept(cfg: Config, reboots: Gaps) {
    forall es: seq<Event>, i: nat, j: nat, l: nat, m: nat ::
      FourFailures(cfg, es, i, j, l, m, reboots) ==> TimeOf(es[m]) - TimeOf(es[i]) >= LOCKOUT
  }

  /** Four failures with no entry between them are sure to take a minute if and only if no reboot lies between them: a
    reboot in any of the gaps clears the lockout, and 15 seconds will do. */
  lemma MinuteIsKeptExactly(cfg: Config, reboots: Gaps)
    requires cfg.authRequired
    ensures MinuteIsKept(cfg, reboots) <==> reboots == Gaps(false, false, false)
  {
    if reboots == Gaps(false, false, false) {
      hide FailsAt, RebootBetween, MonotoneClock, OutcomeAt;
      forall es: seq<Event>, i: nat, j: nat, l: nat, m: nat | FourFailures(cfg, es, i, j, l, m, reboots)
        ensures TimeOf(es[m]) - TimeOf(es[i]) >= LOCKOUT
      {
        NoRebootBetween(cfg, es, i, j, l, m);
      }
    } else {
      hide FourFailures, FailsAt;
      RebootForgetsTheLockout(cfg, reboots);
    }
  }

  lemma NoRebootBetween(cfg: Config, es: seq<Event>, i: nat, j: nat, l: nat, m: nat)
    requires FourFailures(cfg, es, i, j, l, m, Gaps(false, false, false))
    ensures TimeOf(es[m]) - TimeOf(es[i]) >= LOCKOUT
  {
    FailureIsPacket(cfg, es, i);
    FailureIsPacket(cfg, es, j);
    FailureIsPacket(cfg, es, l);
    FailureIsPacket(cfg, es, m);
    hide FailsAt, MonotoneClock, OutcomeAt;
    forall k | i <= k < m
      ensures !StartsAfresh(cfg, es, k)
    {
      assert k == i || i < k < j || k == j || j < k < l || k == l || l < k < m;
    }
    FourFailuresTakeAMinute(cfg, es, i, j, l, m);
  }

  lemma FailureIsPacket(cfg: Config, es: seq<Event>, k: nat)
    requires k < |es| && FailsAt(cfg, es, k)
    ensures es[k].Packet?
  {
    hide Attempt;
  }

  /** A response of the wrong length. */
  function Guess(n: nat): Event {
    Packet(EnterBootloader(1, Mismatch), n * RETRY_INTERVAL, n * RETRY_INTERVAL)
  }

  function Between(n: nat, reboot: bool): Event {
    if reboot then Reboot else Packet(Other, n * RETRY_INTERVAL, n * RETRY_INTERVAL)
  }

  /** Four guesses five seconds apart, with power lost where `reboots` says. */
  function Guesses(reboots: Gaps): (es: seq<Event>)
    ensures |es| == 7 && MonotoneClock(es)
  {
    [Guess(0), Between(0, reboots.first), Guess(1), Between(1, reboots.second), Guess(2), Between(2, reboots.third),
     Guess(3)]
  }

  lemma GuessAt(cfg: Config, es: seq<Event>, k: nat, n: nat)
    requires cfg.authRequired && MonotoneClock(es) && k < |es| && es[k] == Guess(n)
    requires Due(Failures(cfg, es, k), n * RETRY_INTERVAL)
    ensures FailsAt(cfg, es, k) && Failures(cfg, es, k + 1) == Failures(cfg, es, k) + [n * RETRY_INTERVAL]
    ensures OutcomeAt(cfg, es, k) != Some(Granted)
  {
    hide At, Due;
    ResponseIsWeighedExactly(cfg, es, k);
  }

  lemma BetweenAt(cfg: Config, es: seq<Event>, k: nat, n: nat, reboot: bool)
    requires k < |es| && es[k] == Between(n, reboot)
    ensures Failures(cfg, es, k + 1) == if reboot then [] else Failures(cfg, es, k)
    ensures OutcomeAt(cfg, es, k) != Some(Granted)
  {
    hide At;
  }

  lemma GuessesFail(cfg: Config, es: seq<Event>, reboots: Gaps)
    requires cfg.authRequired && es == Guesses(reboots) && reboots != Gaps(false, false, false)
    ensures FailsAt(cfg, es, 0) && FailsAt(cfg, es, 2) && FailsAt(cfg, es, 4) && FailsAt(cfg, es, 6)
    ensures forall k :: 0 <= k < 6 ==> OutcomeAt(cfg, es, k) != Some(Granted)
  {
    hide FailsAt, OutcomeAt, MonotoneClock, Failures;
    assert Failures(cfg, es, 0) == [] by { NoFailuresYet(cfg, es); }
    GuessAt(cfg, es, 0, 0);
    BetweenAt(cfg, es, 1, 0, reboots.first);
    GuessAt(cfg, es, 2, 1);
    BetweenAt(cfg, es, 3, 1, reboots.second);
    GuessAt(cfg, es, 4, 2);
    BetweenAt(cfg, es, 5, 2, reboots.third);
    GuessAt(cfg, es, 6, 3);
  }

  /** A run for every placement of at least one reboot: four failures within 15 seconds. */
  lemma RebootForgetsTheLockout(cfg: Config, reboots: Gaps)
    requires cfg.authRequired && reboots != Gaps(false, false, false)
    ensures FourFailures(cfg, Guesses(reboots), 0, 2, 4, 6, reboots)
    ensures TimeOf(Guesses(reboots)[6]) - TimeOf(Guesses(reboots)[0]) == 3 * RETRY_INTERVAL < LOCKOUT
  {
    hide FailsAt, OutcomeAt;
    var es := Guesses(reboots);
    GuessesFail(cfg, es, reboots);
    assert RebootBetween(es, 0, 2) <==> es[1].Reboot?;
    assert RebootBetween(es, 2, 4) <==> es[3].Reboot?;
    assert RebootBetween(es, 4, 6) <==> es[5].Reboot?;
  }

  lemma NoFailuresYet(cfg: Config, es: seq<Event>)
    ensures Failures(cfg, es, 0) == []
  {
  }

  // ---- the challenge ----

  predicate IssuesAt(cfg: Config, es: seq<Event>, k: nat)
    requires k < |es|
  {
    OutcomeAt(cfg, es, k) == Some(ChallengeIssued)
  }

  /** An event after which a challenge issued before it no longer stands: a reboot, an accepted completion of a
    transfer, any weighed response of the right length, and a malformed one that brings on the lockout. */
  predicate UsesUpAt(cfg: Config, es: seq<Event>, k: nat)
    requires k < |es|
  {
    || es[k].Reboot?
    || (es[k].cmd.FlashComplete? && ReplyTo(cfg, At(cfg, es, k), es[k]) == Ack)
    || (match OutcomeAt(cfg, es, k)
        case Some(Granted) => true
        case Some(Failed(malformed, _)) => !malformed || |Failures(cfg, es, k)| % 3 == 2
        case _ => false)
  }

  lemma PendingStep(a: Auth, f: seq<nat>, t: nat, now: nat, payloadLen: nat, verdict: TagVerdict)
    requires Agrees(a, f, t) && t <= now
    ensures var (b, outcome) := Attempt(a, now, payloadLen, verdict);
            b.challengePending <==>
              || outcome.ChallengeIssued?
              || (&& a.challengePending && !outcome.Granted?
                  && (outcome.Failed? ==> outcome.malformed && |f| % 3 != 2))
  {
  }

  ghost predicate Standing(cfg: Config, es: seq<Event>, k: nat)
    requires k <= |es|
  {
    exists c :: 0 <= c < k && IssuesAt(cfg, es, c) && forall j :: c < j < k ==> !UsesUpAt(cfg, es, j)
  }

  lemma StandingLonger(cfg: Config, es: seq<Event>, k: nat)
    requires k < |es|
    ensures Standing(cfg, es, k + 1) <==> IssuesAt(cfg, es, k) || (Standing(cfg, es, k) && !UsesUpAt(cfg, es, k))
  {
    hide IssuesAt, UsesUpAt;
    if Standing(cfg, es, k) && !UsesUpAt(cfg, es, k) {
      var c :| 0 <= c < k && IssuesAt(cfg, es, c) && forall j :: c < j < k ==> !UsesUpAt(cfg, es, j);
      assert forall j :: c < j < k + 1 ==> !UsesUpAt(cfg, es, j);
    }
  }

  /** A challenge is pending exactly when one was issued and nothing has used it up since. */
  lemma {:induction false} PendingExactly(cfg: Config, es: seq<Event>, k: nat)
    requires cfg.authRequired && MonotoneClock(es) && k <= |es|
    ensures At(cfg, es, k).n.auth.challengePending <==> Standing(cfg, es, k)
    decreases k
  {
    hide Step, Attempt, Agrees, Standing, MonotoneClock, ReplyTo;
    if k == 0 {
      assert !Standing(cfg, es, 0) by { NothingStands(cfg, es); }
    } else {
      PendingExactly(cfg, es, k - 1);
      StandingLonger(cfg, es, k - 1);
      AuthStep(cfg, At(cfg, es, k - 1), es[k - 1]);
      if IsAttempt(cfg, es[k - 1]) {
        FailuresAreSpaced(cfg, es, k - 1);
        LatestIsBehind(es, k - 1);
        PendingStep(At(cfg, es, k - 1).n.auth, Failures(cfg, es, k - 1), Latest(es, k - 1),
                    es[k - 1].cmdNow, es[k - 1].cmd.payloadLen, es[k - 1].cmd.response);
      }
    }
  }

  lemma NothingStands(cfg: Config, es: seq<Event>)
    ensures !Standing(cfg, es, 0)
  {
  }

  /** Entry is granted exactly for a matching response of the right length, sent when a response is due, to a challenge
    that was issued and that nothing, no reboot and no completed transfer either, has used up since. */
  lemma GrantedOnlyOnFreshChallenge(cfg: Config, es: seq<Event>, k: nat)
    requires cfg.authRequired && MonotoneClock(es) && k < |es|
    ensures OutcomeAt(cfg, es, k) == Some(Granted)
       <==> && IsAttempt(cfg, es[k])
            && es[k].cmd.payloadLen == RESPONSE_LEN && es[k].cmd.response.Match?
            && Due(Failures(cfg, es, k), es[k].cmdNow)
            && Standing(cfg, es, k)
  {
    hide Step, Agrees, Standing, MonotoneClock, Due, Failures, At;
    if IsAttempt(cfg, es[k]) {
      PendingExactly(cfg, es, k);
      FailuresAreSpaced(cfg, es, k);
      LatestIsBehind(es, k);
      hide Attempt;
      if es[k].cmd.payloadLen > 0 {
        DueExactly(At(cfg, es, k).n.auth, Failures(cfg, es, k), Latest(es, k),
                   es[k].cmdNow, es[k].cmd.payloadLen, es[k].cmd.response);
      } else {
        EmptyIsNoResponse(At(cfg, es, k).n.auth, es[k].cmdNow, es[k].cmd.response);
      }
    }
  }

  lemma EmptyIsNoResponse(a: Auth, now: nat, verdict: TagVerdict)
    ensures Attempt(a, now, 0, verdict).1 != Granted
  {
  }

  // ---- how an attempt is answered ----

  lemma AnsweredExactly(a: Auth, f: seq<nat>, t: nat, now: nat, payloadLen: nat, verdict: TagVerdict)
    requires Agrees(a, f, t) && t <= now
    ensures var reply := OutcomeReply(Attempt(a, now, payloadLen, verdict).1);
            var locked := !Due(f, now) && |f| % 3 == 0;
            && (reply == Nack(LockActive) <==> locked)
            && (reply == Nack(RateLimitExceeded) <==> !locked && !Due(f, now) && payloadLen > 0)
            && (reply == Nack(MalformedPayload) <==> Due(f, now) && payloadLen > 0 && payloadLen != 16)
            && (reply == Nack(CryptoFail) <==>
                  Due(f, now) && payloadLen == 16 && a.challengePending && verdict.Unavailable?)
            && (reply == Nack(NotAuthenticated) <==>
                  Due(f, now) && payloadLen == 16 && (!a.challengePending || verdict.Mismatch?))
            && (reply == Ack <==>
                  || (payloadLen == 0 && !locked)
                  || (Due(f, now) && payloadLen == 16 && a.challengePending && verdict.Match?))
  {
  }

  /** The reply to every attempt: a lockout comes before all else, then an empty payload asks for a challenge, then the
    retry interval, the length, the challenge and the tag. */
  lemma EveryAttemptIsAnsweredExactly(cfg: Config, es: seq<Event>, k: nat)
    requires k < |es| && MonotoneClock(es) && IsAttempt(cfg, es[k])
    ensures var reply := ReplyTo(cfg, At(cfg, es, k), es[k]); var f := Failures(cfg, es, k);
            var due := Due(f, es[k].cmdNow); var locked := !due && |f| % 3 == 0;
            var n, verdict := es[k].cmd.payloadLen, es[k].cmd.response;
            && (reply == Nack(LockActive) <==> locked)
            && (reply == Nack(RateLimitExceeded) <==> !locked && !due && n > 0)
            && (reply == Nack(MalformedPayload) <==> due && n > 0 && n != 16)
            && (reply == Nack(CryptoFail) <==> due && n == 16 && Standing(cfg, es, k) && verdict.Unavailable?)
            && (reply == Nack(NotAuthenticated) <==>
                  due && n == 16 && (!Standing(cfg, es, k) || verdict.Mismatch?))
            && (reply == Ack <==>
                  || (n == 0 && !locked)
                  || (due && n == 16 && Standing(cfg, es, k) && verdict.Match?))
  {
    hide Attempt, Agrees, Due, Standing, MonotoneClock, ReplyTo, OutcomeReply, Failures, At;
    OutcomeIsAnswered(cfg, es, k);
    FailuresAreSpaced(cfg, es, k);
    LatestIsBehind(es, k);
    PendingExactly(cfg, es, k);
    AnsweredExactly(At(cfg, es, k).n.auth, Failures(cfg, es, k), Latest(es, k),
                    es[k].cmdNow, es[k].cmd.payloadLen, es[k].cmd.response);
  }

  /** The waits, in nanoseconds. */
  lemma WaitIs(f: seq<nat>)
    ensures Wait(f) == if f == [] then 0 else if |f| % 3 == 0 then 60_000_000_000 else 5_000_000_000
  {
  }
}
