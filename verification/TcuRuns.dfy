/** The transmission control unit as the firmware runs it: its one caller counts the samples up by one, from 1. */
module TcuRuns {
  import Bytes
  import opened Tcu

  /** The samples from `s` on, `n` of them. */
  function Counting(s: nat, n: nat): (samples: seq<Bytes.u32>)
    requires s + n <= Bytes.U32_MAX + 1
    ensures |samples| == n && forall i :: 0 <= i < n ==> samples[i] == s + i
  {
    seq(n, i requires 0 <= i < n => s + i)
  }

  predicate AllFresh(sample: Bytes.u32) {
    RxFresh(sample) && TxFresh(sample)
  }

  // ---- staleness is never harmless ----

  lemma LastDigit(s: nat, k: nat, tens: nat, o: nat)
    requires s % 30 == 1 && s + k == 10 * tens + o && 1 <= k < 9 && o < 10
    ensures o == k + 1
  {
    assert s == 30 * (s / 30) + 1;
  }

  lemma ReceiveWindowGoesOn(s: nat, k: nat, q: nat, o: nat)
    requires s % REQUEST_PERIOD == 1 && 1 <= k < 9 && s + k == RX_STALE_PERIOD * q + o && o < STALE_WINDOW
    ensures (s + 8) % RX_STALE_PERIOD == 9
  {
    LastDigit(s, k, 17 * q, o);
  }

  lemma TransmitWindowGoesOn(s: nat, k: nat, q: nat, o: nat)
    requires s % REQUEST_PERIOD == 1 && 1 <= k < 9 && s + k == TX_STALE_PERIOD * q + o && o < STALE_WINDOW
    ensures (s + 8) % TX_STALE_PERIOD == 9
  {
    LastDigit(s, k, 21 * q, o);
  }

  /** Requests start on samples that end in 1 and streams are stale for ten samples from one that ends in 0: a stream
    that is stale while a short request is still too young to notice is stale when it notices. */
  lemma StaleWindowOutlasts(s: nat, k: nat)
    requires s % REQUEST_PERIOD == 1 && 1 <= k <= 17 && s + 17 <= Bytes.U32_MAX
    ensures (s + k) % RX_STALE_PERIOD < STALE_WINDOW && k < 4 ==> (s + 8) % RX_STALE_PERIOD < STALE_WINDOW
    ensures (s + k) % TX_STALE_PERIOD < STALE_WINDOW && k < 6 ==> (s + 8) % TX_STALE_PERIOD < STALE_WINDOW
  {
    if k < 4 && (s + k) % RX_STALE_PERIOD < STALE_WINDOW {
      ReceiveWindowGoesOn(s, k, (s + k) / RX_STALE_PERIOD, (s + k) % RX_STALE_PERIOD);
    }
    if k < 6 && (s + k) % TX_STALE_PERIOD < STALE_WINDOW {
      TransmitWindowGoesOn(s, k, (s + k) / TX_STALE_PERIOD, (s + k) % TX_STALE_PERIOD);
    }
  }

  lemma FreshIsUndisturbed(counter: Bytes.u8, s: nat)
    requires s + 18 <= Bytes.U32_MAX
    requires forall x: Bytes.u32 :: s < x <= s + 17 ==> AllFresh(x)
    ensures Undisturbed(counter, REQUEST_STEP, Counting(s + 1, 17), 17)
  {
    var samples := Counting(s + 1, 17);
    forall k | 0 <= k < 17
      ensures !Bites(counter, REQUEST_STEP + REQUEST_STEP * (k + 1), samples[k])
    {
      assert AllFresh(samples[k]);
    }
  }

  lemma UndisturbedIsFresh(counter: Bytes.u8, s: nat, x: Bytes.u32)
    requires s % REQUEST_PERIOD == 1 && s + 18 <= Bytes.U32_MAX && counter % 5 != 0 && s < x <= s + 17
    requires Undisturbed(counter, REQUEST_STEP, Counting(s + 1, 17), 17)
    ensures AllFresh(x)
  {
    hide RxFresh, TxFresh, LinkOnline;
    var samples := Counting(s + 1, 17);
    var k := x - s;
    assert samples[7] == s + 8 && samples[k - 1] == x;
    assert !Bites(counter, REQUEST_STEP + REQUEST_STEP * (7 + 1), samples[7]);
    assert !Bites(counter, REQUEST_STEP + REQUEST_STEP * ((k - 1) + 1), samples[k - 1]);
    NotYetNoticed(s, k);
  }

  lemma NotYetNoticed(s: nat, k: nat)
    requires s % REQUEST_PERIOD == 1 && 1 <= k <= 17 && s + 17 <= Bytes.U32_MAX
    ensures LinkOnline(s + k) && !RxFresh(s + k) && k < 4 ==> !RxFresh(s + 8)
    ensures LinkOnline(s + k) && !TxFresh(s + k) && k < 6 ==> !TxFresh(s + 8)
  {
    StaleWindowOutlasts(s, k);
  }

  /** In the firmware a request started by sample `s` is acknowledged if and only if none of 5, 7 and 11 divides its
    counter and the link is up and both streams are fresh at every one of the 17 samples that follow. */
  lemma CountingAcknowledgedExactly(t: Tcu, s: nat)
    requires Ok(t) && t.shiftActive && t.age == REQUEST_STEP
    requires s % REQUEST_PERIOD == 1 && s + 18 <= Bytes.U32_MAX
    ensures var samples := Counting(s + 1, 17);
            (exists n :: 0 <= n < 17 && EndsAt(t, samples, n) && AfterFrom(t, samples[..n + 1]).resultCode == 1)
            <==> && t.requests % 5 != 0 && t.requests % 7 != 0 && t.requests % 11 != 0
                 && forall x: Bytes.u32 :: s < x <= s + 17 ==> AllFresh(x)
  {
    hide EndsAt, Undisturbed, AfterFrom, AllFresh, Ok;
    var samples := Counting(s + 1, 17);
    AcknowledgedExactly(t, samples);
    if t.requests % 5 != 0 && Undisturbed(t.requests, REQUEST_STEP, samples, 17) {
      forall x: Bytes.u32 | s < x <= s + 17
        ensures AllFresh(x)
      {
        UndisturbedIsFresh(t.requests, s, x);
      }
    }
    if forall x: Bytes.u32 :: s < x <= s + 17 ==> AllFresh(x) {
      FreshIsUndisturbed(t.requests, s);
    }
  }

  // ---- from one request to the next ----

  ghost predicate Requesting(t: Tcu, counter: Bytes.u8) {
    Ok(t) && t.shiftActive && t.age == REQUEST_STEP && t.requests == counter
  }

  /** No request runs, and `hold` ticks are left before the next can start. */
  ghost predicate Resting(t: Tcu, counter: Bytes.u8, hold: nat) {
    Ok(t) && !t.shiftActive && t.stateCode != 6 && t.holdTicks == hold && t.requests == counter
  }

  lemma {:induction false} AfterFromSplits(t: Tcu, a: seq<Bytes.u32>, b: seq<Bytes.u32>)
    ensures AfterFrom(t, a + b) == AfterFrom(AfterFrom(t, a), b)
    decreases |b|
  {
    hide Ticked;
    if b == [] {
      assert a + b == a;
    } else {
      var n := |b| - 1;
      assert (a + b)[..|a + b| - 1] == a + b[..n];
      AfterFromSplits(t, a, b[..n]);
    }
  }

  lemma CountingSplits(t: Tcu, s: nat, i: nat, j: nat)
    requires s + i + j <= Bytes.U32_MAX + 1
    ensures AfterFrom(t, Counting(s, i + j)) == AfterFrom(AfterFrom(t, Counting(s, i)), Counting(s + i, j))
  {
    assert Counting(s, i + j) == Counting(s, i) + Counting(s + i, j);
    AfterFromSplits(t, Counting(s, i), Counting(s + i, j));
  }

  lemma OneTick(t: Tcu, s: nat)
    requires s <= Bytes.U32_MAX
    ensures AfterFrom(t, Counting(s, 1)) == Ticked(t, s)
  {
    hide Ticked;
    assert Counting(s, 1)[..0] == [];
  }

  lemma NoTick(t: Tcu, s: nat)
    requires s <= Bytes.U32_MAX + 1
    ensures AfterFrom(t, Counting(s, 0)) == t
  {
  }

  lemma EndedRests(t: Tcu, sample: Bytes.u32)
    requires Ok(t) && t.shiftActive && LinkOnline(sample) && EndedBy(t, sample)
    ensures Resting(Ticked(t, sample), t.requests, RESULT_HOLD_TICKS)
  {
    TickMeaning(t, sample);
    ReadiedRunning(t, sample);
  }

  /** The samples on which the unit may start a request. */
  predicate IsRequestSample(sample: Bytes.u32) {
    sample % REQUEST_PERIOD == 1
  }

  /** While held, one tick fewer is left after each; a rested unit waits for the next sample that starts a request. */
  lemma RestingTick(t: Tcu, counter: Bytes.u8, hold: nat, sample: Bytes.u32)
    requires Resting(t, counter, hold) && LinkOnline(sample)
    requires hold > 0 || !IsRequestSample(sample)
    ensures Resting(Ticked(t, sample), counter, if hold > 0 then hold - 1 else 0)
  {
  }

  lemma {:induction false} Rests(t: Tcu, counter: Bytes.u8, hold: nat, s: nat, n: nat)
    requires Resting(t, counter, hold) && s + n <= Bytes.U32_MAX
    requires forall x: Bytes.u32 :: s <= x < s + n ==> LinkOnline(x) && !IsRequestSample(x)
    ensures Resting(AfterFrom(t, Counting(s, n)), counter, Bytes.Max(hold - n, 0))
    decreases n
  {
    hide Ticked, Resting, AfterFrom, LinkOnline, IsRequestSample;
    if n == 0 {
      NoTick(t, s);
    } else {
      Rests(t, counter, hold, s, n - 1);
      CountingSplits(t, s, n - 1, 1);
      OneTick(AfterFrom(t, Counting(s, n - 1)), s + n - 1);
      assert LinkOnline(s + n - 1) && !IsRequestSample(s + n - 1);
      RestingTick(AfterFrom(t, Counting(s, n - 1)), counter, Bytes.Max(hold - (n - 1), 0), s + n - 1);
    }
  }

  lemma RequestStarts(t: Tcu, counter: Bytes.u8, sample: Bytes.u32)
    requires Resting(t, counter, 0) && LinkOnline(sample) && IsRequestSample(sample)
    ensures Requesting(Ticked(t, sample), (counter + 1) % 256)
  {
    assert Readied(t, sample) == Started(t);
    assert Running(t, sample) && StartedBy(t, sample);
    TickMeaning(t, sample);
    hide Stepped, FateOf;
    StartedTick(t, sample);
  }

  lemma StartedTick(t: Tcu, sample: Bytes.u32)
    requires Ok(t) && !t.shiftActive && LinkOnline(sample) && Readied(t, sample) == Started(t)
    ensures Ticked(t, sample).shiftActive
  {
  }

  /** A request that meets its fate undisturbed `n` ticks on is followed by the next one, started by sample `r`. */
  lemma NextRequest(t: Tcu, counter: Bytes.u8, s: nat, n: nat, r: nat)
    requires Requesting(t, counter) && s + n < r <= Bytes.U32_MAX
    requires n > 0 && REQUEST_STEP * (n + 1) == FateOf(counter).age
    requires forall x: Bytes.u32 :: s < x <= r ==> LinkOnline(x)
    requires Undisturbed(counter, REQUEST_STEP, Counting(s + 1, n), n)
    requires IsRequestSample(r) && r - (s + n) > RESULT_HOLD_TICKS
    requires forall x: Bytes.u32 :: s + n < x < r ==> !IsRequestSample(x)
    ensures Requesting(AfterFrom(t, Counting(s + 1, r - s)), (counter + 1) % 256)
  {
    hide Ticked, AfterFrom, Ok, FateOf, EndsAt, Undisturbed, LinkOnline, EndedBy, IsRequestSample;
    var running := Counting(s + 1, n);
    UndisturbedMeetsItsFate(t, running);
    var u := AfterFrom(t, running[..n - 1]);
    EndState(t, running);
    var rested := AfterFrom(t, running);
    var w := r - (s + n) - 1;
    Rests(rested, counter, RESULT_HOLD_TICKS, s + n + 1, w);
    var waiting := AfterFrom(rested, Counting(s + n + 1, w));
    RequestStarts(waiting, counter, r);
    CountingSplits(rested, s + n + 1, w, 1);
    OneTick(waiting, r);
    CountingSplits(t, s + 1, n, w + 1);
  }

  lemma EndState(t: Tcu, running: seq<Bytes.u32>)
    requires Ok(t) && t.shiftActive && running != [] && EndsAt(t, running, |running| - 1)
    requires LinkOnline(running[|running| - 1])
    ensures Resting(AfterFrom(t, running), t.requests, RESULT_HOLD_TICKS)
  {
    hide Ticked, Ok, EndedBy, Unended, LinkOnline, Resting;
    var n := |running| - 1;
    UnendedState(t, running, n);
    OneTickMore(t, running, n);
    assert running[..n + 1] == running;
    EndedRests(AfterFrom(t, running[..n]), running[n]);
  }

  // ---- the first six requests ----

  lemma {:induction false} AfterIsFromInitial(samples: seq<Bytes.u32>)
    ensures After(samples) == AfterFrom(INITIAL, samples)
    decreases |samples|
  {
    hide Ticked;
    if samples == [] {
    } else {
      AfterIsFromInitial(samples[..|samples| - 1]);
    }
  }

  const OFFLINE_AT_FIRST: Tcu := INITIAL.(stateCode := 6, holdTicks := 2)

  lemma OfflineTick(t: Tcu, sample: Bytes.u32)
    requires t == INITIAL || t == OFFLINE_AT_FIRST
    requires !LinkOnline(sample)
    ensures Ticked(t, sample) == OFFLINE_AT_FIRST
  {
  }

  lemma {:induction false} OfflineFirst(n: nat)
    requires 1 <= n < OFFLINE_WINDOW
    ensures AfterFrom(INITIAL, Counting(1, n)) == OFFLINE_AT_FIRST
    decreases n
  {
    hide Ticked;
    if n == 1 {
      OneTick(INITIAL, 1);
      OfflineTick(INITIAL, 1);
    } else {
      OfflineFirst(n - 1);
      CountingSplits(INITIAL, 1, n - 1, 1);
      OneTick(OFFLINE_AT_FIRST, n);
      OfflineTick(OFFLINE_AT_FIRST, n);
    }
  }

  lemma ComesOnline()
    ensures Ticked(OFFLINE_AT_FIRST, 12) == OFFLINE_AT_FIRST.(holdTicks := 1)
    ensures Ticked(OFFLINE_AT_FIRST.(holdTicks := 1), 13) == OFFLINE_AT_FIRST.(holdTicks := 0)
    ensures Resting(Ticked(OFFLINE_AT_FIRST.(holdTicks := 0), 14), 0, 0)
  {
  }

  /** The link comes up with sample 12 and the first request starts with sample 31. */
  lemma FirstRequestStarts()
    ensures Requesting(AfterFrom(INITIAL, Counting(1, 31)), 1)
  {
    hide Ticked, AfterFrom, Resting, Requesting;
    OfflineFirst(11);
    ComesOnline();
    OneTick(OFFLINE_AT_FIRST, 12);
    OneTick(OFFLINE_AT_FIRST.(holdTicks := 1), 13);
    OneTick(OFFLINE_AT_FIRST.(holdTicks := 0), 14);
    CountingSplits(INITIAL, 1, 11, 1);
    CountingSplits(INITIAL, 1, 12, 1);
    CountingSplits(INITIAL, 1, 13, 1);
    var rested := AfterFrom(INITIAL, Counting(1, 14));
    Rests(rested, 0, 0, 15, 16);
    var waiting := AfterFrom(rested, Counting(15, 16));
    CountingSplits(INITIAL, 1, 14, 16);
    RequestStarts(waiting, 0, 31);
    OneTick(waiting, 31);
    CountingSplits(INITIAL, 1, 30, 1);
  }

  /** The first four requests are acknowledged and the fifth, a long one, starts with sample 151. */
  lemma {:induction false} EarlyRequestsStart(c: nat)
    requires 1 <= c <= 5
    ensures Requesting(AfterFrom(INITIAL, Counting(1, 30 * c + 1)), c)
    decreases c
  {
    hide Ticked, AfterFrom, Requesting;
    if c == 1 {
      FirstRequestStarts();
    } else {
      EarlyRequestsStart(c - 1);
      var s := 30 * (c - 1) + 1;
      FreshEarly(c - 1, s);
      NextRequest(AfterFrom(INITIAL, Counting(1, s)), c - 1, s, 17, s + 30);
      CountingSplits(INITIAL, 1, s, 30);
    }
  }

  lemma FreshEarly(c: nat, s: nat)
    requires 1 <= c <= 4 && s == 30 * c + 1
    ensures Undisturbed(c, REQUEST_STEP, Counting(s + 1, 17), 17) && FateOf(c).age == DEFAULT_SHIFT_TIMER
    ensures forall x: Bytes.u32 :: s < x <= s + 30 ==> LinkOnline(x)
    ensures forall x: Bytes.u32 :: s + 17 < x < s + 30 ==> !IsRequestSample(x)
  {
  }

  lemma FifthIsLong()
    ensures Undisturbed(5, REQUEST_STEP, Counting(152, 30), 30) && FateOf(5).age == TIMEOUT_REQUEST
    ensures forall x: Bytes.u32 :: 151 < x <= 211 ==> LinkOnline(x)
    ensures forall x: Bytes.u32 :: 181 < x < 211 ==> !IsRequestSample(x)
  {
  }

  /** The sixth request, whose counter none of 5, 7 and 11 divides, starts with sample 211, in the first stale window of
    the transmit stream, and is lost with sample 217, at age 14. */
  lemma SixthRequestIsLost()
    ensures var t := After(Counting(1, 211));
            && t.shiftActive && t.requests == 6 && t.age == REQUEST_STEP
            && EndsAt(t, Counting(212, 6), 5)
    ensures var u := After(Counting(1, 217)); !u.shiftActive && u.resultCode == 5
  {
    hide Ticked, AfterFrom, EndsAt, Undisturbed;
    EarlyRequestsStart(5);
    FifthIsLong();
    NextRequest(AfterFrom(INITIAL, Counting(1, 151)), 5, 151, 30, 211);
    CountingSplits(INITIAL, 1, 151, 60);
    AfterIsFromInitial(Counting(1, 211));
    AfterIsFromInitial(Counting(1, 217));
    var t := AfterFrom(INITIAL, Counting(1, 211));
    CountingSplits(INITIAL, 1, 211, 6);
    SixthIsBitten();
    EndsExactly(t, Counting(212, 6), 5);
    assert Counting(212, 6)[..6] == Counting(212, 6);
    EndedIsInactive(t, Counting(212, 6), 5);
  }

  lemma SixthIsBitten()
    ensures Undisturbed(6, REQUEST_STEP, Counting(212, 6), 5) && Bites(6, 14, 217)
    ensures FateOf(6).age == DEFAULT_SHIFT_TIMER
  {
  }

  lemma EndedIsInactive(t: Tcu, samples: seq<Bytes.u32>, n: nat)
    requires EndsAt(t, samples, n)
    ensures n < |samples| && !AfterFrom(t, samples[..n + 1]).shiftActive
  {
    hide Ticked;
    OneTickMore(t, samples, n);
  }

  // ---- the calendar of the samples ----

  /** The link is down for the first 12 samples of every 240, the receive stream stale for the first 10 of every 170 and
    the transmit stream for the first 10 of every 210. */
  lemma CalendarExactly(n: nat, k: nat)
    requires 240 * n + k <= Bytes.U32_MAX && k < 240
    ensures LinkOnline(240 * n + k) <==> k >= 12
    ensures 170 * n + k <= Bytes.U32_MAX && k < 170 ==>
              (RxFresh(170 * n + k) <==> LinkOnline(170 * n + k) && k >= 10)
    ensures 210 * n + k <= Bytes.U32_MAX && k < 210 ==>
              (TxFresh(210 * n + k) <==> LinkOnline(210 * n + k) && k >= 10)
  {
    Residue240(n, k);
    if k < 170 {
      Residue170(n, k);
    }
    if k < 210 {
      Residue210(n, k);
    }
    hide LinkOnline;
  }

  lemma Residue170(n: nat, k: nat)
    requires k < 170
    ensures (170 * n + k) % 170 == k
  {
  }

  lemma Residue210(n: nat, k: nat)
    requires k < 210
    ensures (210 * n + k) % 210 == k
  {
  }

  lemma Residue240(n: nat, k: nat)
    requires k < 240
    ensures (240 * n + k) % 240 == k
  {
  }
}
