/** The external transmission control unit of src/tcu.rs: one shift request at a time, stepped by ticks. */
module Tcu {
  import opened Bytes

  const OFFLINE_PERIOD: nat := 240
  const OFFLINE_WINDOW: nat := 12
  const REQUEST_PERIOD: nat := 30
  const REQUEST_STEP: nat := 2
  const DEFAULT_SHIFT_TIMER: nat := 36
  const STALE_REQUEST: nat := 46
  const TIMEOUT_REQUEST: nat := 62
  const RESULT_HOLD_TICKS: nat := 8
  const RX_STALE_PERIOD: nat := 170
  const TX_STALE_PERIOD: nat := 210
  const STALE_WINDOW: nat := 10

  /** `stateCode`: 0 idle, 1 pending, 2 torque reduction, 3 shifting, 4 completed, 5 failed, 6 offline. */
  datatype Tcu = Tcu(
    shiftActive: bool, timer: u16, requests: u8, timeouts: u8, faultCode: u8, stateCode: u8,
    age: u16, acks: u8, gear: u8, resultCode: u8, holdTicks: u8)

  datatype Sample = Sample(
    linkOnline: bool, rxFresh: bool, txFresh: bool, interventionRequested: bool, shiftInProgress: bool,
    torqueReductionPct: u8, tcu: Tcu)

  const INITIAL: Tcu := Tcu(false, 0, 0, 0, 0, 0, 0, 0, 0, 0, 0)

  function LinkOnline(sample: u32): bool {
    sample % OFFLINE_PERIOD >= OFFLINE_WINDOW
  }

  function RxFresh(sample: u32): bool {
    LinkOnline(sample) && sample % RX_STALE_PERIOD >= STALE_WINDOW
  }

  function TxFresh(sample: u32): bool {
    LinkOnline(sample) && sample % TX_STALE_PERIOD >= STALE_WINDOW
  }

  // ---- what a tick does ----

  function Cleared(t: Tcu): Tcu {
    t.(stateCode := 0, faultCode := 0, resultCode := 0, gear := 0, age := 0)
  }

  function Faulted(t: Tcu, fault: u8, state: u8, result: u8, clearGear: bool): Tcu {
    t.(shiftActive := false, timer := 0, faultCode := fault, stateCode := state, resultCode := result, age := 0,
       gear := if clearGear then 0 else t.gear, holdTicks := RESULT_HOLD_TICKS)
  }

  function Started(t: Tcu): Tcu {
    var requests := (t.requests + 1) % 256;
    t.(shiftActive := true, requests := requests,
       timer := if requests % 5 == 0 then TIMEOUT_REQUEST + 8 else DEFAULT_SHIFT_TIMER,
       faultCode := 0, resultCode := 0, stateCode := 1, age := 0, gear := requests % 6 + 1)
  }

  /** The request one step older, its state code following its age. */
  function Aged(t: Tcu): Tcu {
    var age := SaturatingAdd(t.age, REQUEST_STEP, U16_MAX);
    t.(age := age,
       stateCode := if age >= 18 then 3 else if age >= 8 then 2 else t.stateCode,
       timer := Max(t.timer - REQUEST_STEP, 0))
  }

  function Stepped(before: Tcu, rxFresh: bool, txFresh: bool): Tcu {
    var t := Aged(before);
    var longRequest := t.requests % 5 == 0;
    if !longRequest && !rxFresh && t.age >= 10 then Faulted(t, 7, 5, 5, false)
    else if !longRequest && !txFresh && t.age >= 14 then Faulted(t, 8, 5, 5, false)
    else if t.requests % 11 == 0 && t.age >= 14 then Faulted(t, 4, 5, 4, false)
    else if t.requests % 7 == 0 && t.age >= 10 then Faulted(t, 3, 5, 3, false)
    else if t.age >= TIMEOUT_REQUEST then Faulted(t.(timeouts := (t.timeouts + 1) % 256), 2, 5, 2, true)
    else if t.age >= STALE_REQUEST && t.requests % 13 == 0 then Faulted(t, 6, 5, 5, false)
    else if t.timer == 0 then
      t.(shiftActive := false, resultCode := 1, stateCode := 4, acks := (t.acks + 1) % 256, gear := 0, age := 0,
         holdTicks := RESULT_HOLD_TICKS)
    else t
  }

  function Offline(t: Tcu): Tcu {
    var f := if t.shiftActive || t.gear > 0 then Faulted(t, 1, 6, 5, false) else t.(stateCode := 6);
    f.(shiftActive := false, timer := 0, age := 0, gear := 0, holdTicks := Max(f.holdTicks, 2))
  }

  /** The state in which a tick with the link up steps the request. */
  function Readied(before: Tcu, sample: u32): Tcu {
    var t := if before.stateCode == 6 && before.holdTicks == 0 then Cleared(before) else before;
    if !t.shiftActive && t.holdTicks == 0 && sample % REQUEST_PERIOD == 1 then Started(t) else t
  }

  function Held(t: Tcu): Tcu {
    if t.holdTicks == 0 then t
    else
      var h := t.(holdTicks := t.holdTicks - 1);
      if h.holdTicks == 0 && h.stateCode != 6 then Cleared(h) else h
  }

  function Ticked(t: Tcu, sample: u32): Tcu {
    if !LinkOnline(sample) then Offline(t)
    else
      var r := Readied(t, sample);
      if r.shiftActive then Stepped(r, RxFresh(sample), TxFresh(sample)) else Held(r)
  }

  /** The fields are kept in one record and updated in place, statement by statement. */
  class ExternalTcuRuntime {
    var t: Tcu

    constructor ()
      ensures t == INITIAL
    {
      t := INITIAL;
    }

    method Tick(sample: u32) returns (r: Sample)
      modifies this
      ensures t == Ticked(old(t), sample)
      ensures r.tcu == t && r.linkOnline == LinkOnline(sample)
      ensures r.rxFresh == RxFresh(sample) && r.txFresh == TxFresh(sample)
      ensures r.interventionRequested == t.shiftActive
      ensures r.shiftInProgress == (t.shiftActive && t.stateCode >= 3)
      ensures r.torqueReductionPct
           == if !t.shiftActive || t.stateCode < 2 then 0 else if t.stateCode >= 3 then 26 else 14
    {
      hide Stepped;
      var linkOnline := LinkOnline(sample);
      var rxFresh, txFresh := RxFresh(sample), TxFresh(sample);
      if !linkOnline {
        if t.shiftActive || t.gear > 0 {
          RaiseFault(1, 6, 5, false);
        } else {
          t := t.(stateCode := 6);
        }
        t := t.(shiftActive := false, timer := 0, age := 0, gear := 0);
        t := t.(holdTicks := Max(t.holdTicks, 2));
      } else {
        if t.stateCode == 6 && t.holdTicks == 0 {
          ClearToIdle();
        }
        if !t.shiftActive && t.holdTicks == 0 && sample % REQUEST_PERIOD == 1 {
          StartShiftRequest();
        }
        if t.shiftActive {
          StepActiveShift(rxFresh, txFresh);
        } else if t.holdTicks > 0 {
          t := t.(holdTicks := t.holdTicks - 1);
          if t.holdTicks == 0 && t.stateCode != 6 {
            ClearToIdle();
          }
        }
      }
      var torque := 0;
      if t.shiftActive && t.stateCode >= 2 {
        torque := if t.stateCode >= 3 then 26 else 14;
      }
      r := Sample(linkOnline, rxFresh, txFresh, t.shiftActive, t.shiftActive && t.stateCode >= 3, torque, t);
    }

    method StartShiftRequest()
      modifies this
      ensures t == Started(old(t))
    {
      t := t.(shiftActive := true, requests := (t.requests + 1) % 256);
      t := t.(timer := if t.requests % 5 == 0 then TIMEOUT_REQUEST + 8 else DEFAULT_SHIFT_TIMER);
      t := t.(faultCode := 0, resultCode := 0, stateCode := 1, age := 0);
      t := t.(gear := t.requests % 6 + 1);
    }

    method StepActiveShift(rxFresh: bool, txFresh: bool)
      modifies this
      ensures t == Stepped(old(t), rxFresh, txFresh)
    {
      t := t.(age := SaturatingAdd(t.age, REQUEST_STEP, U16_MAX));
      if t.age >= 8 {
        t := t.(stateCode := 2);
      }
      if t.age >= 18 {
        t := t.(stateCode := 3);
      }
      t := t.(timer := Max(t.timer - REQUEST_STEP, 0));
      var longRequest := t.requests % 5 == 0;
      if !longRequest && !rxFresh && t.age >= 10 {
        RaiseFault(7, 5, 5, false);
        return;
      }
      if !longRequest && !txFresh && t.age >= 14 {
        RaiseFault(8, 5, 5, false);
        return;
      }
      if t.requests % 11 == 0 && t.age >= 14 {
        RaiseFault(4, 5, 4, false);
        return;
      }
      if t.requests % 7 == 0 && t.age >= 10 {
        RaiseFault(3, 5, 3, false);
        return;
      }
      if t.age >= TIMEOUT_REQUEST {
        t := t.(timeouts := (t.timeouts + 1) % 256);
        RaiseFault(2, 5, 2, true);
        return;
      }
      if t.age >= STALE_REQUEST && t.requests % 13 == 0 {
        RaiseFault(6, 5, 5, false);
        return;
      }
      if t.timer == 0 {
        t := t.(shiftActive := false, resultCode := 1, stateCode := 4, acks := (t.acks + 1) % 256);
        t := t.(gear := 0, age := 0, holdTicks := RESULT_HOLD_TICKS);
      }
    }

    method RaiseFault(fault: u8, state: u8, result: u8, clearGear: bool)
      modifies this
      ensures t == Faulted(old(t), fault, state, result, clearGear)
    {
      t := t.(shiftActive := false, timer := 0, faultCode := fault, stateCode := state, resultCode := result, age := 0);
      if clearGear {
        t := t.(gear := 0);
      }
      t := t.(holdTicks := RESULT_HOLD_TICKS);
    }

    method ClearToIdle()
      modifies this
      ensures t == Cleared(old(t))
    {
      t := t.(stateCode := 0, faultCode := 0, resultCode := 0, gear := 0, age := 0);
    }
  }

  // ---- how a request ends ----

  /** How an undisturbed request of that counter ends: at what age and with what result and fault code. */
  datatype Fate = Fate(age: nat, resultCode: u8, faultCode: u8)

  function FateOf(counter: u8): Fate {
    if counter % 7 == 0 then Fate(10, 3, 3)
    else if counter % 11 == 0 then Fate(14, 4, 4)
    else if counter % 5 != 0 then Fate(36, 1, 0)
    else if counter % 13 == 0 then Fate(46, 5, 6)
    else Fate(62, 2, 2)
  }

  /** Only a request whose counter none of 5, 7 and 11 divides can be acknowledged. */
  lemma AcknowledgedFate(counter: u8)
    ensures FateOf(counter).resultCode == 1 <==> counter % 5 != 0 && counter % 7 != 0 && counter % 11 != 0
    ensures FateOf(counter).resultCode == 1 ==> FateOf(counter).age == DEFAULT_SHIFT_TIMER
    ensures FateOf(counter).age <= TIMEOUT_REQUEST
  {
  }

  ghost predicate Ok(t: Tcu) {
    if t.shiftActive then
      && t.timer + t.age == (if t.requests % 5 == 0 then TIMEOUT_REQUEST + 8 else DEFAULT_SHIFT_TIMER)
      && t.age % 2 == 0
      && t.age < FateOf(t.requests).age
      && t.holdTicks == 0
      && t.stateCode == (if t.age >= 18 then 3 else if t.age >= 8 then 2 else 1)
      && t.faultCode == 0 && t.resultCode == 0
      && t.gear == t.requests % 6 + 1
    else t.timer == 0 && t.age == 0
  }

  /** The tick found a request running or started one. */
  predicate Running(t: Tcu, sample: u32) {
    t.shiftActive || (LinkOnline(sample) && Readied(t, sample).shiftActive)
  }

  predicate StartedBy(t: Tcu, sample: u32) {
    !t.shiftActive && Running(t, sample)
  }

  predicate EndedBy(t: Tcu, sample: u32) {
    Running(t, sample) && !Ticked(t, sample).shiftActive
  }

  predicate AcknowledgedBy(t: Tcu, sample: u32) {
    EndedBy(t, sample) && Ticked(t, sample).resultCode == 1
  }

  predicate TimedOutBy(t: Tcu, sample: u32) {
    EndedBy(t, sample) && Ticked(t, sample).resultCode == 2
  }

  lemma SteppedCounts(t: Tcu, rxFresh: bool, txFresh: bool)
    requires t.shiftActive
    ensures var u := Stepped(t, rxFresh, txFresh);
            && u.requests == t.requests
            && u.acks == (if !u.shiftActive && u.resultCode == 1 then (t.acks + 1) % 256 else t.acks)
            && u.timeouts == (if !u.shiftActive && u.resultCode == 2 then (t.timeouts + 1) % 256 else t.timeouts)
  {
  }

  lemma SteppedOutcome(t: Tcu, rxFresh: bool, txFresh: bool)
    requires t.shiftActive && Ok(t)
    ensures var u := Stepped(t, rxFresh, txFresh); var age := t.age + REQUEST_STEP; var fate := FateOf(t.requests);
            && Ok(u)
            && (if t.requests % 5 != 0 && !rxFresh && age >= 10 then
                  !u.shiftActive && u.faultCode == 7 && u.resultCode == 5
                else if t.requests % 5 != 0 && !txFresh && age >= 14 then
                  !u.shiftActive && u.faultCode == 8 && u.resultCode == 5
                else if age == fate.age then
                  !u.shiftActive && u.faultCode == fate.faultCode && u.resultCode == fate.resultCode
                else u.shiftActive && u.age == age)
  {
    var a := Aged(t);
    assert a.age == t.age + REQUEST_STEP && a.timer == t.timer - REQUEST_STEP;
    assert a.requests == t.requests && a.timer + a.age == t.timer + t.age;
    hide Aged;
  }

  lemma SteppedMeaning(t: Tcu, rxFresh: bool, txFresh: bool)
    requires t.shiftActive && Ok(t)
    ensures var u := Stepped(t, rxFresh, txFresh); var age := t.age + REQUEST_STEP; var fate := FateOf(t.requests);
            && Ok(u) && u.requests == t.requests
            && u.acks == (if !u.shiftActive && u.resultCode == 1 then (t.acks + 1) % 256 else t.acks)
            && u.timeouts == (if !u.shiftActive && u.resultCode == 2 then (t.timeouts + 1) % 256 else t.timeouts)
            && (if t.requests % 5 != 0 && !rxFresh && age >= 10 then
                  !u.shiftActive && u.faultCode == 7 && u.resultCode == 5
                else if t.requests % 5 != 0 && !txFresh && age >= 14 then
                  !u.shiftActive && u.faultCode == 8 && u.resultCode == 5
                else if age == fate.age then
                  !u.shiftActive && u.faultCode == fate.faultCode && u.resultCode == fate.resultCode
                else u.shiftActive && u.age == age)
  {
    hide *;
    SteppedCounts(t, rxFresh, txFresh);
    SteppedOutcome(t, rxFresh, txFresh);
  }

  /** One tick from any reachable state: a running request whose link stays up and whose streams stay fresh goes on
    until the age of its fate and then ends with it; a lost link or a stale stream can only end it sooner, with its own
    fault; every request that ends has exactly one outcome and only then do the counters of outcomes move. */
  lemma TickMeaning(t: Tcu, sample: u32)
    requires Ok(t)
    ensures var u := Ticked(t, sample);
            && Ok(u)
            && (t.shiftActive ==> Running(t, sample))
            && u.requests == (if StartedBy(t, sample) then (t.requests + 1) % 256 else t.requests)
            && u.acks == (if AcknowledgedBy(t, sample) then (t.acks + 1) % 256 else t.acks)
            && u.timeouts == (if TimedOutBy(t, sample) then (t.timeouts + 1) % 256 else t.timeouts)
            && (u.shiftActive ==> Running(t, sample)
                                  && u.age == REQUEST_STEP + if StartedBy(t, sample) then 0 else t.age)
            && (EndedBy(t, sample) ==>
                  var age := REQUEST_STEP + if StartedBy(t, sample) then 0 else t.age;
                  || (!LinkOnline(sample) && u.faultCode == 1 && u.resultCode == 5)
                  || (!RxFresh(sample) && u.faultCode == 7 && u.resultCode == 5 && age >= 10)
                  || (!TxFresh(sample) && u.faultCode == 8 && u.resultCode == 5 && age >= 14)
                  || (age == FateOf(u.requests).age
                      && u.faultCode == FateOf(u.requests).faultCode && u.resultCode == FateOf(u.requests).resultCode))
  {
    if LinkOnline(sample) && Running(t, sample) {
      var r := Readied(t, sample);
      SteppedMeaning(r, RxFresh(sample), TxFresh(sample));
    }
    hide Stepped, FateOf;
  }

  /** What the unit reports after a tick: offline, its code is 6 with no gear requested, and a request that was running
    or whose gear was still shown counts as a fault 1; ended by the tick, 4 for a completed request and 5 for a failed
    one, held for eight ticks, with the gear shown on unless it completed or timed out. */
  lemma TickReports(t: Tcu, sample: u32)
    requires Ok(t)
    ensures var u := Ticked(t, sample);
            && (!LinkOnline(sample) ==>
                  && u.stateCode == 6 && !u.shiftActive && u.gear == 0 && u.holdTicks >= 2
                  && (t.shiftActive || t.gear > 0 ==> u.faultCode == 1 && u.resultCode == 5 && u.holdTicks == 8)
                  && (!t.shiftActive && t.gear == 0 ==>
                        u.faultCode == t.faultCode && u.resultCode == t.resultCode
                        && u.holdTicks == Max(t.holdTicks, 2)))
            && (LinkOnline(sample) && EndedBy(t, sample) ==>
                  && u.holdTicks == 8
                  && u.stateCode == (if u.resultCode == 1 then 4 else 5)
                  && u.gear == (if u.resultCode == 1 || u.resultCode == 2 then 0 else u.requests % 6 + 1))
  {
  }

  /** A unit in whose tick no request runs, with the link up: the hold counts down, and everything reported is cleared
    when it ends, or at the first tick after an offline one whose hold had ended; nothing else changes. */
  lemma RestExactly(t: Tcu, sample: u32)
    requires Ok(t) && LinkOnline(sample) && !Running(t, sample)
    ensures var u := Ticked(t, sample);
            var over := if t.stateCode == 6 then t.holdTicks == 0 else t.holdTicks == 1;
            && !u.shiftActive && u.timer == u.age == 0 && u.holdTicks == Max(t.holdTicks - 1, 0)
            && (u.requests, u.acks, u.timeouts) == (t.requests, t.acks, t.timeouts)
            && (u.stateCode, u.faultCode, u.resultCode, u.gear)
            == if over then (0, 0, 0, 0) else (t.stateCode, t.faultCode, t.resultCode, t.gear)
  {
  }

  /** A request is started by the samples one above a multiple of 30 that find the link up and the unit free of both
    request and hold. */
  lemma StartsExactly(t: Tcu, sample: u32)
    ensures StartedBy(t, sample)
       <==> !t.shiftActive && t.holdTicks == 0 && sample % 240 >= 12 && sample % 30 == 1
  {
  }

  // ---- over every run ----

  function After(samples: seq<u32>): Tcu {
    if samples == [] then INITIAL else Ticked(After(samples[..|samples| - 1]), samples[|samples| - 1])
  }

  /** How many ticks of a run did something. */
  function Count(samples: seq<u32>, p: (Tcu, u32) -> bool): nat {
    if samples == [] then 0
    else
      var front, last := samples[..|samples| - 1], samples[|samples| - 1];
      Count(front, p) + if p(After(front), last) then 1 else 0
  }

  predicate FaultedBy(t: Tcu, sample: u32) {
    EndedBy(t, sample) && Ticked(t, sample).resultCode != 1
  }

  /** Every request started is acknowledged, ended by a fault, or still running. */
  lemma {:induction false} RequestsAreConserved(samples: seq<u32>)
    ensures Ok(After(samples))
    ensures Count(samples, StartedBy)
         == Count(samples, AcknowledgedBy) + Count(samples, FaultedBy) + if After(samples).shiftActive then 1 else 0
    decreases |samples|
  {
    hide Ticked, Running, Ok;
    if samples == [] {
      assert Ok(INITIAL) by { InitialOk(); }
    } else {
      var front, last := samples[..|samples| - 1], samples[|samples| - 1];
      RequestsAreConserved(front);
      TickMeaning(After(front), last);
      assert Running(After(front), last) <==> After(front).shiftActive || StartedBy(After(front), last);
    }
  }

  function OneByte(n: nat): u8 {
    n % 256
  }

  /** The one-byte counters are the true counts modulo 256. */
  lemma {:induction false} CountersWrap(samples: seq<u32>)
    ensures After(samples).requests == OneByte(Count(samples, StartedBy))
    ensures After(samples).acks == OneByte(Count(samples, AcknowledgedBy))
    ensures After(samples).timeouts == OneByte(Count(samples, TimedOutBy))
    decreases |samples|
  {
    hide Ticked, Ok, StartedBy, AcknowledgedBy, TimedOutBy;
    assert OneByte(0) == 0;
    hide OneByte;
    if samples == [] {
    } else {
      var front, last := samples[..|samples| - 1], samples[|samples| - 1];
      CountersWrap(front);
      RequestsAreConserved(front);
      TickMeaning(After(front), last);
      WrapNext(Count(front, StartedBy), StartedBy(After(front), last));
      WrapNext(Count(front, AcknowledgedBy), AcknowledgedBy(After(front), last));
      WrapNext(Count(front, TimedOutBy), TimedOutBy(After(front), last));
    }
  }

  lemma WrapNext(n: nat, moved: bool)
    ensures (if moved then (OneByte(n) + 1) % 256 else OneByte(n)) == OneByte(n + if moved then 1 else 0)
  {
  }

  lemma InitialOk()
    ensures Ok(INITIAL)
  {
  }

  function AfterFrom(t: Tcu, samples: seq<u32>): Tcu {
    if samples == [] then t else Ticked(AfterFrom(t, samples[..|samples| - 1]), samples[|samples| - 1])
  }

  /** While a request has not ended it ages two centiseconds a tick. */
  lemma {:induction false} StillRunning(t: Tcu, samples: seq<u32>)
    requires Ok(t) && t.shiftActive
    requires forall k :: 0 <= k < |samples| ==> !EndedBy(AfterFrom(t, samples[..k]), samples[k])
    ensures Ok(AfterFrom(t, samples)) && AfterFrom(t, samples).shiftActive
    ensures AfterFrom(t, samples).age == t.age + REQUEST_STEP * |samples|
    ensures AfterFrom(t, samples).requests == t.requests
    decreases |samples|
  {
    hide Ticked, Ok;
    if samples == [] {
    } else {
      var n := |samples| - 1;
      assert forall k :: 0 <= k < n ==> samples[..n][..k] == samples[..k] && samples[..n][k] == samples[k];
      StillRunning(t, samples[..n]);
      TickMeaning(AfterFrom(t, samples[..n]), samples[n]);
    }
  }

  /** Whatever the ticks bring, a request ends within 31 ticks, the one that starts it included. */
  lemma EndsInTime(t: Tcu, samples: seq<u32>)
    requires Ok(t) && t.shiftActive && t.age == REQUEST_STEP && |samples| == 30
    ensures exists k :: 0 <= k < |samples| && EndedBy(AfterFrom(t, samples[..k]), samples[k])
  {
    hide Ticked;
    if forall k :: 0 <= k < |samples| ==> !EndedBy(AfterFrom(t, samples[..k]), samples[k]) {
      StillRunning(t, samples);
      AcknowledgedFate(t.requests);
      assert false;
    }
  }

  // ---- exactly when a request is acknowledged ----

  /** A tick that ends the request of that counter at that age with a fault of the link or of a stream. Long requests
    ignore the streams, and no stream can bite before age 10. */
  predicate Bites(counter: u8, age: nat, sample: u32) {
    || !LinkOnline(sample)
    || (counter % 5 != 0 && ((!RxFresh(sample) && age >= 10) || (!TxFresh(sample) && age >= 14)))
  }

  /** None of the first `n` ticks bites a request that is now of age `age`. */
  predicate Undisturbed(counter: u8, age: nat, samples: seq<u32>, n: nat)
    requires n <= |samples|
  {
    forall k :: 0 <= k < n ==> !Bites(counter, age + REQUEST_STEP * (k + 1), samples[k])
  }

  /** None of the first `n` ticks ends the request running at `t`. */
  ghost predicate Unended(t: Tcu, samples: seq<u32>, n: nat)
    requires n <= |samples|
  {
    forall k :: 0 <= k < n ==> !EndedBy(AfterFrom(t, samples[..k]), samples[k])
  }

  /** The request running at `t` ends at the `n`-th tick. */
  ghost predicate EndsAt(t: Tcu, samples: seq<u32>, n: nat) {
    n < |samples| && Unended(t, samples, n) && EndedBy(AfterFrom(t, samples[..n]), samples[n])
  }

  lemma ReadiedRunning(t: Tcu, sample: u32)
    requires Ok(t) && t.shiftActive
    ensures Readied(t, sample) == t
  {
  }

  /** A tick ends a running request exactly when it bites or the request comes to the age of its fate; the fault of a
    bite is never taken for an acknowledgement. */
  lemma ActiveTick(t: Tcu, sample: u32)
    requires Ok(t) && t.shiftActive
    ensures var u := Ticked(t, sample); var age := t.age + REQUEST_STEP; var fate := FateOf(t.requests);
            && (EndedBy(t, sample) <==> Bites(t.requests, age, sample) || age == fate.age)
            && (Bites(t.requests, age, sample) ==> u.resultCode == 5)
            && (!Bites(t.requests, age, sample) && age == fate.age ==>
                  u.resultCode == fate.resultCode && u.faultCode == fate.faultCode)
  {
    hide Stepped, FateOf;
    ReadiedRunning(t, sample);
    SteppedMeaning(t, RxFresh(sample), TxFresh(sample));
    hide Ok, Readied;
  }

  lemma UnendedState(t: Tcu, samples: seq<u32>, n: nat)
    requires Ok(t) && t.shiftActive && n <= |samples| && Unended(t, samples, n)
    ensures var u := AfterFrom(t, samples[..n]);
            Ok(u) && u.shiftActive && u.age == t.age + REQUEST_STEP * n && u.requests == t.requests
  {
    hide Ticked, EndedBy, Ok, AfterFrom;
    assert forall k :: 0 <= k < n ==> samples[..n][..k] == samples[..k] && samples[..n][k] == samples[k];
    StillRunning(t, samples[..n]);
  }

  lemma UnendedLonger(t: Tcu, samples: seq<u32>, n: nat)
    requires n < |samples|
    ensures Unended(t, samples, n + 1)
       <==> Unended(t, samples, n) && !EndedBy(AfterFrom(t, samples[..n]), samples[n])
  {
  }

  lemma UndisturbedLonger(counter: u8, age: nat, samples: seq<u32>, n: nat)
    requires n < |samples|
    ensures Undisturbed(counter, age, samples, n + 1)
       <==> Undisturbed(counter, age, samples, n) && !Bites(counter, age + REQUEST_STEP * (n + 1), samples[n])
  {
  }

  lemma NoTicksYet(t: Tcu, samples: seq<u32>)
    requires Ok(t) && t.shiftActive
    ensures Unended(t, samples, 0) && Undisturbed(t.requests, t.age, samples, 0) && t.age < FateOf(t.requests).age
    ensures t.age % 2 == 0
  {
  }

  /** A request still runs after `n` ticks exactly when none of them bit and it is short of the age of its fate. */
  lemma {:induction false} RunsExactly(t: Tcu, samples: seq<u32>, n: nat)
    requires Ok(t) && t.shiftActive && n <= |samples|
    ensures Unended(t, samples, n)
       <==> Undisturbed(t.requests, t.age, samples, n) && t.age + REQUEST_STEP * n < FateOf(t.requests).age
    decreases n
  {
    hide Ok, FateOf, Unended, Undisturbed, AfterFrom, EndedBy, Bites, Ticked;
    if n == 0 {
      NoTicksYet(t, samples);
    } else {
      RunsExactly(t, samples, n - 1);
      FateIsEven(t.requests);
      NoTicksYet(t, samples);
      UnendedLonger(t, samples, n - 1);
      UndisturbedLonger(t.requests, t.age, samples, n - 1);
      if Unended(t, samples, n - 1) {
        UnendedState(t, samples, n - 1);
        ActiveTick(AfterFrom(t, samples[..n - 1]), samples[n - 1]);
      }
    }
  }

  lemma FateIsEven(counter: u8)
    ensures FateOf(counter).age % 2 == 0
  {
  }

  /** A request ends at the first tick that bites or at the age of its fate, whichever is sooner, and nowhere else; at
    its fate with the result and fault of that, and bitten with result 5. */
  lemma EndsExactly(t: Tcu, samples: seq<u32>, n: nat)
    requires Ok(t) && t.shiftActive && n < |samples|
    ensures var age := t.age + REQUEST_STEP * (n + 1); var fate := FateOf(t.requests);
            var bitten := Bites(t.requests, age, samples[n]); var u := AfterFrom(t, samples[..n + 1]);
            && (EndsAt(t, samples, n) <==>
                  Undisturbed(t.requests, t.age, samples, n) && age <= fate.age && (bitten || age == fate.age))
            && (EndsAt(t, samples, n) ==>
                  if bitten then u.resultCode == 5
                  else u.resultCode == fate.resultCode && u.faultCode == fate.faultCode)
  {
    hide Ticked, FateOf, EndedBy, Bites, Unended, Undisturbed, AfterFrom;
    RunsExactly(t, samples, n);
    FateIsEven(t.requests);
    if Unended(t, samples, n) {
      UnendedState(t, samples, n);
      OneTickMore(t, samples, n);
      ActiveTick(AfterFrom(t, samples[..n]), samples[n]);
    }
  }

  lemma OneTickMore(t: Tcu, samples: seq<u32>, n: nat)
    requires n < |samples|
    ensures AfterFrom(t, samples[..n + 1]) == Ticked(AfterFrom(t, samples[..n]), samples[n])
  {
    hide Ticked;
    assert samples[..n + 1][..n] == samples[..n];
  }

  /** A request that nothing bites ends exactly at the age of its fate, with that fate. */
  lemma UndisturbedMeetsItsFate(t: Tcu, samples: seq<u32>)
    requires Ok(t) && t.shiftActive && Undisturbed(t.requests, t.age, samples, |samples|)
    requires |samples| > 0 && t.age + REQUEST_STEP * |samples| == FateOf(t.requests).age
    ensures EndsAt(t, samples, |samples| - 1)
    ensures AfterFrom(t, samples).resultCode == FateOf(t.requests).resultCode
    ensures AfterFrom(t, samples).faultCode == FateOf(t.requests).faultCode
  {
    hide Ticked, FateOf, Bites;
    EndsExactly(t, samples, |samples| - 1);
    assert samples[..|samples|] == samples;
  }

  /** The tick at which a request that has just started comes to age 36. */
  const ACKNOWLEDGE_TICK: nat := DEFAULT_SHIFT_TIMER / REQUEST_STEP - 2

  /** A request that has just started is acknowledged, whatever the ticks bring, exactly when none of 5, 7 and 11
    divides its counter and none of the 17 ticks up to age 36 bites. */
  lemma AcknowledgedExactly(t: Tcu, samples: seq<u32>)
    requires Ok(t) && t.shiftActive && t.age == REQUEST_STEP && |samples| > ACKNOWLEDGE_TICK
    ensures (exists n :: 0 <= n < |samples| && EndsAt(t, samples, n) && AfterFrom(t, samples[..n + 1]).resultCode == 1)
       <==> && t.requests % 5 != 0 && t.requests % 7 != 0 && t.requests % 11 != 0
            && Undisturbed(t.requests, t.age, samples, ACKNOWLEDGE_TICK + 1)
    ensures forall n :: 0 <= n < |samples| && EndsAt(t, samples, n) && AfterFrom(t, samples[..n + 1]).resultCode == 1
                        ==> n == ACKNOWLEDGE_TICK
  {
    hide Ticked, EndsAt, Bites, Undisturbed;
    AcknowledgedFate(t.requests);
    hide FateOf;
    forall n | 0 <= n < |samples| && EndsAt(t, samples, n) && AfterFrom(t, samples[..n + 1]).resultCode == 1
      ensures n == ACKNOWLEDGE_TICK && FateOf(t.requests).resultCode == 1
      ensures Undisturbed(t.requests, t.age, samples, ACKNOWLEDGE_TICK + 1)
    {
      EndsExactly(t, samples, n);
      UndisturbedLonger(t.requests, t.age, samples, n);
    }
    if FateOf(t.requests).resultCode == 1 && Undisturbed(t.requests, t.age, samples, ACKNOWLEDGE_TICK + 1) {
      EndsExactly(t, samples, ACKNOWLEDGE_TICK);
      UndisturbedLonger(t.requests, t.age, samples, ACKNOWLEDGE_TICK);
    }
  }

  /** The first request, number 1, started at sample 31, is lost when the link drops on the next tick. */
  lemma LostWithTheLink(samples: seq<u32>)
    requires |samples| > 0 && samples[0] == 240
    ensures var t := After([31]);
            && t.shiftActive && t.requests == 1 && t.age == REQUEST_STEP
            && EndsAt(t, samples, 0)
            && AfterFrom(t, samples[..1]).resultCode == 5
  {
    FirstRequest();
    hide Ticked, Ok;
    EndsExactly(After([31]), samples, 0);
  }

  /** The same request outlives a receive stream that is stale at ages 4, 6 and 8, and is acknowledged. */
  lemma HarmlessStaleness(samples: seq<u32>)
    requires |samples| == ACKNOWLEDGE_TICK + 1 && samples[..3] == [170, 171, 172]
    requires forall k :: 3 <= k < |samples| ==> samples[k] == 20
    ensures !RxFresh(samples[0]) && !RxFresh(samples[1]) && !RxFresh(samples[2])
    ensures EndsAt(After([31]), samples, ACKNOWLEDGE_TICK)
    ensures AfterFrom(After([31]), samples).resultCode == 1
  {
    hide After, AfterFrom, Ok, EndsAt, RxFresh, Bites, FateOf, Undisturbed;
    FirstRequest();
    assert samples[0] == samples[..3][0] && samples[1] == samples[..3][1] && samples[2] == samples[..3][2];
    forall k | 0 <= k < |samples|
      ensures !Bites(1, REQUEST_STEP + REQUEST_STEP * (k + 1), samples[k])
      ensures k < 3 ==> !RxFresh(samples[k])
    {
      StaleOrFresh(samples[k], k);
    }
    var t := After([31]);
    AcknowledgedFate(1);
    NothingBites(t, samples);
    UndisturbedMeetsItsFate(t, samples);
  }

  lemma StaleOrFresh(sample: u32, k: nat)
    requires if k < 3 then sample == 170 + k else sample == 20
    ensures !Bites(1, REQUEST_STEP + REQUEST_STEP * (k + 1), sample)
    ensures k < 3 ==> !RxFresh(sample)
  {
  }

  lemma NothingBites(t: Tcu, samples: seq<u32>)
    requires t.requests == 1 && t.age == REQUEST_STEP
    requires forall k :: 0 <= k < |samples| ==> !Bites(1, REQUEST_STEP + REQUEST_STEP * (k + 1), samples[k])
    ensures Undisturbed(t.requests, t.age, samples, |samples|)
    ensures FateOf(t.requests) == Fate(DEFAULT_SHIFT_TIMER, 1, 0)
  {
    hide Bites;
  }

  lemma FirstRequest()
    ensures var t := After([31]); Ok(t) && t.shiftActive && t.requests == 1 && t.age == REQUEST_STEP
  {
    RequestsAreConserved([31]);
    hide Ok;
    assert [31][..0] == [];
    assert After([31]) == Ticked(INITIAL, 31);
  }
}
