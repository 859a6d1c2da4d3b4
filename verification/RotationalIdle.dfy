/** The rotational-idle controller of src/rotational_idle.rs: gates, a delay before it activates, and a limit on how
  long it stays active. Temperatures and demands are real numbers. */
module RotationalIdle {
  import opened Bytes

  const ACTIVATION_DELAY: nat := 20
  const MAX_ACTIVE_DURATION: nat := 900
  const STEP: nat := 2
  const MIN_EGT: real := 780.0
  const MAX_ENGINE_DEMAND: real := 8.0
  const HISTOGRAM_SLOTS: nat := 16

  const DISABLED: u8 := 1
  const BELOW_EGT: u8 := 3
  const ABOVE_DEMAND: u8 := 4
  const TIMEOUT: u8 := 8
  const SYNC_GUARD: u8 := 9
  const PROTECTION: u8 := 10

  datatype Idle = Idle(
    active: bool, armed: bool, delay: u16, timer: u16, cutPct: nat, activeCylinders: u8, gate: u8,
    lastSyncLoss: u8, slot: u8, activations: u16, timeouts: u16, syncGuards: u16, totalActive: u32, lastGate: u8)

  datatype State = State(idle: Idle, histogram: seq<u16>)

  datatype Sample = Sample(
    active: bool, armed: bool, cutPct: nat, timer: u16, activeCylinders: u8, gate: u8, syncGuardEvents: u8)

  datatype Input = Input(enabled: bool, sample: u32, egt: real, demand: real, syncLoss: u8, protection: bool)

  function Initial(): (s: State)
    ensures |s.histogram| == HISTOGRAM_SLOTS && forall i :: 0 <= i < HISTOGRAM_SLOTS ==> s.histogram[i] == 0
  {
    State(Idle(false, false, 0, 0, 0, 0, DISABLED, 0, 0, 0, 0, 0, 0, DISABLED), seq(HISTOGRAM_SLOTS, i => 0))
  }

  // ---- what a tick does ----

  /** `wrapping_sub` of the one-byte counters. */
  function SyncDelta(last: u8, input: Input): u8 {
    (input.syncLoss - last) % 256
  }

  /** The first gate that holds the controller back, if any. */
  function GateOf(last: u8, input: Input): Option<u8> {
    if !input.enabled then Some(DISABLED)
    else if input.protection then Some(PROTECTION)
    else if SyncDelta(last, input) > 0 then Some(SYNC_GUARD)
    else if input.egt < MIN_EGT then Some(BELOW_EGT)
    else if input.demand > MAX_ENGINE_DEMAND then Some(ABOVE_DEMAND)
    else None
  }

  function Clamp(x: real, low: real, high: real): real {
    if x < low then low else if x > high then high else x
  }

  /** The share of ignition events to cut, rounded to a whole percentage. */
  function CutPct(slot: u8, egt: real, demand: real): nat {
    var egtBonus := Clamp((if egt > MIN_EGT then egt - MIN_EGT else 0.0) / 120.0, 0.0, 1.0) * 14.0;
    var headroom := Clamp((MAX_ENGINE_DEMAND - demand) / MAX_ENGINE_DEMAND, 0.0, 1.0) * 10.0;
    var bias := if slot % 3 == 0 then -2.0 else if slot % 3 == 1 then 2.0 else 5.0;
    var cut := Clamp(24.0 + egtBonus + headroom + bias, 18.0, 60.0);
    (cut + 0.5).Floor
  }

  function Scheduled(t: Idle, input: Input): Idle {
    var slot := (input.sample / 5) % 6;
    t.(slot := slot, cutPct := CutPct(slot, input.egt, input.demand), activeCylinders := if slot % 3 == 0 then 2 else 3)
  }

  function Gated(s: State, gate: u8): State
    requires |s.histogram| == HISTOGRAM_SLOTS && gate < HISTOGRAM_SLOTS
  {
    State(s.idle.(lastGate := gate, gate := gate, active := false, armed := false, delay := 0, timer := 0,
                  cutPct := 0, activeCylinders := 0),
          s.histogram[gate := SaturatingAdd(s.histogram[gate], 1, U16_MAX)])
  }

  function Activated(t: Idle, input: Input): Idle {
    Scheduled(t.(active := true, timer := 0, activations := SaturatingAdd(t.activations, 1, U16_MAX)), input)
  }

  function Ticked(s: State, input: Input): (u: State)
    requires |s.histogram| == HISTOGRAM_SLOTS
    ensures |u.histogram| == HISTOGRAM_SLOTS
  {
    var delta := SyncDelta(s.idle.lastSyncLoss, input);
    var t := s.idle.(lastSyncLoss := input.syncLoss);
    match GateOf(s.idle.lastSyncLoss, input)
    case Some(gate) =>
      var guards := if gate == SYNC_GUARD then SaturatingAdd(t.syncGuards, delta, U16_MAX) else t.syncGuards;
      Gated(s.(idle := t.(syncGuards := guards)), gate)
    case None =>
      var armed := t.(armed := true, gate := 0);
      if !t.active then
        var d := armed.(delay := SaturatingAdd(t.delay, STEP, U16_MAX));
        s.(idle := if d.delay >= ACTIVATION_DELAY then Activated(d, input) else d)
      else
        var a := Scheduled(armed.(timer := SaturatingAdd(t.timer, STEP, U16_MAX),
                                  totalActive := SaturatingAdd(t.totalActive, STEP, U32_MAX)), input);
        if a.timer >= MAX_ACTIVE_DURATION
        then Gated(s.(idle := a.(timeouts := SaturatingAdd(a.timeouts, 1, U16_MAX))), TIMEOUT)
        else s.(idle := a)
  }

  /** The fields are kept in one record, beside the histogram array. */
  class RotationalIdleRuntime {
    var t: Idle
    const histogram: array<u16>

    ghost predicate Valid()
      reads this
    {
      histogram.Length == HISTOGRAM_SLOTS
    }

    ghost function View(): State
      reads this, histogram
    {
      State(t, histogram[..])
    }

    constructor ()
      ensures Valid() && fresh(histogram) && View() == Initial()
    {
      t := Initial().idle;
      histogram := new u16[HISTOGRAM_SLOTS](i => 0);
    }

    method Tick(input: Input) returns (r: Sample)
      requires Valid()
      modifies this, histogram
      ensures Valid() && View() == Ticked(old(View()), input)
      ensures r.active == t.active && r.armed == t.armed && r.cutPct == t.cutPct && r.timer == t.timer
      ensures r.activeCylinders == t.activeCylinders && r.gate == t.gate
      ensures r.syncGuardEvents == Min(t.syncGuards, 255)
    {
      hide Scheduled;
      var delta := SyncDelta(t.lastSyncLoss, input);
      t := t.(lastSyncLoss := input.syncLoss);
      if !input.enabled {
        ApplyGate(DISABLED);
        return SampleNow();
      }
      if input.protection {
        ApplyGate(PROTECTION);
        return SampleNow();
      }
      if delta > 0 {
        t := t.(syncGuards := SaturatingAdd(t.syncGuards, delta, U16_MAX));
        ApplyGate(SYNC_GUARD);
        return SampleNow();
      }
      if input.egt < MIN_EGT {
        ApplyGate(BELOW_EGT);
        return SampleNow();
      }
      if input.demand > MAX_ENGINE_DEMAND {
        ApplyGate(ABOVE_DEMAND);
        return SampleNow();
      }
      t := t.(armed := true);
      t := t.(gate := 0);
      if !t.active {
        t := t.(delay := SaturatingAdd(t.delay, STEP, U16_MAX));
        if t.delay >= ACTIVATION_DELAY {
          Activate(input);
        }
        return SampleNow();
      }
      t := t.(timer := SaturatingAdd(t.timer, STEP, U16_MAX));
      t := t.(totalActive := SaturatingAdd(t.totalActive, STEP, U32_MAX));
      t := Scheduled(t, input);
      if t.timer >= MAX_ACTIVE_DURATION {
        t := t.(timeouts := SaturatingAdd(t.timeouts, 1, U16_MAX));
        ApplyGate(TIMEOUT);
      }
      r := SampleNow();
    }

    function SampleNow(): Sample
      reads this
    {
      Sample(t.active, t.armed, t.cutPct, t.timer, t.activeCylinders, t.gate, Min(t.syncGuards, 255))
    }

    method Activate(input: Input)
      modifies this
      ensures t == Activated(old(t), input)
    {
      t := t.(active := true);
      t := t.(timer := 0);
      t := t.(activations := SaturatingAdd(t.activations, 1, U16_MAX));
      t := t.(slot := input.sample % 6);
      t := Scheduled(t, input);
    }

    method ApplyGate(gate: u8)
      requires Valid() && gate < HISTOGRAM_SLOTS
      modifies this, histogram
      ensures View() == Gated(old(View()), gate)
    {
      if gate < HISTOGRAM_SLOTS {
        histogram[gate] := SaturatingAdd(histogram[gate], 1, U16_MAX);
      }
      t := t.(lastGate := gate);
      t := t.(active := false, armed := false, delay := 0, timer := 0, cutPct := 0, activeCylinders := 0, gate := gate);
    }
  }

  // ---- one state ----

  ghost predicate Ok(s: State) {
    var t := s.idle;
    && |s.histogram| == HISTOGRAM_SLOTS
    && s.histogram[TIMEOUT] == t.timeouts
    && (if t.active then
          && t.armed && t.gate == 0 && t.timer % 2 == 0 && t.timer < MAX_ACTIVE_DURATION
          && t.activeCylinders in {2, 3} && 22 <= t.cutPct <= 53
        else t.timer == 0 && t.cutPct == 0 && t.delay < ACTIVATION_DELAY && t.delay % 2 == 0)
  }

  /** While no gate holds, the cut stays well inside the range it is clamped to. */
  lemma CutIsModerate(slot: u8, egt: real, demand: real)
    ensures 22 <= CutPct(slot, egt, demand) <= 53
  {
  }

  lemma TickKeepsOk(s: State, input: Input)
    requires Ok(s)
    ensures Ok(Ticked(s, input))
  {
    hide CutPct;
    CutIsModerate((input.sample / 5) % 6, input.egt, input.demand);
  }

  // ---- over every run ----

  function After(inputs: seq<Input>): (s: State)
    ensures |s.histogram| == HISTOGRAM_SLOTS
  {
    if inputs == [] then Initial() else Ticked(After(inputs[..|inputs| - 1]), inputs[|inputs| - 1])
  }

  lemma {:induction false} AlwaysOk(inputs: seq<Input>)
    ensures Ok(After(inputs))
    decreases |inputs|
  {
    hide Ticked, Ok;
    if inputs == [] {
      assert Ok(Initial()) by { InitialOk(); }
    } else {
      AlwaysOk(inputs[..|inputs| - 1]);
      TickKeepsOk(After(inputs[..|inputs| - 1]), inputs[|inputs| - 1]);
    }
  }

  lemma InitialOk()
    ensures Ok(Initial())
  {
  }

  predicate ActivatesOn(s: State, input: Input)
    requires |s.histogram| == HISTOGRAM_SLOTS
  {
    !s.idle.active && Ticked(s, input).idle.active
  }

  /** A tick of active time: the controller was active and no gate held. */
  predicate RunsOn(s: State, input: Input)
    requires |s.histogram| == HISTOGRAM_SLOTS
  {
    s.idle.active && GateOf(s.idle.lastSyncLoss, input).None?
  }

  predicate TimesOutOn(s: State, input: Input)
    requires |s.histogram| == HISTOGRAM_SLOTS
  {
    RunsOn(s, input) && !Ticked(s, input).idle.active
  }

  /** The true counts, which the fields of the controller saturate. */
  datatype Tally = Tally(activations: nat, timeouts: nat, activeTime: nat)

  function TallyOf(inputs: seq<Input>): Tally {
    if inputs == [] then Tally(0, 0, 0)
    else
      var s, input := After(inputs[..|inputs| - 1]), inputs[|inputs| - 1];
      var y := TallyOf(inputs[..|inputs| - 1]);
      Tally(y.activations + (if ActivatesOn(s, input) then 1 else 0),
            y.timeouts + (if TimesOutOn(s, input) then 1 else 0),
            y.activeTime + (if RunsOn(s, input) then STEP else 0))
  }

  /** Every activation accounts for at most 900 centiseconds of active time and every timeout for exactly that. */
  ghost predicate TimeAccountedFor(s: State, y: Tally) {
    if s.idle.active then
      && MAX_ACTIVE_DURATION * y.timeouts + s.idle.timer <= y.activeTime
      && y.activeTime + MAX_ACTIVE_DURATION - s.idle.timer <= MAX_ACTIVE_DURATION * y.activations
    else MAX_ACTIVE_DURATION * y.timeouts <= y.activeTime <= MAX_ACTIVE_DURATION * y.activations
  }

  lemma TickMeaning(s: State, input: Input)
    requires Ok(s)
    ensures var u := Ticked(s, input);
            && (ActivatesOn(s, input) <==> !s.idle.active && GateOf(s.idle.lastSyncLoss, input).None?
                                           && s.idle.delay + STEP == ACTIVATION_DELAY)
            && (TimesOutOn(s, input) <==> RunsOn(s, input) && s.idle.timer + STEP == MAX_ACTIVE_DURATION)
            && u.idle.timer == (if RunsOn(s, input) && !TimesOutOn(s, input) then s.idle.timer + STEP else 0)
            && u.idle.active == (ActivatesOn(s, input) || (RunsOn(s, input) && !TimesOutOn(s, input)))
            && u.idle.lastSyncLoss == input.syncLoss
            && (!u.idle.active ==>
                  u.idle.delay == if !s.idle.active && GateOf(s.idle.lastSyncLoss, input).None?
                                  then s.idle.delay + STEP else 0)
  {
    hide CutPct, GateOf;
  }

  lemma FieldsSaturate(s: State, input: Input)
    requires Ok(s)
    ensures var t, u := s.idle, Ticked(s, input).idle;
            && u.activations == (if ActivatesOn(s, input) then Min(t.activations + 1, U16_MAX) else t.activations)
            && u.timeouts == (if TimesOutOn(s, input) then Min(t.timeouts + 1, U16_MAX) else t.timeouts)
            && u.totalActive == (if RunsOn(s, input) then Min(t.totalActive + STEP, U32_MAX) else t.totalActive)
  {
    hide CutPct, GateOf;
  }

  /** Over any run 900 times the timeouts is at most the active time, which is at most 900 times the activations; the
    fields hold those counts until they saturate, and the histogram counts the timeouts. */
  lemma {:induction false} ActiveTimeIsBounded(inputs: seq<Input>)
    ensures var s, y := After(inputs), TallyOf(inputs);
            && TimeAccountedFor(s, y)
            && s.idle.activations == Min(y.activations, U16_MAX)
            && s.idle.timeouts == Min(y.timeouts, U16_MAX) == s.histogram[TIMEOUT]
            && s.idle.totalActive == Min(y.activeTime, U32_MAX)
            && 900 * y.timeouts <= y.activeTime <= 900 * y.activations
    decreases |inputs|
  {
    hide Ticked, GateOf;
    AlwaysOk(inputs);
    if inputs == [] {
    } else {
      var front, last := inputs[..|inputs| - 1], inputs[|inputs| - 1];
      ActiveTimeIsBounded(front);
      AlwaysOk(front);
      TickMeaning(After(front), last);
      FieldsSaturate(After(front), last);
      hide TimesOutOn, ActivatesOn, RunsOn;
      assert TimesOutOn(After(front), last) ==> RunsOn(After(front), last) by { TickMeaning(After(front), last); }
    }
  }

  /** No gate held on the `n`-th tick. */
  predicate Ungated(inputs: seq<Input>, n: nat)
    requires n < |inputs|
  {
    GateOf(if n == 0 then 0 else inputs[n - 1].syncLoss, inputs[n]).None?
  }

  lemma LastSyncLoss(inputs: seq<Input>)
    ensures After(inputs).idle.lastSyncLoss == if inputs == [] then 0 else inputs[|inputs| - 1].syncLoss
  {
    if inputs != [] {
      AlwaysOk(inputs[..|inputs| - 1]);
      TickMeaning(After(inputs[..|inputs| - 1]), inputs[|inputs| - 1]);
    }
  }

  /** While inactive the delay counts the ticks, back from the last, on which no gate held. */
  lemma {:induction false} DelayCountsUngatedTicks(inputs: seq<Input>)
    requires !After(inputs).idle.active
    ensures var d := After(inputs).idle.delay / STEP;
            && d <= |inputs|
            && forall n :: |inputs| - d <= n < |inputs| ==> Ungated(inputs, n)
    decreases |inputs|
  {
    hide Ticked, GateOf;
    if inputs == [] {
    } else {
      var front, last := inputs[..|inputs| - 1], inputs[|inputs| - 1];
      AlwaysOk(front);
      TickMeaning(After(front), last);
      LastSyncLoss(front);
      if !After(front).idle.active && Ungated(inputs, |front|) {
        DelayCountsUngatedTicks(front);
        assert forall n :: 0 <= n < |front| ==> Ungated(front, n) == Ungated(inputs, n);
      }
    }
  }

  /** The controller activates only on the tenth of ten consecutive ticks on which no gate held. */
  lemma ActivationIsEarned(inputs: seq<Input>, input: Input)
    requires ActivatesOn(After(inputs), input)
    ensures var all := inputs + [input];
            && |all| >= 10
            && forall n :: |all| - 10 <= n < |all| ==> Ungated(all, n)
  {
    hide Ticked, GateOf;
    var all := inputs + [input];
    AlwaysOk(inputs);
    TickMeaning(After(inputs), input);
    LastSyncLoss(inputs);
    DelayCountsUngatedTicks(inputs);
    assert forall n :: 0 <= n < |inputs| ==> Ungated(inputs, n) == Ungated(all, n);
  }

  /** The delay of a controller at rest grows by two at each ungated tick and starts again at a gated one, and the tick
    that brings it to 20 activates the controller. */
  lemma ActivatesExactly(s: State, input: Input)
    requires Ok(s) && !s.idle.active
    ensures var u := Ticked(s, input).idle;
            var gated := GateOf(s.idle.lastSyncLoss, input).Some?;
            && u.delay == (if gated then 0 else s.idle.delay + 2)
            && (u.active <==> u.delay == 20)
  {
    hide CutPct;
  }

  // ---- what the gates promise ----

  /** The gates by their codes, the first that applies: disabled 1, protection 10, lost sync 9, too cold 3, too much
    demand 4. Nothing else holds the controller back. */
  lemma GateExactly(last: u8, input: Input)
    ensures var g := GateOf(last, input);
            var synced := input.syncLoss == last;
            && (g == Some(1) <==> !input.enabled)
            && (g == Some(10) <==> input.enabled && input.protection)
            && (g == Some(9) <==> input.enabled && !input.protection && !synced)
            && (g == Some(3) <==> input.enabled && !input.protection && synced && input.egt < 780.0)
            && (g == Some(4) <==>
                  input.enabled && !input.protection && synced && input.egt >= 780.0 && input.demand > 8.0)
            && (g == None <==>
                  input.enabled && !input.protection && synced && input.egt >= 780.0 && input.demand <= 8.0)
  {
  }

  /** Whenever the controller is active, and so whenever it cuts, the last tick found it enabled, no protection
    tripped, the sync kept since the tick before, the exhaust hot enough and the demand low enough. */
  lemma ActiveMeansSafe(inputs: seq<Input>)
    requires inputs != [] && (After(inputs).idle.active || After(inputs).idle.cutPct > 0)
    ensures var input := inputs[|inputs| - 1];
            && input.enabled && !input.protection && input.egt >= 780.0 && input.demand <= 8.0
            && input.syncLoss == if |inputs| == 1 then 0 else inputs[|inputs| - 2].syncLoss
  {
    hide Ticked, GateOf, TallyOf;
    var front, last := inputs[..|inputs| - 1], inputs[|inputs| - 1];
    AlwaysOk(inputs);
    AlwaysOk(front);
    TickMeaning(After(front), last);
    GateExactly(After(front).idle.lastSyncLoss, last);
    LastSyncLoss(front);
  }

  /** A tick on which a gate holds stops the controller at once, and says which gate it was. */
  lemma GateStops(s: State, input: Input)
    requires Ok(s) && GateOf(s.idle.lastSyncLoss, input).Some?
    ensures var u := Ticked(s, input).idle;
            && !u.active && !u.armed && u.cutPct == 0 && u.timer == 0 && u.delay == 0
            && u.gate == u.lastGate == GateOf(s.idle.lastSyncLoss, input).value
  {
    hide Scheduled;
  }

  /** The ticks among the first `n` after which the gate code was `g`. */
  function TicksAtGate(inputs: seq<Input>, g: u8): nat {
    if inputs == [] then 0
    else TicksAtGate(inputs[..|inputs| - 1], g) + if After(inputs).idle.gate == g then 1 else 0
  }

  lemma SlotStep(s: State, input: Input, g: u8)
    requires Ok(s) && 0 < g < HISTOGRAM_SLOTS
    ensures Ticked(s, input).histogram[g]
         == (if Ticked(s, input).idle.gate == g
             then Min((s.histogram[g] as int) + 1, U16_MAX) else s.histogram[g] as int)
  {
    hide Scheduled, CutPct;
    ScheduledKeepsGate(s.idle, input);
  }

  lemma ScheduledKeepsGate(t: Idle, input: Input)
    ensures forall u: Idle :: Scheduled(u, input).gate == u.gate
  {
    hide CutPct;
  }

  /** Every slot of the histogram counts the ticks that ended at that gate, until it saturates. */
  lemma {:induction false} HistogramCounts(inputs: seq<Input>, g: u8)
    requires 0 < g < HISTOGRAM_SLOTS
    ensures After(inputs).histogram[g] == Min(TicksAtGate(inputs, g), U16_MAX)
    decreases |inputs|
  {
    hide Ticked;
    if inputs == [] {
    } else {
      var front, last := inputs[..|inputs| - 1], inputs[|inputs| - 1];
      HistogramCounts(front, g);
      AlwaysOk(front);
      SlotStep(After(front), last, g);
    }
  }

  /** The cut at its least and at its most, and more of it the hotter the exhaust and the lower the demand. */
  lemma CutExtremes()
    ensures CutPct(0, 780.0, 8.0) == 22 && CutPct(1, 780.0, 8.0) == 26 && CutPct(2, 780.0, 8.0) == 29
    ensures CutPct(0, 900.0, 0.0) == 46 && CutPct(1, 900.0, 0.0) == 50 && CutPct(2, 900.0, 0.0) == 53
  {
  }

  lemma CutFollows(slot: u8, egt: real, hotter: real, demand: real, lower: real)
    requires egt <= hotter && lower <= demand
    ensures CutPct(slot, egt, demand) <= CutPct(slot, hotter, lower)
  {
  }

  /** A tick that leaves the controller active sets its schedule: the slot moves on every five samples, through six, and
    two cylinders are cut in the first and fourth slot and three in the others. */
  lemma ScheduleExactly(s: State, input: Input)
    requires Ok(s) && Ticked(s, input).idle.active
    ensures var u := Ticked(s, input).idle;
            && u.slot == input.sample / 5 % 6
            && u.activeCylinders == (if u.slot == 0 || u.slot == 3 then 2 else 3)
            && u.cutPct == CutPct(u.slot, input.egt, input.demand)
            && u.armed && u.gate == 0
  {
    hide CutPct, GateOf;
  }

  /** The controller is stopped with the code 8 exactly by the ungated tick that finds it active for 900 centiseconds,
    this tick's two included. */
  lemma TimesOutExactly(s: State, input: Input)
    requires Ok(s)
    ensures var u := Ticked(s, input);
            var late := s.idle.active && GateOf(s.idle.lastSyncLoss, input).None? && s.idle.timer + 2 >= 900;
            && (u.idle.gate == 8 <==> late)
            && (late ==> !u.idle.active && u.idle.lastGate == 8
                         && |u.histogram| == |s.histogram| == 16
                         && u.histogram[8] == u.idle.timeouts == SaturatingAdd(s.histogram[8], 1, 65535))
  {
    hide CutPct;
  }

  /** The losses of sync seen at the ticks that were gated for one. */
  function SyncLosses(inputs: seq<Input>): nat {
    if inputs == [] then 0
    else
      var front, last := inputs[..|inputs| - 1], inputs[|inputs| - 1];
      var before := if front == [] then 0 else front[|front| - 1].syncLoss;
      SyncLosses(front)
      + if After(inputs).idle.gate == 9 then (last.syncLoss + 256 - before) % 256 else 0
  }

  lemma GuardStep(s: State, input: Input)
    requires Ok(s)
    ensures Ticked(s, input).idle.syncGuards
         == if Ticked(s, input).idle.gate == 9
            then Min((s.idle.syncGuards as int) + (input.syncLoss + 256 - s.idle.lastSyncLoss) % 256, U16_MAX)
            else s.idle.syncGuards as int
  {
    hide Scheduled;
    ScheduledKeeps(s.idle, input);
    assert (input.syncLoss + 256 - s.idle.lastSyncLoss) % 256 == SyncDelta(s.idle.lastSyncLoss, input);
  }

  lemma ScheduledKeeps(t: Idle, input: Input)
    ensures forall u: Idle :: Scheduled(u, input).gate == u.gate && Scheduled(u, input).syncGuards == u.syncGuards
  {
    hide CutPct;
  }

  /** The guard total is the sum of those losses, until it saturates. */
  lemma {:induction false} SyncGuardsCount(inputs: seq<Input>)
    ensures After(inputs).idle.syncGuards == Min(SyncLosses(inputs), U16_MAX)
    decreases |inputs|
  {
    hide Ticked;
    if inputs == [] {
    } else {
      var front, last := inputs[..|inputs| - 1], inputs[|inputs| - 1];
      SyncGuardsCount(front);
      AlwaysOk(front);
      LastSyncLoss(front);
      GuardStep(After(front), last);
    }
  }
}
