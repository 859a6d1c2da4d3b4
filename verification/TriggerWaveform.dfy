/** The synthesized trigger waveform of src/trigger_runtime.rs, with gap ratios and sample positions as exact
  rationals rounded to the nearest integer, halves up. */
module TriggerWaveform {
  import opened Bytes
  import opened TriggerModel

  const SAMPLES: nat := 128
  const LAST_POSITION: nat := 126
  /** No interval can be longer, so no sum of them saturates. */
  const LONGEST: nat := 15_000_000

  // ---- intervals ----

  function CaptureWindow(cycleDeg: u16, rpm: u16): u32 {
    Max(Min(60_000_000 / Max(rpm, 1) * cycleDeg, U32_MAX) / 360, 1)
  }

  function Rpm(counter: u32): u16 {
    780 + counter % 180
  }

  function EventCount(primaryEvents: u16): nat {
    Clamp(Max(primaryEvents, 4), 6, 96)
  }

  /** Tooth `i` before any gap: within three fortieths of the base interval. */
  function Jittered(base: nat, counter: u32, i: nat): nat {
    Max(base + ((counter + i) % 0x1_0000_0000 % 7 - 3) * Max(base / 40, 1), 1)
  }

  function Round(num: nat, den: nat): nat
    requires den > 0
  {
    (2 * num + den) / (2 * den)
  }

  function Stretched(v: nat, r: Ratio): nat
    requires r.den > 0
  {
    Max(Round(v * r.num, r.den), 1)
  }

  function Interval(base: nat, counter: u32, n: nat, gap: Option<Ratio>, i: nat): nat
    requires gap.Some? ==> gap.value.den > 0
  {
    var v := Jittered(base, counter, i);
    if gap.Some? && i == n / 2 then Stretched(v, gap.value) else v
  }

  lemma QuotientAtLeast(a: nat, d: nat, q: nat)
    requires d > 0 && q * d <= a
    ensures a / d >= q
  {
    var r := a / d;
    if r < q {
      assert (r + 1) * d <= q * d by { Scale(r + 1, q, d); }
    }
  }

  lemma QuotientAtMost(a: nat, d: nat, q: nat)
    requires d > 0 && a < (q + 1) * d
    ensures a / d <= q
  {
    var r := a / d;
    if r > q {
      assert (q + 1) * d <= r * d by { Scale(q + 1, r, d); }
    }
  }

  lemma Scale(x: nat, y: nat, d: nat)
    requires x <= y
    ensures x * d <= y * d
  {
  }

  /** Two revolutions at 780 to 959 rpm. */
  lemma WindowBounds(counter: u32)
    ensures 125_130 <= CaptureWindow(FOUR_STROKE_DEG, Rpm(counter)) <= 153_846
  {
    var rpm := Rpm(counter);
    Scale(rpm, 959, 62_565);
    QuotientAtLeast(60_000_000, rpm, 62_565);
    Scale(780, rpm, 76_924);
    QuotientAtMost(60_000_000, rpm, 76_923);
  }

  /** The window is two revolutions, at 780 rpm and up to 179 more, by the tick. */
  lemma WindowIsTwoRevolutions(counter: u32)
    ensures Rpm(counter) == 780 + counter % 180
    ensures CaptureWindow(FOUR_STROKE_DEG, Rpm(counter)) == 2 * (60_000_000 / Rpm(counter))
  {
    WindowBounds(counter);
  }

  lemma BaseBounds(window: nat, n: nat)
    requires 125_130 <= window <= 153_846 && 6 <= n <= 96
    ensures 1303 <= window / n <= 25_641
  {
    Scale(n, 96, 1303);
    QuotientAtLeast(window, n, 1303);
    Scale(6, n, 25_642);
    QuotientAtMost(window, n, 25_641);
  }

  lemma JitterBounds(base: nat, counter: u32, i: nat)
    requires 1303 <= base <= 25_641
    ensures 37 * base <= 40 * Jittered(base, counter, i) <= 43 * base
  {
    var j := (counter + i) % 0x1_0000_0000 % 7 - 3;
    var step := Max(base / 40, 1);
    assert -3 * step <= j * step <= 3 * step;
  }

  /** The jitter is fair: any seven teeth in a row, away from the wrap of the counter, add up to seven base intervals.
    */
  lemma JitterEvensOut(base: nat, counter: u32, i: nat)
    requires 1303 <= base && counter + i + 6 <= U32_MAX
    ensures Jittered(base, counter, i) + Jittered(base, counter, i + 1) + Jittered(base, counter, i + 2)
            + Jittered(base, counter, i + 3) + Jittered(base, counter, i + 4) + Jittered(base, counter, i + 5)
            + Jittered(base, counter, i + 6)
         == 7 * base
  {
    hide Jittered;
    var r := (counter + i) % 7;
    JitteredAt(base, counter, i, r, 0);
    JitteredAt(base, counter, i + 1, r, 1);
    JitteredAt(base, counter, i + 2, r, 2);
    JitteredAt(base, counter, i + 3, r, 3);
    JitteredAt(base, counter, i + 4, r, 4);
    JitteredAt(base, counter, i + 5, r, 5);
    JitteredAt(base, counter, i + 6, r, 6);
    SevenSteps(Max(base / 40, 1), r);
  }

  /** Where tooth `r + k` of a cycle of seven lies, from -3 to 3. */
  function Lag(r: nat, k: nat): int {
    (if r + k < 7 then r + k else r + k - 7) - 3
  }

  lemma JitteredAt(base: nat, counter: u32, i: nat, r: nat, k: nat)
    requires 1303 <= base && counter + i <= U32_MAX && k < 7 && r < 7 && i >= k && (counter + i - k) % 7 == r
    ensures Jittered(base, counter, i) == base + Lag(r, k) * Max(base / 40, 1)
  {
    ResidueMoves(counter + i - k, k, r);
    LagIsSmall(r, k, Max(base / 40, 1));
    assert (counter + i) % 0x1_0000_0000 == counter + i;
    hide Lag;
  }

  lemma ResidueMoves(a: nat, k: nat, r: nat)
    requires a % 7 == r && k < 7
    ensures (a + k) % 7 == Lag(r, k) + 3
  {
  }

  lemma LagIsSmall(r: nat, k: nat, step: nat)
    requires r < 7 && k < 7
    ensures -3 * step <= Lag(r, k) * step
  {
  }

  lemma SevenSteps(step: nat, r: nat)
    requires r < 7
    ensures Lag(r, 0) * step + Lag(r, 1) * step + Lag(r, 2) * step + Lag(r, 3) * step
            + Lag(r, 4) * step + Lag(r, 5) * step + Lag(r, 6) * step == 0
  {
  }

  /** A stretched tooth is longer than any other, and still not too long. */
  lemma StretchedBounds(base: nat, v: nat, r: Ratio)
    requires 1303 <= base <= 25_641 && 37 * base <= 40 * v <= 43 * base
    requires r.den == 1 || r.den == 100
    requires 145 * r.den <= 100 * r.num && r.num <= 512 * r.den
    ensures 43 * base < 40 * Stretched(v, r) && Stretched(v, r) <= LONGEST
  {
    var product := v * r.num;
    Scale(r.num, 512 * r.den, v);
    if r.den == 1 {
      Scale(2, r.num, v);
    } else {
      Scale(145, r.num, v);
    }
  }

  lemma IntervalBounds(base: nat, counter: u32, n: nat, gap: Option<Ratio>, i: nat)
    requires 1303 <= base <= 25_641
    requires gap.Some? ==>
               var r := gap.value;
               (r.den == 1 || r.den == 100) && 145 * r.den <= 100 * r.num && r.num <= 512 * r.den
    ensures 1 <= Interval(base, counter, n, gap, i) <= LONGEST
    ensures if gap.Some? && i == n / 2 then 40 * Interval(base, counter, n, gap, i) > 43 * base
            else 37 * base <= 40 * Interval(base, counter, n, gap, i) <= 43 * base
  {
    JitterBounds(base, counter, i);
    if gap.Some? && i == n / 2 {
      StretchedBounds(base, Jittered(base, counter, i), gap.value);
    }
    hide Jittered, Stretched;
  }

  // ---- positions ----

  function Sum(s: seq<nat>): nat {
    if s == [] then 0 else Sum(s[..|s| - 1]) + s[|s| - 1]
  }

  lemma {:induction false} SumBound(s: seq<nat>, bound: nat)
    requires forall i :: 0 <= i < |s| ==> 1 <= s[i] <= bound
    ensures |s| <= Sum(s) <= bound * |s|
    decreases |s|
  {
    if s == [] {
    } else {
      SumBound(s[..|s| - 1], bound);
    }
  }

  lemma {:induction false} SumOfPrefix(s: seq<nat>, i: nat)
    requires i <= |s|
    ensures Sum(s[..i]) <= Sum(s)
    decreases |s|
  {
    if i == |s| {
      assert s[..i] == s;
    } else {
      assert s[..|s| - 1][..i] == s[..i];
      SumOfPrefix(s[..|s| - 1], i);
    }
  }

  /** Where the pulse that ends interval `i` is drawn. */
  function Position(intervals: seq<nat>, i: nat): nat
    requires i < |intervals|
  {
    Min(Round(LAST_POSITION * Sum(intervals[..i + 1]), Max(Sum(intervals), 1)), LAST_POSITION)
  }

  /** Pulses are drawn from left to right and the last one ends the picture. */
  lemma PositionsAdvance(intervals: seq<nat>)
    requires |intervals| > 0 && Sum(intervals) > 0
    ensures forall i, j :: 0 <= i < j < |intervals| ==> Position(intervals, i) <= Position(intervals, j)
    ensures Position(intervals, |intervals| - 1) == LAST_POSITION
  {
    var total := Sum(intervals);
    forall i, j | 0 <= i < j < |intervals|
      ensures Position(intervals, i) <= Position(intervals, j)
    {
      assert intervals[..j + 1][..i + 1] == intervals[..i + 1];
      SumOfPrefix(intervals[..j + 1], i + 1);
      RoundMonotone(LAST_POSITION * Sum(intervals[..i + 1]), LAST_POSITION * Sum(intervals[..j + 1]), total);
    }
    assert intervals[..|intervals|] == intervals;
    QuotientAtLeast(2 * (LAST_POSITION * total) + total, 2 * total, LAST_POSITION);
  }

  lemma RoundMonotone(a: nat, b: nat, den: nat)
    requires a <= b && den > 0
    ensures Round(a, den) <= Round(b, den)
  {
    var q := (2 * a + den) / (2 * den);
    QuotientAtLeast(2 * b + den, 2 * den, q);
  }

  /** The samples are set exactly where a pulse of that width starts. */
  ghost predicate Drawn(samples: seq<byte>, starts: seq<nat>, width: nat) {
    && |samples| == SAMPLES
    && forall k :: 0 <= k < SAMPLES ==>
         samples[k] == if exists i :: 0 <= i < |starts| && starts[i] <= k < starts[i] + width then 1 else 0
  }

  lemma DrawnOneMore(before: seq<byte>, starts: seq<nat>, width: nat, start: nat, after: seq<byte>)
    requires Drawn(before, starts, width) && start + width <= SAMPLES && |after| == SAMPLES
    requires forall k :: 0 <= k < SAMPLES ==> after[k] == if start <= k < start + width then 1 else before[k]
    ensures Drawn(after, starts + [start], width)
  {
    var all := starts + [start];
    forall k | 0 <= k < SAMPLES
      ensures after[k] == if exists i :: 0 <= i < |all| && all[i] <= k < all[i] + width then 1 else 0
    {
      if start <= k < start + width {
        assert all[|starts|] == start;
      } else if i :| 0 <= i < |starts| && starts[i] <= k < starts[i] + width {
        assert all[i] == starts[i];
      }
    }
  }

  // ---- secondary events ----

  function SecondaryIndex(n: nat, slots: nat, slot: nat): nat
    requires n > 0
  {
    Clamp((slot + 1) * n / (slots + 1), 0, n - 1)
  }

  /** With a slot or two on at least six teeth the indexes differ, so sorting and removing duplicates changes
    nothing. */
  lemma SecondaryIndexesAdvance(n: nat, slots: nat)
    requires n >= 6 && slots <= 2
    ensures forall s, t :: 0 <= s < t < slots ==> SecondaryIndex(n, slots, s) < SecondaryIndex(n, slots, t)
    ensures forall s :: 0 <= s < slots ==> 0 < SecondaryIndex(n, slots, s) < n - 1
  {
    OneSlot(n);
    TwoSlots(n);
    hide SecondaryIndex;
  }

  /** One secondary event falls in the middle, two on the thirds. */
  lemma SecondaryIndexesAre(n: nat)
    requires n >= 6
    ensures SecondaryIndex(n, 1, 0) == n / 2
    ensures SecondaryIndex(n, 2, 0) == n / 3 && SecondaryIndex(n, 2, 1) == 2 * n / 3
  {
    assert 1 * n / 2 == n / 2 && 1 * n / 3 == n / 3;
  }

  lemma OneSlot(n: nat)
    requires n >= 6
    ensures 0 < SecondaryIndex(n, 1, 0) < n - 1
  {
    assert 1 * n / 2 == n / 2;
  }

  lemma TwoSlots(n: nat)
    requires n >= 6
    ensures 0 < SecondaryIndex(n, 2, 0) < SecondaryIndex(n, 2, 1) < n - 1
  {
    assert 1 * n / 3 == n / 3;
  }

  // ---- the whole picture ----

  datatype Waveform = Waveform(
    rpm: u16, captureWindow: u32, samplePeriod: u16, toothCount: u16, syncGapTeeth: u8, primaryEdges: u16,
    secondaryEdges: u16, primarySamples: seq<byte>, secondarySamples: seq<byte>, reference: u16,
    gapRatio: real, intervals: seq<u32>, secondaryIndexes: seq<u16>)

  function Starts(intervals: seq<nat>): (s: seq<nat>)
    ensures |s| == |intervals| && forall i :: 0 <= i < |s| ==> s[i] == Position(intervals, i)
  {
    seq(|intervals|, i requires 0 <= i < |intervals| => Position(intervals, i))
  }

  function SecondaryStarts(intervals: seq<nat>, indexes: seq<nat>): (s: seq<nat>)
    requires forall k :: 0 <= k < |indexes| ==> indexes[k] < |intervals|
    ensures |s| == |indexes|
  {
    seq(|indexes|, k requires 0 <= k < |indexes| => Min(Position(intervals, indexes[k]), LAST_POSITION - 1))
  }

  /** The reference tooth is the one longest interval. */
  ghost predicate UniqueLongest(intervals: seq<nat>, k: nat) {
    k < |intervals| && forall i :: 0 <= i < |intervals| && i != k ==> intervals[i] < intervals[k]
  }

  predicate Spaced(intervals: seq<nat>, window: nat, counter: u32, gap: Option<Ratio>) {
    var n := |intervals|;
    && n > 0
    && (gap.Some? ==> gap.value.den > 0)
    && forall i :: 0 <= i < n ==> intervals[i] == Interval(window / n, counter, n, gap, i)
  }

  ghost predicate DepictsTeeth(w: Waveform, p: Profile, counter: u32) {
    var n := EventCount(p.primaryEvents);
    && w.rpm == Rpm(counter)
    && w.captureWindow == CaptureWindow(p.cycleDeg, w.rpm)
    && SAMPLES * w.samplePeriod <= w.captureWindow < SAMPLES * (w.samplePeriod + 1)
    && |w.intervals| == w.toothCount == n
    && Spaced(w.intervals, w.captureWindow, counter, p.gapRatio)
    && w.primaryEdges == 2 * n
    && Drawn(w.primarySamples, Starts(w.intervals), 2)
  }

  ghost predicate DepictsSecondary(w: Waveform, p: Profile) {
    && |w.intervals| > 0
    && |w.secondaryIndexes| == p.secondaryEvents
    && (forall s :: 0 <= s < |w.secondaryIndexes| ==> w.secondaryIndexes[s] < |w.intervals|)
    && (forall s :: 0 <= s < |w.secondaryIndexes| ==>
          w.secondaryIndexes[s] == SecondaryIndex(|w.intervals|, p.secondaryEvents, s))
    && w.secondaryEdges == 2 * |w.secondaryIndexes|
    && Drawn(w.secondarySamples, SecondaryStarts(w.intervals, w.secondaryIndexes), 3)
  }

  /** The gap ratio is the gap over the mean of the other teeth. */
  ghost predicate DepictsGap(w: Waveform, p: Profile) {
    && |w.intervals| > 0
    && w.syncGapTeeth == p.syncGapTeeth
    && w.reference == (if p.gapRatio.Some? then |w.intervals| / 2 else Min(p.reference, |w.intervals| - 1))
    && if p.gapRatio.Some? then IsGapRatio(w.gapRatio, w.intervals, w.reference) else w.gapRatio == 1.0
  }

  ghost predicate IsGapRatio(ratio: real, intervals: seq<nat>, gap: nat) {
    && gap < |intervals|
    && ratio > 1.0
    && ratio * (Sum(intervals) - intervals[gap]) as real == intervals[gap] as real * (|intervals| - 1) as real
  }

  ghost predicate Depicts(w: Waveform, p: Profile, counter: u32) {
    DepictsTeeth(w, p, counter) && DepictsSecondary(w, p) && DepictsGap(w, p)
  }

  lemma IntervalsBounded(w: Waveform, p: Profile, counter: u32, i: nat)
    requires Drawable(p) && Depicts(w, p, counter) && i < |w.intervals|
    ensures 1 <= w.intervals[i] <= LONGEST
    ensures var base := w.captureWindow / |w.intervals|;
            if p.gapRatio.Some? && i == w.reference then 40 * w.intervals[i] > 43 * base
            else 37 * base <= 40 * w.intervals[i] <= 43 * base
  {
    var n := |w.intervals|;
    WindowBounds(counter);
    BaseBounds(w.captureWindow, n);
    IntervalBounds(w.captureWindow / n, counter, n, p.gapRatio, i);
    hide *;
  }

  /** What a decoder looks for. */
  ghost predicate Decodable(w: Waveform, p: Profile) {
    && |w.intervals| > 0 && |w.primarySamples| == SAMPLES
    && (p.gapRatio.Some? ==> UniqueLongest(w.intervals, w.reference))
    && (forall i, j :: 0 <= i < j < |w.intervals| ==> Position(w.intervals, i) <= Position(w.intervals, j))
    && Position(w.intervals, |w.intervals| - 1) == LAST_POSITION
    && w.primarySamples[LAST_POSITION] == w.primarySamples[LAST_POSITION + 1] == 1
    && (forall s, t :: 0 <= s < t < |w.secondaryIndexes| ==> w.secondaryIndexes[s] < w.secondaryIndexes[t])
    && (forall s :: 0 <= s < |w.secondaryIndexes| ==> w.secondaryIndexes[s] < |w.intervals|)
  }

  /** The picture of any profile that page 0 can select shows what a decoder looks for: a gap profile has its
    reference at the one longest tooth, other teeth are within three fortieths of the even spacing, pulses advance to
    the last position, and secondary events are distinct teeth in order. */
  lemma PictureIsDecodable(w: Waveform, p: Profile, counter: u32)
    requires Drawable(p) && Depicts(w, p, counter)
    ensures Decodable(w, p)
  {
    hide Interval, CaptureWindow, Position;
    var n := |w.intervals|;
    forall i | 0 <= i < n
      ensures 1 <= w.intervals[i] <= LONGEST
      ensures p.gapRatio.Some? && i != w.reference ==> w.intervals[i] < w.intervals[w.reference]
    {
      IntervalsBounded(w, p, counter, i);
      IntervalsBounded(w, p, counter, w.reference);
    }
    SumBound(w.intervals, LONGEST);
    PositionsAdvance(w.intervals);
    SecondaryIndexesAdvance(n, p.secondaryEvents);
    assert Starts(w.intervals)[n - 1] == LAST_POSITION;
  }

  /** How many teeth are drawn. */
  lemma EventCountExactly(primaryEvents: u16)
    ensures EventCount(primaryEvents)
         == if primaryEvents < 6 then 6 else if primaryEvents > 96 then 96 else primaryEvents
  {
  }

  lemma RoundBounds(num: nat, den: nat)
    requires den > 0
    ensures var r := Round(num, den); 2 * den * r <= 2 * num + den < 2 * den * r + 2 * den
  {
  }

  /** A pulse is drawn at the sample nearest to its share of the picture, 126 samples for all the intervals, and at the
    later one of two that are as near. */
  lemma PositionIsNearest(intervals: seq<nat>, i: nat)
    requires i < |intervals| && Sum(intervals) > 0
    ensures var k, total := Position(intervals, i), Sum(intervals);
            (2 * k - 1) * total <= 2 * 126 * Sum(intervals[..i + 1]) < (2 * k + 1) * total
  {
    hide Round, Sum;
    SumOfPrefix(intervals, i + 1);
    NearestShare(Sum(intervals[..i + 1]), Sum(intervals));
  }

  lemma NearestShare(part: nat, total: nat)
    requires part <= total && total > 0
    ensures var k := Round(126 * part, total); k <= 126 && (2 * k - 1) * total <= 252 * part < (2 * k + 1) * total
  {
    hide Round;
    var k := Round(126 * part, total);
    RoundBounds(126 * part, total);
    assert 2 * total * k == 2 * (k * total);
    if k > 126 {
      Scale(127, k, total);
    }
  }

  /** The gap tooth is stretched by the ratio, to the nearest microsecond. */
  lemma GapIsStretched(base: nat, counter: u32, n: nat, gap: Ratio)
    requires gap.den > 0 && n > 0
    ensures var plain, wide := Jittered(base, counter, n / 2), Interval(base, counter, n, Some(gap), n / 2);
            wide > 1 ==> (2 * wide - 1) * gap.den <= 2 * plain * gap.num < (2 * wide + 1) * gap.den
  {
    hide Round, Jittered;
    RoundBounds(Jittered(base, counter, n / 2) * gap.num, gap.den);
  }

  /** Which samples are set: two at each primary pulse, and three at the pulse of each secondary tooth, moved to the
    left by one where the last pulse leaves no room for three. */
  lemma SamplesExactly(w: Waveform, p: Profile, counter: u32)
    requires Depicts(w, p, counter)
    ensures |w.primarySamples| == |w.secondarySamples| == 128
    ensures forall k :: 0 <= k < 128 ==>
              w.primarySamples[k]
              == if exists i :: 0 <= i < |w.intervals| && k - 1 <= Position(w.intervals, i) <= k then 1 else 0
    ensures forall s :: 0 <= s < |w.secondaryIndexes| ==> w.secondaryIndexes[s] < |w.intervals|
    ensures forall k :: 0 <= k < 128 ==>
              w.secondarySamples[k]
              == if exists s :: 0 <= s < |w.secondaryIndexes|
                                && var q := Position(w.intervals, w.secondaryIndexes[s]);
                                   (if q > 125 then 125 else q) <= k < (if q > 125 then 125 else q) + 3
                 then 1 else 0
  {
    hide Position, Spaced, CaptureWindow;
    var starts := Starts(w.intervals);
    forall k | 0 <= k < 128
      ensures w.primarySamples[k]
           == if exists i :: 0 <= i < |w.intervals| && k - 1 <= Position(w.intervals, i) <= k then 1 else 0
    {
      if i :| 0 <= i < |starts| && starts[i] <= k < starts[i] + 2 {
        assert k - 1 <= Position(w.intervals, i) <= k;
      }
      if i :| 0 <= i < |w.intervals| && k - 1 <= Position(w.intervals, i) <= k {
        assert starts[i] <= k < starts[i] + 2;
      }
    }
    SecondarySamplesExactly(w);
  }

  lemma SecondarySamplesExactly(w: Waveform)
    requires forall s :: 0 <= s < |w.secondaryIndexes| ==> w.secondaryIndexes[s] < |w.intervals|
    requires Drawn(w.secondarySamples, SecondaryStarts(w.intervals, w.secondaryIndexes), 3)
    ensures forall k :: 0 <= k < 128 ==>
              w.secondarySamples[k]
              == if exists s :: 0 <= s < |w.secondaryIndexes|
                                && var q := Position(w.intervals, w.secondaryIndexes[s]);
                                   (if q > 125 then 125 else q) <= k < (if q > 125 then 125 else q) + 3
                 then 1 else 0
  {
    hide Position;
    var starts := SecondaryStarts(w.intervals, w.secondaryIndexes);
    forall k | 0 <= k < 128
      ensures w.secondarySamples[k]
           == if exists s :: 0 <= s < |w.secondaryIndexes|
                             && var q := Position(w.intervals, w.secondaryIndexes[s]);
                                (if q > 125 then 125 else q) <= k < (if q > 125 then 125 else q) + 3
              then 1 else 0
    {
      if i :| 0 <= i < |starts| && starts[i] <= k < starts[i] + 3 {
        assert starts[i] == Min(Position(w.intervals, w.secondaryIndexes[i]), 125);
      }
      if s :| 0 <= s < |w.secondaryIndexes|
              && var q := Position(w.intervals, w.secondaryIndexes[s]);
                 (if q > 125 then 125 else q) <= k < (if q > 125 then 125 else q) + 3
      {
        assert starts[s] <= k < starts[s] + 3;
      }
    }
  }

  /** The same of any page 0 and any tick: whatever bytes the page holds, every picture drawn from it is decodable. */
  lemma EveryPage0IsDecodable(payload: seq<byte>, secondary: bool, counter: u32, w: Waveform)
    requires var c := match ParsePage0(payload) case Some(c) => c case None => DEFAULT_PAGE0;
             Depicts(w, ProfileOf(Select(c), secondary), counter)
    ensures var c := match ParsePage0(payload) case Some(c) => c case None => DEFAULT_PAGE0;
            && Decodable(w, ProfileOf(Select(c), secondary))
            && (Select(c).mode.MissingToothMode? || Select(c).preset == FordSt170 ==>
                  UniqueLongest(w.intervals, w.reference))
  {
    hide ParsePage0, Select, ProfileOf, Depicts;
    var c := match ParsePage0(payload) case Some(c) => c case None => DEFAULT_PAGE0;
    EveryPage0IsDrawable(payload, secondary);
    PictureIsDecodable(w, ProfileOf(Select(c), secondary), counter);
  }

  // ---- drawing it ----

  class TriggerRuntime {
    var selection: Selection
    var cylinders: u8
    var camSync: bool
    var secondaryEnabled: bool
    var sampleCounter: u32
    var syncLossCounter: u32
    var syncedCycles: u32

    ghost predicate Valid()
      reads this
    {
      Selectable(selection)
    }

    function CurrentProfile(): Profile
      reads this
    {
      ProfileOf(selection, secondaryEnabled || camSync)
    }

    constructor ()
      ensures Valid() && selection == Selection(Generic60_2, MissingToothMode(60, 2))
      ensures sampleCounter == syncLossCounter == syncedCycles == 0
    {
      selection := Selection(Generic60_2, MissingToothMode(60, 2));
      cylinders, camSync, secondaryEnabled := 4, true, true;
      sampleCounter, syncLossCounter, syncedCycles := 0, 0, 0;
    }

    /** A page too short to hold a configuration selects the default one. */
    method ApplyPage0Payload(payload: seq<byte>)
      modifies this`selection, this`cylinders, this`camSync, this`secondaryEnabled
      ensures Valid() && Drawable(CurrentProfile())
      ensures var c := match ParsePage0(payload) case Some(c) => c case None => DEFAULT_PAGE0;
              && selection == Select(c)
              && cylinders == SanitizeCylinders(c.cylinders)
              && camSync == c.camSync && secondaryEnabled == c.secondaryEnabled
    {
      hide ParsePage0, Select, Drawable, ProfileOf;
      var parsed := ParsePage0(payload);
      var c := if parsed.Some? then parsed.value else DEFAULT_PAGE0;
      selection := Select(c);
      cylinders := SanitizeCylinders(c.cylinders);
      camSync := c.camSync;
      secondaryEnabled := c.secondaryEnabled;
      EveryPage0IsDrawable(payload, secondaryEnabled || camSync);
    }

    /** `advance_state`: the counter never falls behind the one given; every 173rd sample loses the sync. */
    method AdvanceState(sample: u32) returns (locked: bool)
      modifies this`sampleCounter, this`syncLossCounter, this`syncedCycles
      ensures sampleCounter == Max((old(sampleCounter) + 1) % 0x1_0000_0000, sample)
      ensures locked <==> sampleCounter % 173 != 0
      ensures syncedCycles == if locked then Min(old(syncedCycles) + 1, U32_MAX) else old(syncedCycles)
      ensures syncLossCounter == if locked then old(syncLossCounter) else Min(old(syncLossCounter) + 1, U32_MAX)
    {
      sampleCounter := (sampleCounter + 1) % 0x1_0000_0000;
      if sample > sampleCounter {
        sampleCounter := sample;
      }
      if sampleCounter % 173 == 0 {
        syncLossCounter := SaturatingAdd(syncLossCounter, 1, U32_MAX);
      }
      locked := sampleCounter % 173 != 0;
      if locked {
        syncedCycles := SaturatingAdd(syncedCycles, 1, U32_MAX);
      }
    }

    method TriggerCapture(sample: u32) returns (locked: bool, w: Waveform)
      requires Valid()
      modifies this`sampleCounter, this`syncLossCounter, this`syncedCycles
      ensures sampleCounter == Max((old(sampleCounter) + 1) % 0x1_0000_0000, sample)
      ensures Depicts(w, CurrentProfile(), sampleCounter) && Decodable(w, CurrentProfile())
    {
      hide Depicts, ProfileOf, Decodable;
      locked := AdvanceState(sample);
      w := BuildWaveform();
      SelectableIsDrawable(selection, secondaryEnabled || camSync);
      PictureIsDecodable(w, CurrentProfile(), sampleCounter);
    }

    method BuildWaveform() returns (w: Waveform)
      requires Valid()
      ensures Depicts(w, CurrentProfile(), sampleCounter)
    {
      hide ProfileOf, Rpm, CaptureWindow, Interval, Position, SecondaryIndex, EventCount;
      var p := CurrentProfile();
      SelectableIsDrawable(selection, secondaryEnabled || camSync);
      var counter := sampleCounter;
      WindowBounds(counter);
      var rpm := Rpm(counter);
      var window := CaptureWindow(p.cycleDeg, rpm);
      var samplePeriod := Min(Max(window / SAMPLES, 1), U16_MAX);
      var n := EventCount(p.primaryEvents);
      EventCountBounds(p.primaryEvents);
      var gap := n / 2;
      var intervals := DrawIntervals(window, n, counter, p.gapRatio);
      var dominant := 1.0;
      if p.gapRatio.Some? && n > 1 {
        dominant := DominantRatio(intervals, gap);
      }
      var primary, positions := DrawPrimary(intervals);
      var indexes := SecondaryIndexes(n, p.secondaryEvents);
      var secondary := DrawSecondary(intervals, positions, indexes);
      var reference := if p.gapRatio.Some? then gap else Min(p.reference, n - 1);
      w := Waveform(rpm, window, samplePeriod, n, p.syncGapTeeth, Min(2 * n, U16_MAX), Min(2 * |indexes|, U16_MAX),
                    primary, secondary, reference, dominant, intervals, indexes);
    }
  }

  lemma EventCountBounds(primaryEvents: u16)
    ensures 6 <= EventCount(primaryEvents) <= 96
  {
  }

  predicate Teeth(intervals: seq<u32>) {
    6 <= |intervals| <= 96 && forall i :: 0 <= i < |intervals| ==> 1 <= intervals[i] <= LONGEST
  }

  /** The loop over the teeth, and the gap stretched afterwards. */
  method DrawIntervals(window: nat, n: nat, counter: u32, gap: Option<Ratio>) returns (intervals: seq<u32>)
    requires 125_130 <= window <= 153_846 && 6 <= n <= 96
    requires gap.Some? ==>
               var r := gap.value;
               (r.den == 1 || r.den == 100) && 145 * r.den <= 100 * r.num && r.num <= 512 * r.den
    ensures |intervals| == n && Teeth(intervals)
    ensures Spaced(intervals, window, counter, gap)
    ensures gap.Some? ==> UniqueLongest(intervals, n / 2)
  {
    hide Jittered, Stretched;
    BaseBounds(window, n);
    var base := Max(window / n, 1);
    intervals := [];
    for i := 0 to n
      invariant |intervals| == i
      invariant forall k :: 0 <= k < i ==> intervals[k] == Jittered(base, counter, k)
    {
      JitterBounds(base, counter, i);
      intervals := intervals + [Jittered(base, counter, i)];
    }
    if gap.Some? {
      JitterBounds(base, counter, n / 2);
      StretchedBounds(base, intervals[n / 2], gap.value);
      intervals := intervals[n / 2 := Stretched(intervals[n / 2], gap.value)];
    }
    forall i | 0 <= i < n
      ensures intervals[i] == Interval(base, counter, n, gap, i) && 1 <= intervals[i] <= LONGEST
      ensures gap.Some? && i != n / 2 ==> intervals[i] < intervals[n / 2]
    {
      IntervalBounds(base, counter, n, gap, i);
      IntervalBounds(base, counter, n, gap, n / 2);
    }
  }

  /** The sum of the teeth other than the gap, and how many there are. */
  method SumOfOthers(intervals: seq<u32>, gap: nat) returns (sum: nat, count: nat)
    requires Teeth(intervals) && UniqueLongest(intervals, gap)
    ensures sum == Sum(intervals) - intervals[gap] && count == |intervals| - 1
    ensures count <= sum <= (intervals[gap] - 1) * count
  {
    var dominant := intervals[gap];
    sum, count := 0, 0;
    for i := 0 to |intervals|
      invariant count == if i > gap then i - 1 else i
      invariant sum == Sum(intervals[..i]) - if i > gap then dominant else 0
      invariant count <= sum <= Times(dominant - 1, count)
    {
      hide Times;
      assert intervals[..i + 1][..i] == intervals[..i];
      if i != gap {
        SumStep(dominant - 1, count, sum, intervals[i]);
        sum := sum + intervals[i];
        count := count + 1;
      }
    }
    assert intervals[..|intervals|] == intervals;
  }

  /** How much longer the gap is than the mean of the other teeth. */
  method DominantRatio(intervals: seq<u32>, gap: nat) returns (ratio: real)
    requires Teeth(intervals) && UniqueLongest(intervals, gap)
    ensures IsGapRatio(ratio, intervals, gap)
  {
    hide Sum;
    var sum, count := SumOfOthers(intervals, gap);
    RatioOfMean(intervals[gap], sum, count);
    var baseline := sum as real / count as real;
    if baseline < 1.0 {
      baseline := 1.0;
    }
    ratio := intervals[gap] as real / baseline;
    if ratio < 1.0 {
      ratio := 1.0;
    }
  }

  function Times(x: nat, y: nat): nat {
    x * y
  }

  lemma SumStep(bound: nat, count: nat, sum: nat, v: nat)
    requires sum <= Times(bound, count) && v <= bound
    ensures sum + v <= Times(bound, count + 1)
  {
  }

  lemma ProductsOrder(x: real, y: real, z: real)
    requires x < y && z > 0.0
    ensures x * z < y * z
  {
  }

  lemma Associate(x: real, y: real, z: real)
    ensures x * (y * z) == (x * y) * z
  {
  }

  lemma MeanBounds(d: real, s: real, c: real)
    requires 0.0 < c <= s <= (d - 1.0) * c
    ensures 1.0 <= s / c <= d - 1.0
  {
    var mean := s / c;
    assert mean * c == s;
    if mean < 1.0 {
      ProductsOrder(mean, 1.0, c);
    }
    if mean > d - 1.0 {
      ProductsOrder(d - 1.0, mean, c);
    }
  }

  lemma RatioBounds(d: real, mean: real)
    requires 0.0 < mean < d
    ensures d / mean > 1.0 && (d / mean) * mean == d
  {
    var ratio := d / mean;
    assert ratio * mean == d;
    if ratio < 1.0 {
      ProductsOrder(ratio, 1.0, mean);
    }
  }

  lemma RatioOfMean(dominant: nat, sum: nat, count: nat)
    requires 0 < count <= sum <= (dominant - 1) * count
    ensures var mean := sum as real / count as real;
            mean >= 1.0 && dominant as real / mean > 1.0
            && (dominant as real / mean) * sum as real == dominant as real * count as real
  {
    var d, s, c := dominant as real, sum as real, count as real;
    assert (d - 1.0) * c == ((dominant - 1) * count) as real;
    MeanBounds(d, s, c);
    var mean := s / c;
    RatioBounds(d, mean);
    assert mean * c == s;
    Associate(d / mean, mean, c);
  }

  method TotalOf(intervals: seq<u32>) returns (total: u32)
    requires Teeth(intervals)
    ensures total == Sum(intervals) > 0
  {
    SumBound(intervals, LONGEST);
    total := 0;
    for i := 0 to |intervals|
      invariant total == Sum(intervals[..i])
    {
      assert intervals[..i + 1][..i] == intervals[..i];
      SumOfPrefix(intervals, i + 1);
      total := SaturatingAdd(total, intervals[i], U32_MAX);
    }
    assert intervals[..|intervals|] == intervals;
    total := Max(total, 1);
  }

  lemma PositionFrom(intervals: seq<nat>, i: nat, elapsed: nat)
    requires i < |intervals| && elapsed == Sum(intervals[..i]) + intervals[i] && Sum(intervals) > 0
    ensures Position(intervals, i) == Min(Round(LAST_POSITION * elapsed, Sum(intervals)), LAST_POSITION)
    ensures elapsed == Sum(intervals[..i + 1]) <= Sum(intervals)
  {
    hide Round;
    assert intervals[..i + 1][..i] == intervals[..i];
    SumOfPrefix(intervals, i + 1);
  }

  method DrawPrimary(intervals: seq<u32>) returns (samples: seq<byte>, positions: seq<nat>)
    requires Teeth(intervals)
    ensures positions == Starts(intervals) && Drawn(samples, Starts(intervals), 2)
  {
    hide Drawn, Round, Position, Sum;
    var total := TotalOf(intervals);
    var buffer := new byte[SAMPLES](k => 0);
    positions := [];
    var elapsed: u32 := 0;
    NothingDrawn(buffer[..], 2);
    assert Sum(intervals[..0]) == 0 by { NoSum(intervals); }
    for i := 0 to |intervals|
      invariant buffer.Length == SAMPLES
      invariant elapsed == Sum(intervals[..i])
      invariant |positions| == i && forall k :: 0 <= k < i ==> positions[k] == Position(intervals, k)
      invariant Drawn(buffer[..], positions, 2)
    {
      PositionFrom(intervals, i, elapsed + intervals[i]);
      elapsed := SaturatingAdd(elapsed, intervals[i], U32_MAX);
      var clamped := Min(Round(LAST_POSITION * elapsed, total), LAST_POSITION);
      ghost var before := buffer[..];
      buffer[clamped] := 1;
      buffer[clamped + 1] := 1;
      DrawnOneMore(before, positions, 2, clamped, buffer[..]);
      positions := positions + [clamped];
    }
    assert positions == Starts(intervals);
    samples := buffer[..];
  }

  lemma NoSum(s: seq<nat>)
    ensures Sum(s[..0]) == 0
  {
  }

  lemma NothingDrawn(samples: seq<byte>, width: nat)
    requires |samples| == SAMPLES && forall k :: 0 <= k < SAMPLES ==> samples[k] == 0
    ensures Drawn(samples, [], width)
  {
  }

  /** The indexes come out strictly increasing, so the sort and the removal of duplicates leave them as they are. */
  method SecondaryIndexes(n: nat, events: nat) returns (indexes: seq<u16>)
    requires 6 <= n <= 96 && events <= 2
    ensures |indexes| == events
    ensures forall s :: 0 <= s < events ==> indexes[s] == SecondaryIndex(n, events, s) < n
    ensures forall s, t :: 0 <= s < t < events ==> indexes[s] < indexes[t]
  {
    var slots := Clamp(events, 0, 8);
    indexes := [];
    for slot := 0 to slots
      invariant |indexes| == slot
      invariant forall s :: 0 <= s < slot ==> indexes[s] == SecondaryIndex(n, slots, s)
    {
      indexes := indexes + [Clamp((slot + 1) * n / (slots + 1), 0, n - 1)];
    }
    SecondaryIndexesAdvance(n, events);
  }

  method DrawSecondary(intervals: seq<u32>, positions: seq<nat>, indexes: seq<u16>) returns (samples: seq<byte>)
    requires Teeth(intervals) && positions == Starts(intervals)
    requires forall k :: 0 <= k < |indexes| ==> indexes[k] < |intervals|
    ensures Drawn(samples, SecondaryStarts(intervals, indexes), 3)
  {
    hide Drawn, Round;
    var buffer := new byte[SAMPLES](k => 0);
    NothingDrawn(buffer[..], 3);
    for i := 0 to |indexes|
      invariant buffer.Length == SAMPLES
      invariant Drawn(buffer[..], SecondaryStarts(intervals, indexes)[..i], 3)
    {
      var position := Min(positions[indexes[i]], SAMPLES - 3);
      ghost var before := buffer[..];
      for k := position to position + 3
        invariant buffer.Length == SAMPLES
        invariant forall j :: 0 <= j < SAMPLES ==> buffer[j] == if position <= j < k then 1 else before[j]
      {
        buffer[k] := 1;
      }
      DrawnOneMore(before, SecondaryStarts(intervals, indexes)[..i], 3, position, buffer[..]);
      assert SecondaryStarts(intervals, indexes)[..i + 1] == SecondaryStarts(intervals, indexes)[..i] + [position];
    }
    assert SecondaryStarts(intervals, indexes)[..|indexes|] == SecondaryStarts(intervals, indexes);
    samples := buffer[..];
  }
}
