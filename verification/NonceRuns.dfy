/** The nonces of a whole run, whatever the host writes, burns or damages, however often power is lost and whichever
  encryptions fail: exactly when no nonce comes back. */
module NonceRuns {
  import opened Bytes
  import opened StoredPages
  import opened PageCrypto
  import ConfigStore

  /** A read whose answer carries its nonce. */
  predicate Emits(e: Event) {
    TakesNonce(e) && e.encrypts
  }

  function CounterAt(seed: u64, p: Pages, events: seq<Event>, n: nat): u64
    requires PagesShaped(p) && n <= |events|
  {
    After(seed, p, events[..n]).counter
  }

  /** The events `n` and `m` emit nonces and none between them does. */
  ghost predicate Consecutive(events: seq<Event>, n: nat, m: nat) {
    n < m < |events| && Emits(events[n]) && Emits(events[m]) && forall k :: n < k < m ==> !Emits(events[k])
  }

  /** The last reboot after `n` and before `m`, or `n` itself. */
  function LastStart(events: seq<Event>, n: nat, m: nat): (r: nat)
    requires n < m <= |events|
    ensures n <= r < m && (r > n ==> events[r].Rebooted?)
    ensures forall k :: r < k < m ==> !events[k].Rebooted?
    decreases m
  {
    if m - 1 == n || events[m - 1].Rebooted? then m - 1 else LastStart(events, n, m - 1)
  }

  /** How many reads among the events from `i` on and before `j` take a nonce. */
  function TakesBetween(events: seq<Event>, i: nat, j: nat): nat
    requires i <= j <= |events|
    decreases j
  {
    if i == j then 0 else TakesBetween(events, i, j - 1) + if TakesNonce(events[j - 1]) then 1 else 0
  }

  /** The counter a boot starts on. */
  function Restart(record: Option<u64>, seed: u64): u64 {
    match record case Some(v) => SaturatingAdd(v, STRIDE, U64_MAX) case None => seed
  }

  /** The counter still lies above the nonce used at `n` when the next one is used at `m`: counted up, a failed read
    at a time, from that nonce, or if there was a reboot from what the last one found stored. */
  ghost predicate StaysAbove(seed: u64, p: Pages, events: seq<Event>, n: nat, m: nat)
    requires PagesShaped(p) && n < m < |events|
  {
    var last := CounterAt(seed, p, events, n);
    var r := LastStart(events, n, m);
    var failed := TakesBetween(events, r + 1, m);
    var start := if r == n then last + 1 else Restart(Persisted(After(seed, p, events[..r]).pages), seed);
    last < (start + failed) % 0x1_0000_0000_0000_0000
  }

  lemma Next(seed: u64, p: Pages, events: seq<Event>, k: nat)
    requires PagesShaped(p) && k < |events|
    ensures After(seed, p, events[..k + 1]) == AfterEvent(seed, After(seed, p, events[..k]), events[k])
    ensures Nonces(seed, p, events[..k + 1])
         == Nonces(seed, p, events[..k]) + EmittedBy(After(seed, p, events[..k]), events[k])
  {
    hide PagesShaped, AfterEvent, EmittedBy;
    assert events[..k + 1] == events[..k] + [events[k]];
    OneMore(seed, p, events[..k], events[k]);
  }

  lemma CounterSteps(seed: u64, c: Crypto, e: Event)
    requires PagesShaped(c.pages)
    ensures AfterEvent(seed, c, e).counter
         == if e.Rebooted? then Restart(Persisted(c.pages), seed)
            else if TakesNonce(e) then (c.counter + 1) % 0x1_0000_0000_0000_0000 else c.counter
    ensures EmittedBy(c, e) == if Emits(e) then [c.counter] else []
  {
    hide WithPersisted, Persisted, PagesShaped;
  }

  lemma OneUp(x: nat)
    ensures (x % 0x1_0000_0000_0000_0000 + 1) % 0x1_0000_0000_0000_0000 == (x + 1) % 0x1_0000_0000_0000_0000
  {
  }

  lemma {:induction false} CounterMoves(seed: u64, p: Pages, events: seq<Event>, i: nat, j: nat)
    requires PagesShaped(p) && i <= j <= |events|
    requires forall k :: i <= k < j ==> !events[k].Rebooted?
    ensures CounterAt(seed, p, events, j)
         == (CounterAt(seed, p, events, i) + TakesBetween(events, i, j)) % 0x1_0000_0000_0000_0000
    decreases j
  {
    hide PagesShaped, After, AfterEvent, Persisted, TakesNonce;
    if i == j {
    } else {
      CounterMoves(seed, p, events, i, j - 1);
      Next(seed, p, events, j - 1);
      CounterSteps(seed, After(seed, p, events[..j - 1]), events[j - 1]);
      OneUp(CounterAt(seed, p, events, i) + TakesBetween(events, i, j - 1));
    }
  }

  /** The counter at the next nonce, from the reboots and failed reads between. */
  lemma StaysAboveMeaning(seed: u64, p: Pages, events: seq<Event>, n: nat, m: nat)
    requires PagesShaped(p) && Consecutive(events, n, m)
    ensures StaysAbove(seed, p, events, n, m) <==> CounterAt(seed, p, events, n) < CounterAt(seed, p, events, m)
  {
    hide PagesShaped, After, AfterEvent, Persisted;
    var r := LastStart(events, n, m);
    var failed := TakesBetween(events, r + 1, m);
    Next(seed, p, events, r);
    CounterSteps(seed, After(seed, p, events[..r]), events[r]);
    CounterMoves(seed, p, events, r + 1, m);
    SumWraps(CounterAt(seed, p, events, r) + 1, failed);
  }

  lemma SumWraps(x: nat, y: nat)
    ensures (x % 0x1_0000_0000_0000_0000 + y) % 0x1_0000_0000_0000_0000 == (x + y) % 0x1_0000_0000_0000_0000
  {
  }

  /** The last event before `k` that emits a nonce, if there is one, emitted the last of them. */
  ghost predicate LastEmitted(seed: u64, p: Pages, events: seq<Event>, k: nat, n: nat)
    requires PagesShaped(p) && k <= |events|
  {
    && n < k && Emits(events[n]) && (forall i :: n < i < k ==> !Emits(events[i]))
    && var nonces := Nonces(seed, p, events[..k]);
       nonces != [] && nonces[|nonces| - 1] == CounterAt(seed, p, events, n)
  }

  /** No nonce has been emitted before `k`, or there is a last one. */
  ghost predicate EmittedSoFar(seed: u64, p: Pages, events: seq<Event>, k: nat)
    requires PagesShaped(p) && k <= |events|
  {
    || (Nonces(seed, p, events[..k]) == [] && forall i :: 0 <= i < k ==> !Emits(events[i]))
    || exists n: nat :: LastEmitted(seed, p, events, k, n)
  }

  lemma EmittedOneMore(seed: u64, p: Pages, events: seq<Event>, k: nat)
    requires PagesShaped(p) && k < |events|
    requires EmittedSoFar(seed, p, events, k)
    ensures EmittedSoFar(seed, p, events, k + 1)
    ensures Nonces(seed, p, events[..k + 1])
         == Nonces(seed, p, events[..k]) + if Emits(events[k]) then [CounterAt(seed, p, events, k)] else []
  {
    hide PagesShaped, After, AfterEvent, Persisted, Emits, Nonces;
    Next(seed, p, events, k);
    CounterSteps(seed, After(seed, p, events[..k]), events[k]);
    if Emits(events[k]) {
      assert LastEmitted(seed, p, events, k + 1, k);
    } else if n: nat :| LastEmitted(seed, p, events, k, n) {
      assert LastEmitted(seed, p, events, k + 1, n);
    }
  }

  /** Each nonce before `k` lies above the one before it. */
  ghost predicate PairsIncrease(seed: u64, p: Pages, events: seq<Event>, k: nat)
    requires PagesShaped(p) && k <= |events|
  {
    forall n: nat, m: nat :: m < k && Consecutive(events, n, m) ==>
      CounterAt(seed, p, events, n) < CounterAt(seed, p, events, m)
  }

  lemma NothingEmitted(seed: u64, p: Pages, events: seq<Event>)
    requires PagesShaped(p)
    ensures EmittedSoFar(seed, p, events, 0) && PairsIncrease(seed, p, events, 0)
    ensures Increasing(Nonces(seed, p, events[..0]))
  {
    hide PagesShaped;
    NothingYet(seed, p);
    assert events[..0] == [];
  }

  lemma {:induction false} IncreasingIsPairwise(seed: u64, p: Pages, events: seq<Event>, k: nat)
    requires PagesShaped(p) && k <= |events|
    ensures EmittedSoFar(seed, p, events, k)
    ensures Increasing(Nonces(seed, p, events[..k])) <==> PairsIncrease(seed, p, events, k)
    decreases k
  {
    hide *;
    if k == 0 {
      NothingEmitted(seed, p, events);
    } else {
      IncreasingIsPairwise(seed, p, events, k - 1);
      EmittedOneMore(seed, p, events, k - 1);
      PairsOneMore(seed, p, events, k - 1);
    }
  }

  lemma PairsOneMore(seed: u64, p: Pages, events: seq<Event>, k: nat)
    requires PagesShaped(p) && k < |events|
    requires Nonces(seed, p, events[..k + 1])
          == Nonces(seed, p, events[..k]) + if Emits(events[k]) then [CounterAt(seed, p, events, k)] else []
    requires EmittedSoFar(seed, p, events, k)
    requires Increasing(Nonces(seed, p, events[..k])) <==> PairsIncrease(seed, p, events, k)
    ensures Increasing(Nonces(seed, p, events[..k + 1])) <==> PairsIncrease(seed, p, events, k + 1)
  {
    hide PagesShaped, CounterAt, Nonces, Emits;
    var before, after := Nonces(seed, p, events[..k]), Nonces(seed, p, events[..k + 1]);
    if !Emits(events[k]) {
      assert after == before;
    } else if n: nat :| LastEmitted(seed, p, events, k, n) {
      var c := CounterAt(seed, p, events, k);
      assert Consecutive(events, n, k);
      OnlyOnePartner(events, n, k);
      assert after[|before|] == c && after[|before| - 1] == before[|before| - 1] == CounterAt(seed, p, events, n);
      IncreasingOneMore(before, c);
    } else {
      assert after == [CounterAt(seed, p, events, k)];
    }
  }

  lemma OnlyOnePartner(events: seq<Event>, n: nat, k: nat)
    requires Consecutive(events, n, k)
    ensures forall i: nat :: Consecutive(events, i, k) ==> i == n
  {
    hide Emits;
    forall i: nat | Consecutive(events, i, k)
      ensures i == n
    {
      assert !(n < i < k) && !(i < n < k);
    }
  }

  lemma IncreasingOneMore(s: seq<int>, c: int)
    requires s != []
    ensures Increasing(s + [c]) <==> Increasing(s) && s[|s| - 1] < c
  {
    var t := s + [c];
    assert t[|s|] == c && t[|s| - 1] == s[|s| - 1];
    assert forall i :: 0 <= i < |s| ==> t[i] == s[i];
  }

  /** Over every run there is, nonces strictly increase if and only if between each two that follow each other the
    counter stays above: no wrap, and at the last reboot between them, if any, a record or seed that starts it above. */
  lemma NoncesIncreaseExactly(seed: u64, p: Pages, events: seq<Event>)
    requires PagesShaped(p)
    ensures Increasing(Nonces(seed, p, events))
       <==> forall n: nat, m: nat :: Consecutive(events, n, m) ==> StaysAbove(seed, p, events, n, m)
  {
    hide PagesShaped, CounterAt, Nonces, StaysAbove, Emits;
    assert events[..|events|] == events;
    IncreasingIsPairwise(seed, p, events, |events|);
    forall n: nat, m: nat | Consecutive(events, n, m)
      ensures StaysAbove(seed, p, events, n, m) <==> CounterAt(seed, p, events, n) < CounterAt(seed, p, events, m)
    {
      StaysAboveMeaning(seed, p, events, n, m);
    }
  }
}
