/** What the remaining commands of a firmware transfer mean: where each byte of the image comes from, how sessions are
  numbered, and what completing, confirming and the passing of time do. */
module FlashAnswers {
  import opened Bytes
  import opened Crc
  import opened ConfigStore
  import opened BootAuth
  import opened FlashUpdate
  import opened FlashRuns

  // ---- where the image comes from ----

  /** Event `j` is a block acknowledged with the number `i` and the bytes `data`. */
  ghost predicate BroughtBy(cfg: Config, es: seq<Event>, j: nat, i: nat, data: seq<byte>)
    requires j < |es|
  {
    && i <= U32_MAX
    && es[j].Packet? && es[j].cmd == FlashBlock(U32Bytes(i) + data)
    && ReplyTo(cfg, At(cfg, es, j), es[j]) == Ack
  }

  ghost predicate BroughtBefore(cfg: Config, es: seq<Event>, k: nat, i: nat, data: seq<byte>)
    requires k <= |es|
  {
    exists j: nat :: j < k && BroughtBy(cfg, es, j, i, data)
  }

  ghost predicate Brought(cfg: Config, es: seq<Event>, k: nat, blocks: seq<seq<byte>>)
    requires k <= |es|
  {
    forall i :: 0 <= i < |blocks| ==> BroughtBefore(cfg, es, k, i, blocks[i])
  }

  lemma StillBrought(cfg: Config, es: seq<Event>, k: nat, blocks: seq<seq<byte>>)
    requires k < |es| && Brought(cfg, es, k, blocks)
    ensures Brought(cfg, es, k + 1, blocks)
  {
    hide BroughtBy;
    forall i | 0 <= i < |blocks|
      ensures BroughtBefore(cfg, es, k + 1, i, blocks[i])
    {
      assert BroughtBefore(cfg, es, k, i, blocks[i]);
      var j: nat :| j < k && BroughtBy(cfg, es, j, i, blocks[i]);
      assert j < k + 1;
    }
  }

  lemma OneMoreBrought(cfg: Config, es: seq<Event>, k: nat, blocks: seq<seq<byte>>, data: seq<byte>)
    requires k < |es| && Brought(cfg, es, k, blocks) && BroughtBy(cfg, es, k, |blocks|, data)
    ensures Brought(cfg, es, k + 1, blocks + [data])
  {
    hide BroughtBy;
    StillBrought(cfg, es, k, blocks);
    assert BroughtBefore(cfg, es, k + 1, |blocks|, data);
    hide BroughtBefore;
    var all := blocks + [data];
    forall i | 0 <= i < |all|
      ensures BroughtBefore(cfg, es, k + 1, i, all[i])
    {
      assert i < |blocks| ==> all[i] == blocks[i];
    }
  }

  lemma NothingBrought(cfg: Config, es: seq<Event>, k: nat)
    requires k <= |es|
    ensures Brought(cfg, es, k, [])
  {
  }

  /** What an event can do to the blocks held and the blocks behind the checkpoint. */
  lemma BlocksAfter(cfg: Config, w: World, e: Event)
    requires Inv(w)
    ensures var v := Step(cfg, w, e);
            if e.Packet? && e.cmd.FlashBlock? && ReplyTo(cfg, w, e) == Ack then
              v.h.blocks == w.h.blocks + [BlockData(e.cmd.payload)]
              && (v.h.saved == v.h.blocks || v.h.saved == w.h.saved)
            else
              && (v.h.blocks == w.h.blocks || v.h.blocks == w.h.saved || v.h.blocks == [])
              && (v.h.saved == w.h.saved || v.h.saved == [])
  {
    hide Crc32, Reg32Val, U32Val, Attempt, VerifyRefusal, BlockRefusal, ResumeRefusal, Flatten, Ticked, Inv;
  }

  /** In every reachable state each block held, and each block behind the checkpoint, was brought by a packet that was
    acknowledged and carried the block's own number: blocks are received in order or not at all. */
  lemma {:induction false} EveryBlockWasBrought(cfg: Config, es: seq<Event>, k: nat)
    requires k <= |es|
    ensures Brought(cfg, es, k, At(cfg, es, k).h.blocks) && Brought(cfg, es, k, At(cfg, es, k).h.saved)
    decreases k
  {
    hide Brought, BroughtBy, BroughtBefore, Step, Inv, ReplyTo, U32Bytes;
    if k == 0 {
      NothingBrought(cfg, es, 0);
    } else {
      var w, e := At(cfg, es, k - 1), es[k - 1];
      EveryBlockWasBrought(cfg, es, k - 1);
      InvariantHolds(cfg, es, k - 1);
      BlocksAfter(cfg, w, e);
      StillBrought(cfg, es, k - 1, w.h.blocks);
      StillBrought(cfg, es, k - 1, w.h.saved);
      NothingBrought(cfg, es, k);
      if e.Packet? && e.cmd.FlashBlock? && ReplyTo(cfg, w, e) == Ack {
        AcknowledgedIsNumbered(cfg, es, k - 1);
        OneMoreBrought(cfg, es, k - 1, w.h.blocks, BlockData(e.cmd.payload));
      }
    }
  }

  /** Over every run, an acknowledged block carries the number of blocks accepted before it. */
  lemma AcknowledgedIsNumbered(cfg: Config, es: seq<Event>, k: nat)
    requires k < |es| && es[k].Packet? && es[k].cmd.FlashBlock?
    requires ReplyTo(cfg, At(cfg, es, k), es[k]) == Ack
    ensures BroughtBy(cfg, es, k, |At(cfg, es, k).h.blocks|, BlockData(es[k].cmd.payload))
    ensures At(cfg, es, k + 1).h.blocks == At(cfg, es, k).h.blocks + [BlockData(es[k].cmd.payload)]
  {
    hide Step, Inv, ReplyTo, U32Bytes, At;
    var w, payload := At(cfg, es, k), es[k].cmd.payload;
    InvariantHolds(cfg, es, k);
    AtNext(cfg, es, k);
    BlockAcceptedExactly(cfg, w, payload, Clock(es[k].tickNow, es[k].cmdNow));
    var data: seq<byte> :| payload == U32Bytes(|w.h.blocks|) + data;
    assert payload[4..] == data;
  }

  // ---- how sessions are numbered ----

  const LAST_ID: nat := 0xFFFF_FFFF

  /** The `n`-th number given out after `c`: they count up from 1 to the largest and start over at 1. */
  function NthId(c: u32, n: nat): nat {
    if n == 0 then c else (c + n - 1) % LAST_ID + 1
  }

  lemma NextIsNth(c: u32, n: nat)
    ensures NthId(c, n) <= U32_MAX
    ensures NthId(c, n + 1) == NextSessionId(NthId(c, n))
  {
    if n > 0 {
      WrapsUp(c + n - 1);
    } else if c == LAST_ID {
      assert c % LAST_ID == 0;
    } else {
      assert c % LAST_ID == c;
    }
  }

  lemma WrapsUp(x: nat)
    ensures (x + 1) % LAST_ID == if x % LAST_ID + 1 == LAST_ID then 0 else x % LAST_ID + 1
  {
  }

  /** Of the numbers given out after `c`, `c` itself comes back exactly every 4294967295th time. */
  lemma IdRepeatsExactly(c: u32, n: nat)
    requires c > 0 && n > 0
    ensures NthId(c, n) == c <==> n % LAST_ID == 0
  {
    var x := (c - 1) + n;
    assert x == LAST_ID * (x / LAST_ID) + x % LAST_ID;
    assert n == LAST_ID * (n / LAST_ID) + n % LAST_ID;
  }

  /** A session begins with the next number, empty, and not verified; the update is given up. */
  lemma SessionBegins(cfg: Config, w: World, cmd: Cmd, clock: Clock)
    requires Inv(w) && cmd.EnterBootloader?
    requires !cfg.authRequired
             || Attempt(w.n.auth, clock.cmd, cmd.payloadLen, cmd.response).1 == Granted
    ensures var e := Sent(cmd, clock); var v := Step(cfg, w, e);
            && ReplyTo(cfg, w, e) == Ack
            && v.n.t.sessionActive && v.n.u.state.Receiving? && !v.n.t.verified
            && v.n.t.sessionId == v.n.t.sessionCounter == NthId(w.n.t.sessionCounter, 1)
            && v.h.blocks == [] && v.n.t.buffer == []
            && v.n.scratch == w.n.scratch
            && v.n.u.activeBank == w.n.u.activeBank && v.n.u.pendingBank == None
  {
    NextIsNth(w.n.t.sessionCounter, 0);
    hide Crc32, Attempt, NextSessionId, NthId, Flatten;
    StepKeeps(cfg, w, Sent(cmd, clock));
    hide GapMs;
  }

  /** The numbers given out so far, counted from `id`, number `n`. */
  predicate GivenSince(w: World, id: u32, n: nat) {
    w.n.t.sessionCounter == NthId(id, n)
  }

  ghost predicate IdsInv(w: World, k: nat) {
    && (w.n.scratch.Some? ==>
          w.n.scratch.value.sessionId > 0 && exists n: nat :: n <= k && GivenSince(w, w.n.scratch.value.sessionId, n))
    && (w.n.t.sessionActive ==>
          w.n.t.sessionId > 0 && exists n: nat :: n <= k && GivenSince(w, w.n.t.sessionId, n))
  }

  /** What an event can do to the numbers. */
  lemma IdsAfter(cfg: Config, w: World, e: Event)
    requires Inv(w)
    ensures var v := Step(cfg, w, e);
            || (&& v.n.t.sessionCounter == NextSessionId(w.n.t.sessionCounter)
                && v.n.t.sessionId == v.n.t.sessionCounter && v.n.scratch == w.n.scratch)
            || (&& e.Reboot? && !v.n.t.sessionActive && v.n.scratch == w.n.scratch
                && v.n.t.sessionCounter == (if w.n.scratch.Some? then w.n.scratch.value.sessionId else 0))
            || (&& v.n.t.sessionCounter == w.n.t.sessionCounter
                && (v.n.t.sessionActive ==>
                      || (w.n.t.sessionActive && v.n.t.sessionId == w.n.t.sessionId)
                      || (w.n.scratch.Some? && v.n.t.sessionId == w.n.scratch.value.sessionId))
                && (v.n.scratch.Some? ==>
                      || v.n.scratch == w.n.scratch
                      || (w.n.t.sessionActive && v.n.scratch.value.sessionId == w.n.t.sessionId)))
  {
    hide Crc32, Reg32Val, U32Val, Attempt, VerifyRefusal, BlockRefusal, ResumeRefusal, Flatten, Ticked, Inv;
    hide NextSessionId;
  }

  lemma IdsStep(cfg: Config, w: World, e: Event, k: nat)
    requires Inv(w) && IdsInv(w, k)
    ensures IdsInv(Step(cfg, w, e), k + 1)
  {
    IdsAfter(cfg, w, e);
    hide Step, Inv, NthId, NextSessionId;
    var v := Step(cfg, w, e);
    IdIsPositive(w.n.t.sessionCounter);
    if v.n.t.sessionCounter == NextSessionId(w.n.t.sessionCounter) && v.n.t.sessionId == v.n.t.sessionCounter
       && v.n.scratch == w.n.scratch {
      NoneGiven(v.n.t.sessionId);
      assert GivenSince(v, v.n.t.sessionId, 0);
      if w.n.scratch.Some? {
        var n: nat :| n <= k && GivenSince(w, w.n.scratch.value.sessionId, n);
        NextIsNth(w.n.scratch.value.sessionId, n);
        assert GivenSince(v, w.n.scratch.value.sessionId, n + 1);
      }
    } else if e.Reboot? {
      if w.n.scratch.Some? {
        NoneGiven(w.n.scratch.value.sessionId);
        assert GivenSince(v, w.n.scratch.value.sessionId, 0);
      }
    } else {
      forall id: u32, n: nat | n <= k && GivenSince(w, id, n)
        ensures GivenSince(v, id, n)
      {
      }
    }
  }

  lemma IdIsPositive(c: u32)
    ensures NextSessionId(c) > 0
  {
  }

  lemma NoneGiven(c: u32)
    ensures NthId(c, 0) == c
  {
  }

  lemma {:induction false} IdsHold(cfg: Config, es: seq<Event>, k: nat)
    requires k <= |es|
    ensures IdsInv(At(cfg, es, k), k)
    decreases k
  {
    hide Step, Inv, IdsInv;
    if k == 0 {
      assert IdsInv(START, 0) by { StartIds(); }
    } else {
      IdsHold(cfg, es, k - 1);
      InvariantHolds(cfg, es, k - 1);
      IdsStep(cfg, At(cfg, es, k - 1), es[k - 1], k - 1);
    }
  }

  lemma StartIds()
    ensures IdsInv(START, 0)
  {
  }

  /** The number of a session that begins while the store holds a checkpoint is another than the checkpoint's, unless
    the numbers have gone all the way round: `n` have been given out since, no more than there were events. */
  lemma NewSessionIsNotTheCheckpointsExactly(cfg: Config, es: seq<Event>, k: nat) returns (n: nat)
    requires k <= |es| && At(cfg, es, k).n.scratch.Some?
    ensures n <= k
    ensures var w := At(cfg, es, k); var id := w.n.scratch.value.sessionId;
            && id > 0
            && GivenSince(w, id, n)
            && (NthId(w.n.t.sessionCounter, 1) == id <==> (n + 1) % LAST_ID == 0)
  {
    hide At, NthId;
    IdsHold(cfg, es, k);
    var w := At(cfg, es, k);
    var id := w.n.scratch.value.sessionId;
    n :| n <= k && GivenSince(w, id, n);
    NextIsNth(id, n);
    NextIsNth(w.n.t.sessionCounter, 0);
    NoneGiven(w.n.t.sessionCounter);
    IdRepeatsExactly(id, n + 1);
  }

  // ---- completing, confirming, and time ----

  /** A completion is accepted exactly in Verified. It opens a window of 30 seconds for the other bank with the image as
    its candidate, and ends the session, its checkpoint and any challenge. */
  lemma CompleteAcceptedExactly(cfg: Config, w: World, clock: Clock)
    requires Inv(w)
    ensures var e := Sent(FlashComplete, clock); var v := Step(cfg, w, e); var reply := ReplyTo(cfg, w, e);
            && (reply == Ack <==> w.n.u.state.Verified?)
            && (reply == Nack(BadSequence) <==> !w.n.t.sessionActive)
            && (reply == Nack(MalformedPayload) <==> w.n.t.sessionActive && !w.n.u.state.Verified?)
            && (reply == Ack ==>
                  && v.n.u.state.HealthWindow? && v.n.u.remainingMs == 30_000 && v.n.u.lastTick == Some(clock.cmd)
                  && v.n.u.activeBank == w.n.u.activeBank
                  && v.n.u.pendingBank == Some(if w.n.u.activeBank == 1 then 2 else 1)
                  && v.n.u.candidateCrc == Some(Crc32(w.n.t.buffer)) && v.n.u.candidateSize == |w.n.t.buffer|
                  && v.n.u.bootAttempts == 1 && v.n.u.rollbackCounter == w.n.u.rollbackCounter
                  && !v.n.t.sessionActive && v.n.t.buffer == [] && v.h.blocks == []
                  && v.n.t.sessionCounter == w.n.t.sessionCounter
                  && v.n.scratch == None && !v.n.auth.challengePending)
            && (reply != Ack ==> OnlyTicked(w, v, clock.tick))
  {
    hide Crc32, Flatten, GapMs;
  }

  /** The tick of a packet that comes `gap` whole milliseconds after the last: it takes them off an open window, or
    rolls back to the active bank when they use it up; elsewhere it does nothing. */
  lemma TickMeaning(w: World, now: nat)
    requires Inv(w)
    ensures var u, v := w.n.u, Ticked(w.n.u, now);
            if !u.state.HealthWindow? then v == u
            else
              && u.lastTick.Some?
              && var gap := GapMs(u.lastTick.value, now);
                 if gap >= u.remainingMs then
                   && v.state.RolledBack? && v.activeBank == v.lastGoodBank == u.activeBank && v.pendingBank == None
                   && v.remainingMs == 0
                   && v.rollbackCounter == Min(u.rollbackCounter + 1, 0xFFFF)
                 else v == u.(remainingMs := u.remainingMs - gap, lastTick := Some(now))
  {
    hide GapMs, Flatten, Crc32;
  }

  lemma GapIs(last: nat, now: nat)
    ensures now <= last ==> GapMs(last, now) == 0
    ensures last <= now && (now - last) < 0x1_0000_0000 * 1_000_000 ==>
              GapMs(last, now) * 1_000_000 <= now - last < (GapMs(last, now) + 1) * 1_000_000
  {
  }

  /** A confirmation is accepted exactly in a window that its own tick has not used up; it makes the pending bank, the
    one that was not active, active and last good. */
  lemma ConfirmAcceptedExactly(cfg: Config, w: World, clock: Clock)
    requires Inv(w)
    ensures var e := Sent(ConfirmBootHealthy, clock); var v := Step(cfg, w, e); var reply := ReplyTo(cfg, w, e);
            && (reply == Ack <==>
                  && w.n.u.state.HealthWindow?
                  && w.n.u.lastTick.Some? && GapMs(w.n.u.lastTick.value, clock.tick) < w.n.u.remainingMs)
            && (reply == Ack ==>
                  && v.n.u.state.Committed?
                  && v.n.u.activeBank == v.n.u.lastGoodBank == (if w.n.u.activeBank == 1 then 2 else 1)
                  && v.n.u.pendingBank == None && v.n.u.remainingMs == 0
                  && v.n.t == w.n.t && v.n.scratch == w.n.scratch)
            && (reply != Ack ==> reply == Nack(MalformedPayload) && OnlyTicked(w, v, clock.tick))
  {
    hide GapMs, Flatten, Crc32;
  }

  // ---- booting, entering, and the checkpoint ----

  /** A boot starts on bank 1 with nothing in hand but the checkpoint, whose session number it counts on from. */
  lemma BootExactly(cfg: Config, w: World)
    ensures var v := Step(cfg, w, Reboot);
            && v.n.scratch == w.n.scratch
            && v.n.t.sessionCounter == (match w.n.scratch case None => 0 case Some(s) => s.sessionId)
            && !v.n.t.sessionActive && !v.n.t.verified && v.n.t.buffer == [] && v.h.blocks == []
            && v.n.u.state.Idle? && v.n.u.activeBank == v.n.u.lastGoodBank == 1 && v.n.u.pendingBank == None
            && v.n.u.remainingMs == 0 && v.n.u.rollbackCounter == 0
            && !v.n.auth.challengePending && v.n.auth.lockoutUntil == None && v.n.auth.failedAttempts == 0
  {
  }

  /** An attempt to enter that is not granted leaves the transfer and the update as they were. */
  lemma RefusedEntryKeeps(cfg: Config, w: World, cmd: Cmd, clock: Clock)
    requires Inv(w) && cmd.EnterBootloader? && cfg.authRequired
    requires Attempt(w.n.auth, clock.cmd, cmd.payloadLen, cmd.response).1 != Granted
    ensures var v := Step(cfg, w, Sent(cmd, clock));
            && v.n.t == w.n.t && v.n.u == Ticked(w.n.u, clock.tick) && v.n.scratch == w.n.scratch && v.h == w.h
  {
    hide Attempt, Ticked, Inv;
    EntryIsNoSession(cfg, w, cmd, clock);
  }

  lemma EntryIsNoSession(cfg: Config, w: World, cmd: Cmd, clock: Clock)
    requires Inv(w) && cmd.EnterBootloader? && cfg.authRequired
    requires Attempt(w.n.auth, clock.cmd, cmd.payloadLen, cmd.response).1 != Granted
    ensures Step(cfg, w, Sent(cmd, clock)).h == w.h
  {
    hide Attempt, Ticked, Flatten, Crc32;
  }

  /** Commands that do not touch the transfer do nothing but tick. */
  lemma OthersOnlyTick(cfg: Config, w: World, clock: Clock)
    ensures OnlyTicked(w, Step(cfg, w, Sent(Other, clock)), clock.tick)
  {
  }

  /** The checkpoint of a session that holds `n` blocks: the first of them until there are eight, and from then on as
    many as are a multiple of eight, with their number, their sum and their bytes. */
  lemma CheckpointExactly(w: World)
    requires Inv(w) && w.n.t.sessionActive && w.h.blocks != []
    ensures var n := |w.h.blocks|; var k := if n < 8 then 1 else n - n % 8;
            && k <= n && w.h.saved == w.h.blocks[..k] && k <= U32_MAX
            && w.n.scratch
               == Some(FlashResumeScratch(
                         w.n.t.sessionId, k, Crc32(Flatten(w.h.blocks[..k])), Flatten(w.h.blocks[..k])))
  {
    BlocksAreFew(w);
    hide Crc32, Flatten;
  }
}
