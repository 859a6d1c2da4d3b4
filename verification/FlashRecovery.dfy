/** Recovering a firmware transfer when the recovery itself is interrupted: power may be lost again before the host is
  back in a session, before it resumes, or anywhere among the blocks it sends again. */
module FlashRecovery {
  import opened Bytes
  import opened Crc
  import opened ConfigStore
  import opened BootAuth
  import opened FlashUpdate
  import opened FlashRuns

  /** One attempt, each packet at its own time: power is lost and that is all, or the host gets back into a session, or
    it also resumes and sends the blocks after the checkpoint, as many as there are clock readings for. */
  datatype Try =
    | PowerLost
    | Entered(first: Clock, second: Clock)
    | Resumed(first: Clock, second: Clock, third: Clock, payload: seq<byte>, clocks: seq<Clock>)

  /** How many of `blocks` an attempt sends. */
  function SentBlocks(blocks: nat, clocks: seq<Clock>): (n: nat)
    ensures n <= |clocks| && n <= blocks && (|clocks| >= blocks ==> n == blocks)
  {
    Min(|clocks|, blocks)
  }

  /** The block a host is told to go on from when it has re-entered and resumes. */
  ghost function ToldNext(cfg: Config, w: World, a: Try): nat
    requires a.Resumed?
  {
    match ReplyTo(cfg, After(cfg, w, ReEntry(cfg, a.first, a.second)), Sent(FlashResume(a.payload), a.third))
    case ResumeAck(_, next, _) => next
    case _ => 0
  }

  /** What a host sends: after a resume, the blocks of its image from the one it is told. */
  ghost function TryEvents(cfg: Config, w: World, target: seq<seq<byte>>, a: Try): seq<Event>
    requires |target| <= U32_MAX
  {
    match a
    case PowerLost => [Reboot]
    case Entered(first, second) => ReEntry(cfg, first, second)
    case Resumed(first, second, third, payload, clocks) =>
      var next := ToldNext(cfg, w, a);
      ReEntry(cfg, first, second)
      + ([Sent(FlashResume(payload), third)]
         + if next > |target| then []
           else
             var n := SentBlocks(|target| - next, clocks);
             Replay(next, target[next..next + n], clocks[..n]))
  }

  /** The store holds a checkpoint of the transfer of `target` in session `id`. */
  ghost predicate Recoverable(w: World, id: u32, target: seq<seq<byte>>) {
    && Inv(w)
    && w.n.scratch.Some? && w.n.scratch.value.sessionId == id
    && w.h.saved <= target
    && BlocksOk(target) && |target| <= U32_MAX && |Flatten(target)| <= FLASH_BUFFER_MAX_BYTES
  }

  predicate Names(a: Try, id: u32) {
    a.Resumed? ==> NamesSession(a.payload, id)
  }

  lemma {:induction false} FlattenPrefix(bs: seq<seq<byte>>, n: nat)
    requires n <= |bs|
    ensures |Flatten(bs[..n])| <= |Flatten(bs)|
    decreases |bs|
  {
    if n == |bs| {
      assert bs[..n] == bs;
    } else {
      assert bs[..|bs| - 1][..n] == bs[..n];
      FlattenPrefix(bs[..|bs| - 1], n);
    }
  }

  lemma BlocksOkSlice(bs: seq<seq<byte>>, i: nat, j: nat)
    requires BlocksOk(bs) && i <= j <= |bs|
    ensures BlocksOk(bs[i..j])
  {
  }

  /** What a checkpoint is once a session has accepted blocks. */
  lemma CheckpointOfSession(w: World)
    requires Inv(w) && w.n.t.sessionActive && w.h.blocks != []
    ensures w.n.scratch.Some? && w.n.scratch.value.sessionId == w.n.t.sessionId && w.h.saved <= w.h.blocks
    ensures w.n.t.nextBlock == |w.h.blocks| && w.n.t.buffer == Flatten(w.h.blocks)
  {
    hide Flatten, Crc32;
  }

  lemma SavedNotEmpty(w: World)
    requires Inv(w) && w.n.scratch.Some?
    ensures w.h.saved != []
  {
    hide Flatten, Crc32;
  }

  lemma TransferOf(w: World)
    requires Inv(w)
    ensures w.n.t.nextBlock == |w.h.blocks| && w.n.t.buffer == Flatten(w.h.blocks)
  {
    hide Flatten, Crc32;
  }

  lemma RebootOnly(cfg: Config, w: World)
    requires Inv(w)
    ensures var v := After(cfg, w, [Reboot]); Inv(v) && v.n.scratch == w.n.scratch && v.h.saved == w.h.saved
  {
    hide Inv;
    RebootKeeps(w);
    assert [Reboot][1..] == [];
    assert After(cfg, w, [Reboot]) == Step(cfg, w, Reboot);
  }

  /** The answer to a resume names the blocks behind the checkpoint. */
  lemma ToldTheCheckpoint(cfg: Config, w: World, id: u32, target: seq<seq<byte>>, a: Try)
    requires Recoverable(w, id, target) && Names(a, id) && a.Resumed?
    ensures ToldNext(cfg, w, a) == |w.h.saved|
  {
    hide Inv, Step, ReplyTo, Flatten, Crc32, U32Bytes, After, ReEntry;
    ReEntered(cfg, w, a.first, a.second);
    ResumeAcceptedExactly(cfg, After(cfg, w, ReEntry(cfg, a.first, a.second)), a.payload, a.third);
  }

  /** An attempt, wherever it breaks off, leaves a checkpoint of the same transfer; one that resumes holds the blocks up
    to the last it has sent. */
  lemma TryKeeps(cfg: Config, w: World, id: u32, target: seq<seq<byte>>, a: Try)
    requires Recoverable(w, id, target) && Names(a, id)
    ensures var v := After(cfg, w, TryEvents(cfg, w, target, a));
            && Recoverable(v, id, target)
            && (a.Resumed? ==>
                  && v.n.t.sessionActive && v.n.t.sessionId == id
                  && v.h.blocks
                     == target[..|w.h.saved| + SentBlocks(|target| - |w.h.saved|, a.clocks)])
  {
    hide Inv, Step, Flatten, Crc32, U32Bytes, After, ReEntry, Replay, ToldNext;
    match a {
      case PowerLost =>
        RebootOnly(cfg, w);
      case Entered(first, second) =>
        ReEntered(cfg, w, first, second);
      case Resumed(first, second, third, payload, clocks) =>
        ToldTheCheckpoint(cfg, w, id, target, a);
        var n := SentBlocks(|target| - |w.h.saved|, clocks);
        var data := target[|w.h.saved|..|w.h.saved| + n];
        var v1 := After(cfg, w, ReEntry(cfg, first, second));
        ReEntered(cfg, w, first, second);
        var resume := Sent(FlashResume(payload), third);
        ResumedStep(cfg, v1, payload, third);
        var v2 := Step(cfg, v1, resume);
        TransferOf(v2);
        BlocksOkSlice(target, |w.h.saved|, |w.h.saved| + n);
        assert w.h.saved + data == target[..|w.h.saved| + n];
        FlattenConcat(w.h.saved, data);
        FlattenPrefix(target, |w.h.saved| + n);
        ReplayAppends(cfg, v2, data, clocks[..n]);
        var replay := Replay(|w.h.saved|, data, clocks[..n]);
        StepThen(cfg, v1, resume, replay);
        AfterConcat(cfg, w, ReEntry(cfg, first, second), [resume] + replay);
        SavedNotEmpty(w);
        CheckpointOfSession(After(cfg, v2, replay));
    }
  }

  lemma StepThen(cfg: Config, w: World, e: Event, es: seq<Event>)
    ensures After(cfg, w, [e] + es) == After(cfg, Step(cfg, w, e), es)
  {
    hide Step;
    assert ([e] + es)[1..] == es;
  }

  /** The world after attempts one after another, each from the checkpoint the one before has left. */
  ghost function AfterTries(cfg: Config, w: World, id: u32, target: seq<seq<byte>>, tries: seq<Try>): (v: World)
    requires Recoverable(w, id, target) && forall i :: 0 <= i < |tries| ==> Names(tries[i], id)
    ensures Recoverable(v, id, target)
    decreases |tries|
  {
    if tries == [] then w
    else
      TryKeeps(cfg, w, id, target, tries[0]);
      AfterTries(cfg, After(cfg, w, TryEvents(cfg, w, target, tries[0])), id, target, tries[1..])
  }

  lemma TransferIsRecoverable(w: World)
    requires Inv(w) && w.n.t.sessionActive && w.n.t.nextBlock > 0
    ensures Recoverable(w, w.n.t.sessionId, w.h.blocks)
  {
    TransferOf(w);
    FlattenSize(w.h.blocks);
    hide Crc32, Flatten;
  }

  /** However often power is lost while a host recovers, and wherever, one attempt that gets through rebuilds the
    identical transfer. */
  lemma InterruptedRecoveryRebuildsTheTransfer(cfg: Config, w: World, tries: seq<Try>, last: Try)
    requires Inv(w) && w.n.t.sessionActive && w.n.t.nextBlock > 0
    requires forall i :: 0 <= i < |tries| ==> Names(tries[i], w.n.t.sessionId)
    requires last.Resumed? && Names(last, w.n.t.sessionId) && |last.clocks| >= |w.h.blocks|
    ensures Recoverable(w, w.n.t.sessionId, w.h.blocks)
    ensures var before := AfterTries(cfg, w, w.n.t.sessionId, w.h.blocks, tries);
            var v := After(cfg, before, TryEvents(cfg, before, w.h.blocks, last));
            && v.n.t.buffer == w.n.t.buffer
            && v.n.t.nextBlock == w.n.t.nextBlock
            && v.n.t.sessionId == w.n.t.sessionId
            && v.n.t.sessionActive
  {
    hide Inv, After, Flatten, TryEvents;
    TransferIsRecoverable(w);
    var before := AfterTries(cfg, w, w.n.t.sessionId, w.h.blocks, tries);
    TryKeeps(cfg, before, w.n.t.sessionId, w.h.blocks, last);
    var v := After(cfg, before, TryEvents(cfg, before, w.h.blocks, last));
    assert v.h.blocks == w.h.blocks;
    TransferOf(v);
    TransferOf(w);
  }
}
