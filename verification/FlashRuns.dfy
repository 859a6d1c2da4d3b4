/** What holds over every run of packets, clock readings and reboots of the firmware transfer. */
module FlashRuns {
  import opened Bytes
  import opened Crc
  import opened ConfigStore
  import opened BootAuth
  import opened FlashUpdate

  /** A reboot keeps only the store. */
  datatype Event = Packet(cmd: Cmd, tickNow: nat, cmdNow: nat) | Reboot

  /** What happened so far: the blocks accepted in the present transfer, those behind the stored checkpoint,
    and the commits since power-up. */
  datatype History = History(blocks: seq<seq<byte>>, saved: seq<seq<byte>>, commits: nat)

  datatype World = World(n: Node, h: History)

  const START := World(Boot(None), History([], [], 0))

  function BlockData(payload: seq<byte>): seq<byte> {
    if |payload| <= FLASH_BLOCK_HEADER_LEN then [] else payload[FLASH_BLOCK_HEADER_LEN..]
  }

  function Recorded(h: History, n0: Node, n: Node, cmd: Cmd, reply: Reply): History {
    match cmd
    case EnterBootloader(_, _) => if n == SessionStarted(n0) then h.(blocks := []) else h
    case FlashResume(_) => if reply.ResumeAck? && n0.scratch.Some? then h.(blocks := h.saved) else h
    case FlashBlock(payload) =>
      if reply != Ack then h
      else
        var blocks := h.blocks + [BlockData(payload)];
        History(blocks, if |blocks| == 1 || |blocks| % PERSIST_STRIDE == 0 then blocks else h.saved, h.commits)
    case FlashComplete => if reply == Ack then History([], [], h.commits) else h
    case ConfirmBootHealthy => if reply == Ack then h.(commits := h.commits + 1) else h
    case _ => h
  }

  function Step(cfg: Config, w: World, e: Event): World {
    match e
    case Reboot => World(Boot(w.n.scratch), History([], w.h.saved, 0))
    case Packet(cmd, tickNow, cmdNow) =>
      var n0 := TickedNode(w.n, tickNow);
      var (n, reply) := Handled(cfg, n0, cmd, cmdNow);
      World(n, Recorded(w.h, n0, n, cmd, reply))
  }

  function ReplyTo(cfg: Config, w: World, e: Event): Reply
    requires e.Packet?
  {
    Handled(cfg, TickedNode(w.n, e.tickNow), e.cmd, e.cmdNow).1
  }

  function At(cfg: Config, es: seq<Event>, k: nat): World
    requires k <= |es|
    decreases k
  {
    if k == 0 then START else Step(cfg, At(cfg, es, k - 1), es[k - 1])
  }

  // ---- blocks ----

  function Flatten(bs: seq<seq<byte>>): seq<byte> {
    if bs == [] then [] else Flatten(bs[..|bs| - 1]) + bs[|bs| - 1]
  }

  predicate BlocksOk(bs: seq<seq<byte>>) {
    forall i :: 0 <= i < |bs| ==> 0 < |bs[i]| <= FLASH_BLOCK_MAX_BYTES
  }

  lemma FlattenAppend(bs: seq<seq<byte>>, b: seq<byte>)
    ensures Flatten(bs + [b]) == Flatten(bs) + b
  {
    assert (bs + [b])[..|bs|] == bs;
  }

  lemma {:induction false} FlattenSize(bs: seq<seq<byte>>)
    requires BlocksOk(bs)
    ensures |bs| <= |Flatten(bs)| <= FLASH_BLOCK_MAX_BYTES * |bs|
    decreases |bs|
  {
    if bs == [] {
    } else {
      FlattenSize(bs[..|bs| - 1]);
    }
  }

  // ---- the invariant ----

  /** The buffer is the accepted blocks; the flags say where the transfer stands. */
  predicate TransferInv(w: World) {
    var t := w.n.t;
    && BlocksOk(w.h.blocks)
    && t.buffer == Flatten(w.h.blocks)
    && t.nextBlock == |w.h.blocks|
    && |t.buffer| <= FLASH_BUFFER_MAX_BYTES
    && (t.sessionActive <==> w.n.u.state.Receiving? || w.n.u.state.Verified?)
    && (t.verified <==> w.n.u.state.Verified?)
    && (t.verified ==> t.verifiedCrc == Some(Crc32(t.buffer)) && t.verifiedLen == |t.buffer| && !AllZero(t.buffer))
    && (!t.sessionActive ==> w.h.blocks == [])
  }

  /** The checkpoint is a whole number of blocks, and a live transfer is never more than seven ahead of its own. */
  predicate ScratchInv(w: World) {
    var t := w.n.t;
    && (w.n.scratch.Some? ==>
          var s := w.n.scratch.value;
          && BlocksOk(w.h.saved)
          && s.image == Flatten(w.h.saved)
          && s.nextBlock == |w.h.saved|
          && (s.nextBlock == 1 || (s.nextBlock > 0 && s.nextBlock % PERSIST_STRIDE == 0))
          && |s.image| <= FLASH_BUFFER_MAX_BYTES
          && s.rollingCrc == Crc32(s.image))
    && (t.sessionActive && t.nextBlock > 0 ==>
          && w.n.scratch.Some?
          && w.n.scratch.value.sessionId == t.sessionId
          && w.h.saved <= w.h.blocks
          && |w.h.saved| == SavedCount(|w.h.blocks|))
  }

  /** The number of blocks behind the checkpoint of a transfer that has accepted `n`. */
  function SavedCount(n: nat): nat {
    if n == 0 then 0 else if n < PERSIST_STRIDE then 1 else n - n % PERSIST_STRIDE
  }

  /** The banks follow the commits, and a bank is pending exactly while the health window is open. */
  predicate BankInv(w: World) {
    var u := w.n.u;
    && u.activeBank == u.lastGoodBank == (if w.h.commits % 2 == 0 then BANK_A else BANK_B)
    && !u.state.PendingCommit?
    && u.pendingBank == (if u.state.HealthWindow? then Some(OtherBank(u.activeBank)) else None)
    && u.remainingMs <= HEALTH_WINDOW_MS
    && (u.remainingMs > 0 <==> u.state.HealthWindow?)
    && (u.state.HealthWindow? ==> u.lastTick.Some? && u.candidateCrc.Some?)
  }

  predicate Inv(w: World) {
    TransferInv(w) && ScratchInv(w) && BankInv(w)
  }

  lemma TickKeeps(w: World, now: nat)
    requires Inv(w)
    ensures Inv(w.(n := TickedNode(w.n, now)))
  {
    hide Flatten, Crc32;
  }

  function Accepted(w: World, data: seq<byte>): World {
    var t := BlockAccepted(w.n.t, data);
    var blocks := w.h.blocks + [data];
    World(w.n.(t := t, u := w.n.u.(state := Receiving), scratch := CheckpointAfter(t, w.n.scratch)),
          History(blocks, if |blocks| == 1 || |blocks| % PERSIST_STRIDE == 0 then blocks else w.h.saved, w.h.commits))
  }

  predicate CanAccept(w: World, data: seq<byte>) {
    w.n.t.sessionActive && 0 < |data| <= FLASH_BLOCK_MAX_BYTES && |w.n.t.buffer| + |data| <= FLASH_BUFFER_MAX_BYTES
  }

  lemma AcceptedTransfer(w: World, data: seq<byte>)
    requires Inv(w) && CanAccept(w, data)
    ensures TransferInv(Accepted(w, data)) && Accepted(w, data).n.t.nextBlock == w.n.t.nextBlock + 1
  {
    hide Crc32, ScratchInv, CheckpointAfter;
    FlattenAppend(w.h.blocks, data);
    FlattenSize(w.h.blocks);
    hide Flatten;
  }

  lemma AcceptedScratch(w: World, data: seq<byte>)
    requires Inv(w) && CanAccept(w, data)
    ensures ScratchInv(Accepted(w, data))
  {
    hide Crc32, BankInv, Flatten;
    AcceptedTransfer(w, data);
    var blocks := w.h.blocks + [data];
    if |blocks| != 1 && |blocks| % PERSIST_STRIDE != 0 {
      assert w.h.saved <= blocks;
    }
  }

  lemma AcceptedKeeps(w: World, data: seq<byte>)
    requires Inv(w) && CanAccept(w, data)
    ensures Inv(Accepted(w, data))
  {
    hide Crc32, ScratchInv, Flatten, CheckpointAfter;
    AcceptedTransfer(w, data);
    AcceptedScratch(w, data);
  }

  /** A block that is not refused is accepted as such. */
  lemma BlockStep(cfg: Config, w: World, payload: seq<byte>, now: nat)
    requires BlockRefusal(w.n.t, payload).None?
    ensures var (n, reply) := Handled(cfg, w.n, FlashBlock(payload), now);
            && reply == Ack
            && World(n, Recorded(w.h, w.n, n, FlashBlock(payload), reply)) == Accepted(w, BlockData(payload))
            && CanAccept(w, BlockData(payload))
  {
    hide Crc32, U32Val;
  }

  lemma BlockKeeps(cfg: Config, w: World, payload: seq<byte>, now: nat)
    requires Inv(w)
    ensures var (n, reply) := Handled(cfg, w.n, FlashBlock(payload), now);
            Inv(World(n, Recorded(w.h, w.n, n, FlashBlock(payload), reply)))
  {
    hide Inv, Accepted, CanAccept, BlockData;
    if BlockRefusal(w.n.t, payload).None? {
      BlockStep(cfg, w, payload, now);
      AcceptedKeeps(w, BlockData(payload));
    }
  }

  lemma ResumeKeeps(cfg: Config, w: World, payload: seq<byte>, now: nat)
    requires Inv(w)
    ensures var (n, reply) := Handled(cfg, w.n, FlashResume(payload), now);
            Inv(World(n, Recorded(w.h, w.n, n, FlashResume(payload), reply)))
  {
    hide Crc32, U32Val, Flatten;
  }

  lemma OthersKeep(cfg: Config, w: World, cmd: Cmd, now: nat)
    requires Inv(w) && !cmd.FlashBlock? && !cmd.FlashResume?
    ensures var (n, reply) := Handled(cfg, w.n, cmd, now);
            Inv(World(n, Recorded(w.h, w.n, n, cmd, reply)))
  {
    hide Crc32, Attempt, Reg32Val;
  }

  lemma StepKeeps(cfg: Config, w: World, e: Event)
    requires Inv(w)
    ensures Inv(Step(cfg, w, e))
  {
    hide TransferInv, ScratchInv, BankInv, Handled, Recorded;
    match e {
      case Reboot =>
        RebootKeeps(w);
      case Packet(cmd, tickNow, cmdNow) =>
        TickKeeps(w, tickNow);
        var w0 := w.(n := TickedNode(w.n, tickNow));
        match cmd {
          case FlashBlock(payload) => BlockKeeps(cfg, w0, payload, cmdNow);
          case FlashResume(payload) => ResumeKeeps(cfg, w0, payload, cmdNow);
          case _ => OthersKeep(cfg, w0, cmd, cmdNow);
        }
    }
  }

  lemma RebootKeeps(w: World)
    requires Inv(w)
    ensures Inv(World(Boot(w.n.scratch), History([], w.h.saved, 0)))
  {
    hide Crc32;
  }

  /** Every reachable state, across reboots and resumes. */
  lemma {:induction false} InvariantHolds(cfg: Config, es: seq<Event>, k: nat)
    requires k <= |es|
    ensures Inv(At(cfg, es, k))
    decreases k
  {
    if k == 0 {
    } else {
      InvariantHolds(cfg, es, k - 1);
      StepKeeps(cfg, At(cfg, es, k - 1), es[k - 1]);
    }
  }

  /** The block counter never saturates, and both "image changed after verify" refusals are unreachable:
    a completion is accepted exactly in Verified. */
  lemma CompletionNeedsOnlyVerified(cfg: Config, es: seq<Event>, k: nat)
    requires k <= |es|
    ensures var n := At(cfg, es, k).n;
            && n.t.nextBlock <= |n.t.buffer| <= FLASH_BLOCK_MAX_BYTES * n.t.nextBlock
            && n.t.nextBlock < U32_MAX
            && (CompleteRefusal(n.t).None? <==> n.u.state.Verified?)
            && (n.t.sessionActive && n.t.verified ==> CompleteRefusal(n.t).None?)
  {
    hide Crc32;
    InvariantHolds(cfg, es, k);
    FlattenSize(At(cfg, es, k).h.blocks);
  }

  // ---- what each answer means ----

  /** The two clock readings of one packet. */
  datatype Clock = Clock(tick: nat, cmd: nat)

  function Sent(cmd: Cmd, clock: Clock): Event {
    Packet(cmd, clock.tick, clock.cmd)
  }

  /** All that the tick before a refused command may have changed is the health window. */
  ghost predicate OnlyTicked(w: World, v: World, now: nat) {
    v == World(w.n.(u := Ticked(w.n.u, now)), w.h)
  }

  lemma NumberIs(payload: seq<byte>, n: u32)
    requires |payload| >= 4
    ensures U32Val(payload[0], payload[1], payload[2], payload[3]) == n <==> payload[..4] == U32Bytes(n)
  {
    hide U32Bytes, U32Val;
    U32RoundTrip(n);
    U32ValRoundTrip(payload[0], payload[1], payload[2], payload[3]);
    assert payload[..4] == [payload[0], payload[1], payload[2], payload[3]];
    var s := U32Bytes(n);
    assert s == [s[0], s[1], s[2], s[3]];
  }

  lemma BlocksAreFew(w: World)
    requires Inv(w)
    ensures w.n.t.nextBlock == |w.h.blocks| <= |w.n.t.buffer| <= 0x20_0000
    ensures w.n.t.sessionActive && w.n.t.buffer != [] ==> w.h.blocks != []
  {
    hide Crc32;
    FlattenSize(w.h.blocks);
  }

  /** A block is accepted exactly in a session, when it carries the number of blocks accepted before it and one to 1024
    bytes that still fit into 2 MiB; then those bytes are appended, and otherwise nothing changes. */
  lemma BlockAcceptedExactly(cfg: Config, w: World, payload: seq<byte>, clock: Clock)
    requires Inv(w)
    ensures |w.h.blocks| <= U32_MAX
    ensures var e := Sent(FlashBlock(payload), clock);
            ReplyTo(cfg, w, e) == Ack
            <==> && w.n.t.sessionActive
                 && exists data: seq<byte> ::
                      && payload == U32Bytes(|w.h.blocks|) + data
                      && 0 < |data| <= 1024 && |w.n.t.buffer| + |data| <= 0x20_0000
    ensures var e := Sent(FlashBlock(payload), clock); var v := Step(cfg, w, e);
            if ReplyTo(cfg, w, e) == Ack then
              && |payload| > 4
              && v.h.blocks == w.h.blocks + [payload[4..]]
              && v.n.t.buffer == w.n.t.buffer + payload[4..]
              && v.n.u.state.Receiving? && !v.n.t.verified
            else OnlyTicked(w, v, clock.tick)
  {
    hide Crc32, U32Bytes, U32Val, Inv, Flatten, Ticked;
    BlocksAreFew(w);
    var e := Sent(FlashBlock(payload), clock);
    if |payload| > 4 {
      NumberIs(payload, |w.h.blocks|);
      assert payload == payload[..4] + payload[4..];
    }
    if ReplyTo(cfg, w, e) == Ack {
      assert payload == U32Bytes(|w.h.blocks|) + payload[4..];
    }
    if data: seq<byte> :| payload == U32Bytes(|w.h.blocks|) + data && 0 < |data| {
      assert payload[..4] == U32Bytes(|w.h.blocks|) && payload[4..] == data;
    }
  }

  /** How a block is refused. */
  lemma BlockRefusedExactly(cfg: Config, w: World, payload: seq<byte>, clock: Clock)
    requires Inv(w)
    ensures |w.h.blocks| <= U32_MAX
    ensures var reply := ReplyTo(cfg, w, Sent(FlashBlock(payload), clock));
            var numbered := 4 < |payload| <= 1028 && payload[..4] == U32Bytes(|w.h.blocks|);
            && (reply == Nack(MalformedPayload) <==> w.n.t.sessionActive && |payload| <= 4)
            && (reply == Nack(BadSequence) <==> !w.n.t.sessionActive || (4 < |payload| <= 1028 && !numbered))
            && (reply == Nack(RangeOverflow) <==>
                  w.n.t.sessionActive
                  && (|payload| > 1028 || (numbered && |w.n.t.buffer| + |payload| - 4 > 0x20_0000)))
  {
    hide Crc32, U32Bytes, U32Val, Inv, Flatten, Ticked;
    BlocksAreFew(w);
    if |payload| > 4 {
      NumberIs(payload, |w.h.blocks|);
    }
  }

  /** What a FlashVerify shows of an image. Its payload is any of: nothing, the CRC, the tag, the CRC and the tag, the
    CRC and the signature, the CRC, the tag and the signature. */
  ghost predicate CarriesCrc(image: seq<byte>, payload: seq<byte>) {
    |payload| in {4, 20, 68, 84} ==> payload[..4] == Reg32Bytes(Crc32(image))
  }

  ghost predicate CarriesTag(cmd: Cmd)
    requires cmd.FlashVerify?
  {
    |cmd.payload| in {16, 20, 84} ==> cmd.tag.Match?
  }

  ghost predicate CarriesSignature(cfg: Config, cmd: Cmd)
    requires cmd.FlashVerify?
  {
    && (|cmd.payload| in {68, 84} ==> cmd.signatureOk)
    && (cfg.signatureRequired ==> |cmd.payload| in {68, 84})
  }

  ghost predicate NotBlank(image: seq<byte>) {
    exists i :: 0 <= i < |image| && image[i] != 0
  }

  ghost predicate Passes(cfg: Config, image: seq<byte>, cmd: Cmd)
    requires cmd.FlashVerify?
  {
    && NotBlank(image)
    && |cmd.payload| in {0, 4, 16, 20, 68, 84}
    && CarriesCrc(image, cmd.payload)
    && CarriesTag(cmd)
    && CarriesSignature(cfg, cmd)
  }

  lemma CrcFieldIs(payload: seq<byte>, c: bv32)
    requires |payload| >= 4
    ensures Reg32Val(payload[0], payload[1], payload[2], payload[3]) == c <==> payload[..4] == Reg32Bytes(c)
  {
    hide Reg32Bytes, Reg32Val;
    Reg32RoundTrip(c);
    Reg32ValRoundTrip(payload[0], payload[1], payload[2], payload[3]);
    assert payload[..4] == [payload[0], payload[1], payload[2], payload[3]];
    var s := Reg32Bytes(c);
    assert s == [s[0], s[1], s[2], s[3]];
  }

  /** A FlashVerify is accepted exactly in a session whose image passes all of its checks; a refused one changes
    nothing, an earlier verification included. */
  lemma VerifyAcceptedExactly(cfg: Config, w: World, cmd: Cmd, clock: Clock)
    requires Inv(w) && cmd.FlashVerify?
    ensures var e := Sent(cmd, clock);
            ReplyTo(cfg, w, e) == Ack <==> w.n.t.sessionActive && Passes(cfg, w.n.t.buffer, cmd)
    ensures var e := Sent(cmd, clock); var v := Step(cfg, w, e);
            if ReplyTo(cfg, w, e) == Ack then
              v.n.u.state.Verified? && v.n.t.verified && v.n.t.buffer == w.n.t.buffer && v.h == w.h
            else OnlyTicked(w, v, clock.tick)
  {
    hide Crc32, Reg32Bytes, Reg32Val, Inv, Ticked;
    if |cmd.payload| >= 4 {
      CrcFieldIs(cmd.payload, Crc32(w.n.t.buffer));
    }
  }

  /** How a FlashVerify is refused: a tag before a signature, and everything else first. */
  lemma VerifyRefusedExactly(cfg: Config, w: World, cmd: Cmd, clock: Clock)
    requires Inv(w) && cmd.FlashVerify?
    ensures var reply := ReplyTo(cfg, w, Sent(cmd, clock)); var image := w.n.t.buffer;
            var shaped := w.n.t.sessionActive && NotBlank(image) && |cmd.payload| in {0, 4, 16, 20, 68, 84}
                          && CarriesCrc(image, cmd.payload);
            && (reply == Nack(MalformedPayload) <==> !shaped)
            && (reply == Nack(CryptoFail) <==> shaped && !CarriesTag(cmd))
            && (reply == Nack(BadSignature) <==> shaped && CarriesTag(cmd) && !CarriesSignature(cfg, cmd))
  {
    hide Crc32, Reg32Bytes, Reg32Val, Inv, Ticked;
    if |cmd.payload| >= 4 {
      CrcFieldIs(cmd.payload, Crc32(w.n.t.buffer));
    }
  }

  predicate NamesSession(payload: seq<byte>, id: u32) {
    payload == [] || payload == U32Bytes(0) || payload == U32Bytes(id)
  }

  lemma WholeNumberIs(payload: seq<byte>, n: u32)
    requires |payload| == 4
    ensures U32Val(payload[0], payload[1], payload[2], payload[3]) == n <==> payload == U32Bytes(n)
  {
    hide U32Bytes, U32Val;
    NumberIs(payload, n);
    assert payload[..4] == payload;
  }

  /** A FlashResume is accepted exactly in a session, with no session id, a zero one, or the one in the checkpoint;
    without a checkpoint any id will do. The answer names the session, the number of blocks the firmware holds then,
    which are those of the checkpoint if there is one, and their CRC. */
  lemma ResumeAcceptedExactly(cfg: Config, w: World, payload: seq<byte>, clock: Clock)
    requires Inv(w)
    ensures var e := Sent(FlashResume(payload), clock); var v := Step(cfg, w, e); var reply := ReplyTo(cfg, w, e);
            && (reply.ResumeAck? <==>
                  && w.n.t.sessionActive
                  && (match w.n.scratch
                      case None => |payload| == 0 || |payload| == 4
                      case Some(s) => NamesSession(payload, s.sessionId)))
            && (reply.ResumeAck? ==>
                  && |v.h.blocks| <= U32_MAX
                  && reply == ResumeAck(v.n.t.sessionId, |v.h.blocks|, Crc32(Flatten(v.h.blocks)))
                  && v.h.blocks == (if w.n.scratch.Some? then w.h.saved else w.h.blocks)
                  && v.n.t.sessionId
                     == (if w.n.scratch.Some? then w.n.scratch.value.sessionId else w.n.t.sessionId)
                  && v.n.t.sessionActive && v.n.scratch == w.n.scratch)
            && (reply == Nack(MalformedPayload) <==> w.n.t.sessionActive && |payload| != 0 && |payload| != 4)
            && (!reply.ResumeAck? ==>
                  (reply == Nack(MalformedPayload) || reply == Nack(BadSequence)) && OnlyTicked(w, v, clock.tick))
  {
    hide Crc32, U32Bytes, U32Val, Flatten, Ticked;
    var e := Sent(FlashResume(payload), clock);
    StepKeeps(cfg, w, e);
    BlocksAreFew(Step(cfg, w, e));
    hide Inv;
    ResumeCases(cfg, w, payload, clock);
  }

  lemma ResumeCases(cfg: Config, w: World, payload: seq<byte>, clock: Clock)
    requires Inv(w) && Inv(Step(cfg, w, Sent(FlashResume(payload), clock)))
    ensures var e := Sent(FlashResume(payload), clock); var v := Step(cfg, w, e); var reply := ReplyTo(cfg, w, e);
            && (reply.ResumeAck? <==>
                  && w.n.t.sessionActive
                  && (match w.n.scratch
                      case None => |payload| == 0 || |payload| == 4
                      case Some(s) => NamesSession(payload, s.sessionId)))
            && (reply.ResumeAck? ==>
                  && reply == ResumeAck(v.n.t.sessionId, v.n.t.nextBlock, Crc32(v.n.t.buffer))
                  && v.n.t.buffer == Flatten(v.h.blocks)
                  && v.h.blocks == (if w.n.scratch.Some? then w.h.saved else w.h.blocks)
                  && v.n.t.sessionId
                     == (if w.n.scratch.Some? then w.n.scratch.value.sessionId else w.n.t.sessionId)
                  && v.n.t.sessionActive && v.n.scratch == w.n.scratch)
            && (reply == Nack(MalformedPayload) <==> w.n.t.sessionActive && |payload| != 0 && |payload| != 4)
            && (!reply.ResumeAck? ==>
                  (reply == Nack(MalformedPayload) || reply == Nack(BadSequence)) && OnlyTicked(w, v, clock.tick))
  {
    hide Crc32, U32Bytes, U32Val, Flatten, Ticked;
    if |payload| == 4 {
      WholeNumberIs(payload, 0);
      if w.n.scratch.Some? {
        WholeNumberIs(payload, w.n.scratch.value.sessionId);
      }
    }
  }

  // ---- resume after a power loss ----

  function BlockPayload(index: u32, data: seq<byte>): seq<byte> {
    U32Bytes(index) + data
  }

  /** The world after a list of events. */
  function After(cfg: Config, w: World, es: seq<Event>): World
    decreases |es|
  {
    if es == [] then w else After(cfg, Step(cfg, w, es[0]), es[1..])
  }

  lemma {:induction false} AfterConcat(cfg: Config, w: World, es: seq<Event>, fs: seq<Event>)
    ensures After(cfg, w, es + fs) == After(cfg, After(cfg, w, es), fs)
    decreases |es|
  {
    hide Step;
    if es == [] {
      assert es + fs == fs;
    } else {
      assert (es + fs)[1..] == es[1..] + fs;
      AfterConcat(cfg, Step(cfg, w, es[0]), es[1..], fs);
    }
  }

  /** Blocks sent one after another, each at its own time, numbered from `index`. */
  function Replay(index: nat, data: seq<seq<byte>>, clocks: seq<Clock>): seq<Event>
    requires index + |data| <= U32_MAX && |clocks| == |data|
    decreases |data|
  {
    if data == [] then []
    else [Sent(FlashBlock(BlockPayload(index, data[0])), clocks[0])] + Replay(index + 1, data[1..], clocks[1..])
  }

  /** Numbered replay of any blocks that fit appends exactly them. */
  lemma {:induction false} ReplayAppends(cfg: Config, w: World, data: seq<seq<byte>>, clocks: seq<Clock>)
    requires Inv(w) && w.n.t.sessionActive && BlocksOk(data) && |clocks| == |data|
    requires w.n.t.nextBlock + |data| <= U32_MAX
    requires |w.n.t.buffer| + |Flatten(data)| <= FLASH_BUFFER_MAX_BYTES
    ensures var v := After(cfg, w, Replay(w.n.t.nextBlock, data, clocks));
            Inv(v) && v.h.blocks == w.h.blocks + data && v.n.t.sessionId == w.n.t.sessionId && v.n.t.sessionActive
    decreases |data|
  {
    hide Inv, Crc32, U32Bytes, U32Val;
    if data == [] {
      assert w.h.blocks + data == w.h.blocks;
    } else {
      FlattenHead(data);
      AcceptedKeeps(w, data[0]);
      NumberedBlock(cfg, w, data[0], clocks[0]);
      AcceptedFields(w, data[0]);
      hide Accepted, Step, CanAccept, Flatten, BlockPayload;
      ReplayAppends(cfg, Accepted(w, data[0]), data[1..], clocks[1..]);
      assert w.h.blocks + data == (w.h.blocks + [data[0]]) + data[1..];
      assert Replay(w.n.t.nextBlock, data, clocks)[1..] == Replay(w.n.t.nextBlock + 1, data[1..], clocks[1..]);
    }
  }

  lemma {:induction false} FlattenHead(bs: seq<seq<byte>>)
    requires bs != []
    ensures Flatten(bs) == bs[0] + Flatten(bs[1..])
    decreases |bs|
  {
    var front, last := bs[..|bs| - 1], bs[|bs| - 1];
    if |bs| == 1 {
      assert front == [] && bs[1..] == [];
    } else {
      FlattenHead(front);
      assert bs[1..] == front[1..] + [last];
      FlattenAppend(front[1..], last);
      assert front[0] + Flatten(front[1..]) + last == front[0] + (Flatten(front[1..]) + last);
    }
  }

  lemma AcceptedFields(w: World, data: seq<byte>)
    requires w.n.t.nextBlock < U32_MAX
    ensures var v := Accepted(w, data);
            && v.n.t.sessionActive == w.n.t.sessionActive
            && v.n.t.sessionId == w.n.t.sessionId
            && v.n.t.nextBlock == w.n.t.nextBlock + 1
            && |v.n.t.buffer| == |w.n.t.buffer| + |data|
            && v.h.blocks == w.h.blocks + [data]
  {
    hide CheckpointAfter;
  }

  lemma NumberedBlock(cfg: Config, w: World, data: seq<byte>, clock: Clock)
    requires Inv(w) && CanAccept(w, data)
    ensures Step(cfg, w, Sent(FlashBlock(BlockPayload(w.n.t.nextBlock, data)), clock)) == Accepted(w, data)
  {
    hide Crc32, U32Bytes, U32Val, Accepted, Handled, Recorded;
    var p := BlockPayload(w.n.t.nextBlock, data);
    U32RoundTrip(w.n.t.nextBlock);
    assert p[4..] == data;
    assert p[0] == U32Bytes(w.n.t.nextBlock)[0] && p[1] == U32Bytes(w.n.t.nextBlock)[1]
        && p[2] == U32Bytes(w.n.t.nextBlock)[2] && p[3] == U32Bytes(w.n.t.nextBlock)[3];
    assert TickedNode(w.n, clock.tick) == w.n;
    BlockStep(cfg, w, p, clock.cmd);
  }

  /** Power returns and the host enters the bootloader again. */
  function ReEntry(cfg: Config, first: Clock, second: Clock): seq<Event> {
    if cfg.authRequired
    then [Reboot, Sent(EnterBootloader(0, Mismatch), first), Sent(EnterBootloader(RESPONSE_LEN, Match), second)]
    else [Reboot, Sent(EnterBootloader(0, Mismatch), first)]
  }

  lemma ReEntered(cfg: Config, w: World, first: Clock, second: Clock)
    requires Inv(w)
    ensures var v := After(cfg, w, ReEntry(cfg, first, second));
            && Inv(v) && v.n.t.sessionActive
            && v.n.scratch == w.n.scratch && v.h.saved == w.h.saved
  {
    hide Inv, Crc32;
    var es := ReEntry(cfg, first, second);
    var v1 := Step(cfg, w, es[0]);
    StepKeeps(cfg, w, es[0]);
    var v2 := Step(cfg, v1, es[1]);
    StepKeeps(cfg, v1, es[1]);
    if cfg.authRequired {
      assert v2.n.auth == FRESH.(challengePending := true);
      StepKeeps(cfg, v2, es[2]);
      var v3 := Step(cfg, v2, es[2]);
      hide Step;
      assert After(cfg, w, es) == After(cfg, v1, [es[1], es[2]]) by { assert es[1..] == [es[1], es[2]]; }
      assert After(cfg, v1, [es[1], es[2]]) == After(cfg, v2, [es[2]]) by { assert [es[1], es[2]][1..] == [es[2]]; }
      assert After(cfg, v2, [es[2]]) == v3 by { assert [es[2]][1..] == []; }
    } else {
      hide Step;
      assert After(cfg, w, es) == After(cfg, v1, [es[1]]) by { assert es[1..] == [es[1]]; }
      assert After(cfg, v1, [es[1]]) == v2 by { assert [es[1]][1..] == []; }
    }
  }

  lemma ResumedStep(cfg: Config, w: World, payload: seq<byte>, clock: Clock)
    requires Inv(w) && w.n.t.sessionActive && w.n.scratch.Some?
    requires NamesSession(payload, w.n.scratch.value.sessionId)
    ensures var v := Step(cfg, w, Sent(FlashResume(payload), clock));
            && Inv(v) && v.n.t.sessionActive && v.n.scratch == w.n.scratch
            && v.h.blocks == w.h.saved && v.n.t.sessionId == w.n.scratch.value.sessionId
  {
    hide Crc32, U32Bytes, U32Val, Flatten;
    StepKeeps(cfg, w, Sent(FlashResume(payload), clock));
    U32RoundTrip(0);
    U32RoundTrip(w.n.scratch.value.sessionId);
    assert TickedNode(w.n, clock.tick) == w.n;
  }

  lemma {:induction false} FlattenConcat(a: seq<seq<byte>>, b: seq<seq<byte>>)
    ensures Flatten(a + b) == Flatten(a) + Flatten(b)
    decreases |b|
  {
    if b == [] {
      assert a + b == a;
    } else {
      var front, last := b[..|b| - 1], b[|b| - 1];
      assert a + b == (a + front) + [last] && b == front + [last];
      FlattenAppend(a + front, last);
      FlattenAppend(front, last);
      hide Flatten;
      FlattenConcat(a, front);
      assert (Flatten(a) + Flatten(front)) + last == Flatten(a) + (Flatten(front) + last);
    }
  }

  /** The checkpoint is never more than seven blocks behind. Resuming, in the same session or after a power loss and
    re-entry, is answered with the number and the CRC of the blocks behind it, and sending the blocks from that number
    on again rebuilds the identical transfer. */
  lemma ResumeRebuildsTheTransfer(
      cfg: Config, w: World, powerLoss: bool, payload: seq<byte>,
      first: Clock, second: Clock, third: Clock, clocks: seq<Clock>)
    requires Inv(w) && w.n.t.sessionActive && w.n.t.nextBlock > 0
    requires NamesSession(payload, w.n.t.sessionId)
    requires |clocks| >= 7
    ensures var entry := if powerLoss then ReEntry(cfg, first, second) else [];
            var resume := Sent(FlashResume(payload), third);
            var reply := ReplyTo(cfg, After(cfg, w, entry), resume);
            && |w.h.blocks| <= U32_MAX
            && reply.ResumeAck?
            && reply.sessionId == w.n.t.sessionId
            && reply.nextBlock <= |w.h.blocks| <= reply.nextBlock + 7
            && reply.rollingCrc == Crc32(Flatten(w.h.blocks[..reply.nextBlock]))
            && var lost := w.h.blocks[reply.nextBlock..];
               var v := After(cfg, w, entry + ([resume] + Replay(reply.nextBlock, lost, clocks[..|lost|])));
               && v.n.t.buffer == w.n.t.buffer
               && v.n.t.nextBlock == w.n.t.nextBlock
               && v.n.t.sessionId == w.n.t.sessionId
               && v.n.t.sessionActive
  {
    hide Crc32, U32Bytes, U32Val, Step, Flatten, ReplyTo;
    var lost := w.h.blocks[|w.h.saved|..];
    FlattenSize(w.h.blocks);
    assert w.h.blocks == w.h.saved + lost;
    assert w.h.blocks[..|w.h.saved|] == w.h.saved;
    FlattenConcat(w.h.saved, lost);
    var entry := if powerLoss then ReEntry(cfg, first, second) else [];
    var v1 := After(cfg, w, entry);
    if powerLoss {
      ReEntered(cfg, w, first, second);
    }
    var resume := Sent(FlashResume(payload), third);
    ResumedStep(cfg, v1, payload, third);
    ResumeAcceptedExactly(cfg, v1, payload, third);
    var v2 := Step(cfg, v1, resume);
    ReplayAppends(cfg, v2, lost, clocks[..|lost|]);
    var replay := Replay(|w.h.saved|, lost, clocks[..|lost|]);
    assert ([resume] + replay)[1..] == replay;
    AfterConcat(cfg, w, entry, [resume] + replay);
  }

  // ---- where a commit comes from ----

  /** Going back from Verified: the verify that succeeded, and nothing touched the image since. */
  lemma {:induction false} VerifiedOrigin(cfg: Config, es: seq<Event>, k: nat) returns (v: nat)
    requires k <= |es| && At(cfg, es, k).n.u.state.Verified?
    ensures v < k && es[v].Packet? && es[v].cmd.FlashVerify? && ReplyTo(cfg, At(cfg, es, v), es[v]) == Ack
    ensures forall j :: v <= j <= k ==> At(cfg, es, j).n.t.buffer == At(cfg, es, k).n.t.buffer
                                        && At(cfg, es, j).h.blocks == At(cfg, es, k).h.blocks
    ensures forall j :: v < j <= k ==> At(cfg, es, j).n.u.state.Verified?
    decreases k
  {
    hide Step, Inv, ReplyTo;
    InvariantHolds(cfg, es, k - 1);
    VerifiedStep(cfg, At(cfg, es, k - 1), es[k - 1]);
    if es[k - 1].Packet? && es[k - 1].cmd.FlashVerify? && ReplyTo(cfg, At(cfg, es, k - 1), es[k - 1]) == Ack {
      v := k - 1;
    } else {
      v := VerifiedOrigin(cfg, es, k - 1);
    }
  }

  lemma VerifiedStep(cfg: Config, w: World, e: Event)
    requires Inv(w) && Step(cfg, w, e).n.u.state.Verified?
    ensures Step(cfg, w, e).n.t.buffer == w.n.t.buffer && Step(cfg, w, e).h.blocks == w.h.blocks
    ensures (e.Packet? && e.cmd.FlashVerify? && ReplyTo(cfg, w, e) == Ack) || w.n.u.state.Verified?
  {
    hide Crc32, Reg32Val, Attempt, VerifyRefusal, BlockRefusal, Flatten;
  }

  /** Going back from an open health window: the completion that opened it on a verified image. */
  lemma {:induction false} WindowOrigin(cfg: Config, es: seq<Event>, k: nat) returns (c: nat)
    requires k <= |es| && At(cfg, es, k).n.u.state.HealthWindow?
    ensures c < k && es[c].Packet? && es[c].cmd.FlashComplete? && ReplyTo(cfg, At(cfg, es, c), es[c]) == Ack
    ensures At(cfg, es, c).n.u.state.Verified?
    ensures At(cfg, es, k).n.u.candidateCrc == Some(Crc32(At(cfg, es, c).n.t.buffer))
    ensures At(cfg, es, k).n.u.candidateSize == |At(cfg, es, c).n.t.buffer|
    ensures forall j :: c < j <= k ==> At(cfg, es, j).n.u.state.HealthWindow?
    decreases k
  {
    hide Crc32, Step, Inv, ReplyTo;
    InvariantHolds(cfg, es, k - 1);
    WindowStep(cfg, At(cfg, es, k - 1), es[k - 1]);
    if At(cfg, es, k - 1).n.u.state.HealthWindow? {
      c := WindowOrigin(cfg, es, k - 1);
    } else {
      c := k - 1;
    }
  }

  lemma WindowStep(cfg: Config, w: World, e: Event)
    requires Inv(w) && Step(cfg, w, e).n.u.state.HealthWindow?
    ensures e.Packet?
    ensures if w.n.u.state.HealthWindow? then
              && Step(cfg, w, e).n.u.candidateCrc == w.n.u.candidateCrc
              && Step(cfg, w, e).n.u.candidateSize == w.n.u.candidateSize
              && Ticked(w.n.u, e.tickNow).state.HealthWindow?
              && Step(cfg, w, e).n.u.remainingMs == Ticked(w.n.u, e.tickNow).remainingMs
              && Step(cfg, w, e).n.u.lastTick == Some(e.tickNow)
            else
              && w.n.u.state.Verified? && e.cmd.FlashComplete? && ReplyTo(cfg, w, e) == Ack
              && Step(cfg, w, e).n.u.candidateCrc == Some(Crc32(w.n.t.buffer))
              && Step(cfg, w, e).n.u.candidateSize == |w.n.t.buffer|
              && Step(cfg, w, e).n.u.remainingMs == HEALTH_WINDOW_MS
              && Step(cfg, w, e).n.u.lastTick == Some(e.cmdNow)
  {
    hide Crc32, Reg32Val, U32Val, Attempt, VerifyRefusal, Flatten, GapMs;
  }

  lemma CommitStep(cfg: Config, w: World, e: Event)
    requires Inv(w) && e.Packet? && Step(cfg, w, e).n.u.activeBank != w.n.u.activeBank
    ensures e.cmd.ConfirmBootHealthy? && ReplyTo(cfg, w, e) == Ack
    ensures w.n.u.state.HealthWindow? && Ticked(w.n.u, e.tickNow).state.HealthWindow?
    ensures Step(cfg, w, e).n.u.activeBank == Step(cfg, w, e).n.u.lastGoodBank == OtherBank(w.n.u.activeBank)
  {
    hide Crc32, Reg32Val, U32Val, Attempt, VerifyRefusal, Flatten, GapMs;
  }

  /** While power stays on, the active bank changes only when a healthy boot is confirmed inside a window that has
    not expired. That window was opened by completing an image that passed every check of a FlashVerify after the
    last of its blocks and was not touched since, and its candidate is that image. */
  lemma CommitProvenance(cfg: Config, es: seq<Event>, k: nat) returns (v: nat, c: nat)
    requires k < |es| && es[k].Packet?
    requires At(cfg, es, k + 1).n.u.activeBank != At(cfg, es, k).n.u.activeBank
    ensures es[k].cmd.ConfirmBootHealthy? && ReplyTo(cfg, At(cfg, es, k), es[k]) == Ack
    ensures Ticked(At(cfg, es, k).n.u, es[k].tickNow).state.HealthWindow?
    ensures At(cfg, es, k + 1).n.u.activeBank == OtherBank(At(cfg, es, k).n.u.activeBank)
    ensures v < c < k
    ensures es[v].Packet? && es[v].cmd.FlashVerify? && ReplyTo(cfg, At(cfg, es, v), es[v]) == Ack
    ensures es[c].Packet? && es[c].cmd.FlashComplete? && ReplyTo(cfg, At(cfg, es, c), es[c]) == Ack
    ensures var image := Flatten(At(cfg, es, v).h.blocks);
            && (forall j :: v <= j <= c ==> At(cfg, es, j).n.t.buffer == image
                                            && At(cfg, es, j).h.blocks == At(cfg, es, v).h.blocks)
            && (forall j :: v < j <= c ==> At(cfg, es, j).n.u.state.Verified?)
            && (forall j :: c < j <= k ==> At(cfg, es, j).n.u.state.HealthWindow?)
            && At(cfg, es, k).n.u.candidateCrc == Some(Crc32(image))
            && At(cfg, es, k).n.u.candidateSize == |image|
            && Passes(cfg, image, es[v].cmd)
  {
    hide Crc32, Step, ReplyTo, Flatten, Ticked, Passes;
    InvariantHolds(cfg, es, k);
    CommitStep(cfg, At(cfg, es, k), es[k]);
    c := WindowOrigin(cfg, es, k);
    v := VerifiedOrigin(cfg, es, c);
    InvariantHolds(cfg, es, v);
    VerifyAcceptedExactly(cfg, At(cfg, es, v), es[v].cmd, Clock(es[v].tickNow, es[v].cmdNow));
  }

  // ---- what a reboot does to the banks ----

  /** The active bank changes exactly at a confirmation that is accepted, or at a reboot while bank B is active:
    nothing about the banks is stored, so a reboot starts on bank A whatever was committed. */
  lemma BankChangesExactly(cfg: Config, es: seq<Event>, k: nat)
    requires k < |es|
    ensures At(cfg, es, k + 1).n.u.activeBank != At(cfg, es, k).n.u.activeBank
            <==> if es[k].Packet?
                 then es[k].cmd.ConfirmBootHealthy? && ReplyTo(cfg, At(cfg, es, k), es[k]) == Ack
                 else At(cfg, es, k).n.u.activeBank == BANK_B
  {
    hide Step, ReplyTo;
    InvariantHolds(cfg, es, k);
    var w, e := At(cfg, es, k), es[k];
    if e.Packet? {
      if Step(cfg, w, e).n.u.activeBank != w.n.u.activeBank {
        CommitStep(cfg, w, e);
      }
      if e.cmd.ConfirmBootHealthy? && ReplyTo(cfg, w, e) == Ack {
        ConfirmedStep(cfg, w, e);
      }
    } else {
      RebootStep(cfg, w);
    }
  }

  lemma ConfirmedStep(cfg: Config, w: World, e: Event)
    requires Inv(w) && e.Packet? && e.cmd.ConfirmBootHealthy? && ReplyTo(cfg, w, e) == Ack
    ensures Step(cfg, w, e).n.u.activeBank != w.n.u.activeBank
  {
    hide Crc32, Flatten, GapMs, TransferInv, ScratchInv;
    TickKeeps(w, e.tickNow);
  }

  lemma RebootStep(cfg: Config, w: World)
    ensures Step(cfg, w, Reboot).n.u.activeBank == BANK_A
  {
  }

  lemma OneBlockTaken(cfg: Config, w: World, block: seq<byte>)
    requires Inv(w) && w.n.t.sessionActive && w.n.t.nextBlock == 0 && block == U32Bytes(0) + [1]
    ensures var v := Step(cfg, w, Packet(FlashBlock(block), 0, 0));
            v.n.t.sessionActive && v.n.t.buffer == [1] && v.n.u.activeBank == w.n.u.activeBank
  {
    hide Crc32, U32Bytes, U32Val, ScratchInv;
    U32RoundTrip(0);
    assert Flatten([]) == [];
    assert block[4..] == [1];
  }

  lemma PlainVerify(cfg: Config, w: World)
    requires Inv(w) && w.n.t.sessionActive && w.n.t.buffer == [1] && !cfg.signatureRequired
    ensures var v := Step(cfg, w, Packet(FlashVerify([], Mismatch, false), 0, 0));
            v.n.u.state.Verified? && v.n.u.activeBank == w.n.u.activeBank
  {
    hide Crc32, Flatten;
    assert w.n.t.buffer[0] == 1;
  }

  lemma CompletedAndConfirmed(cfg: Config, w: World)
    requires Inv(w) && w.n.u.state.Verified?
    ensures var v := Step(cfg, Step(cfg, w, Packet(FlashComplete, 0, 0)), Packet(ConfirmBootHealthy, 0, 0));
            v.n.u.activeBank == v.n.u.lastGoodBank == OtherBank(w.n.u.activeBank)
  {
    hide Crc32, Flatten;
  }

  /** One block is sent, verified, completed and confirmed, and then power is lost. */
  function CommitRun(block: seq<byte>): (es: seq<Event>)
    ensures |es| == 6
  {
    [Packet(EnterBootloader(0, Mismatch), 0, 0), Packet(FlashBlock(block), 0, 0),
     Packet(FlashVerify([], Mismatch, false), 0, 0), Packet(FlashComplete, 0, 0),
     Packet(ConfirmBootHealthy, 0, 0), Reboot]
  }

  lemma CommitRunVerifies(cfg: Config, es: seq<Event>, block: seq<byte>)
    requires !cfg.authRequired && !cfg.signatureRequired
    requires es == CommitRun(block) && block == U32Bytes(0) + [1]
    ensures At(cfg, es, 3).n.u.state.Verified? && At(cfg, es, 3).n.u.activeBank == BANK_A
  {
    hide At, Inv, U32Bytes, Step;
    Started(cfg, es);
    InvariantHolds(cfg, es, 1);
    OneBlockTaken(cfg, At(cfg, es, 1), block);
    AtNext(cfg, es, 1);
    InvariantHolds(cfg, es, 2);
    PlainVerify(cfg, At(cfg, es, 2));
    AtNext(cfg, es, 2);
  }

  /** A run that commits bank B and then loses it: the reboot is back on bank A. */
  lemma RebootForgetsACommit(cfg: Config, es: seq<Event>)
    requires !cfg.authRequired && !cfg.signatureRequired && es == CommitRun(U32Bytes(0) + [1])
    ensures At(cfg, es, 5).n.u.activeBank == At(cfg, es, 5).n.u.lastGoodBank == BANK_B
    ensures At(cfg, es, 6).n.u.activeBank == BANK_A
  {
    hide At, Inv, U32Bytes, Step;
    CommitRunVerifies(cfg, es, U32Bytes(0) + [1]);
    InvariantHolds(cfg, es, 3);
    CompletedAndConfirmed(cfg, At(cfg, es, 3));
    AtNext(cfg, es, 3);
    AtNext(cfg, es, 4);
    AtNext(cfg, es, 5);
    RebootStep(cfg, At(cfg, es, 5));
  }

  lemma AtNext(cfg: Config, es: seq<Event>, k: nat)
    requires k < |es|
    ensures At(cfg, es, k + 1) == Step(cfg, At(cfg, es, k), es[k])
  {
  }

  lemma Started(cfg: Config, es: seq<Event>)
    requires !cfg.authRequired && |es| > 0 && es[0] == Packet(EnterBootloader(0, Mismatch), 0, 0)
    ensures var n := At(cfg, es, 1).n; n.t.sessionActive && n.t.nextBlock == 0 && n.u.activeBank == BANK_A
  {
    AtNext(cfg, es, 0);
    assert At(cfg, es, 0) == START;
  }

  // ---- when a window rolls back ----

  /** The clock reading each tick of the window is measured from. */
  function LastReading(es: seq<Event>, c: nat, k: nat): nat
    requires c < k <= |es| && es[c].Packet? && es[k - 1].Packet?
  {
    if k == c + 1 then es[c].cmdNow else es[k - 1].tickNow
  }

  /** The whole milliseconds seen by the ticks of the packets after `c` and before `k`. */
  function GapSum(es: seq<Event>, c: nat, k: nat): nat
    requires c < k <= |es| && forall j :: c <= j < k ==> es[j].Packet?
    decreases k
  {
    if k == c + 1 then 0
    else GapSum(es, c, k - 1) + GapMs(LastReading(es, c, k - 1), es[k - 1].tickNow)
  }

  /** The remaining time is the window less the whole milliseconds seen so far. */
  lemma {:induction false} RemainingIsWindowLessGaps(cfg: Config, es: seq<Event>, c: nat, k: nat)
    requires c < k <= |es|
    requires es[c].Packet? && es[c].cmd.FlashComplete? && !At(cfg, es, c).n.u.state.HealthWindow?
    requires forall j :: c < j <= k ==> At(cfg, es, j).n.u.state.HealthWindow?
    ensures forall j :: c <= j < k ==> es[j].Packet?
    ensures At(cfg, es, k).n.u.remainingMs == HEALTH_WINDOW_MS - GapSum(es, c, k)
    ensures At(cfg, es, k).n.u.lastTick == Some(LastReading(es, c, k))
    decreases k
  {
    hide Crc32, Step, TransferInv, ScratchInv, ReplyTo, GapMs, Ticked;
    InvariantHolds(cfg, es, k - 1);
    assert At(cfg, es, k).n.u.state.HealthWindow?;
    WindowStep(cfg, At(cfg, es, k - 1), es[k - 1]);
    if k > c + 1 {
      RemainingIsWindowLessGaps(cfg, es, c, k - 1);
      TickCases(At(cfg, es, k - 1).n.u, LastReading(es, c, k - 1), es[k - 1].tickNow);
    }
  }

  /** A tick of an open window: it stays open and loses the gap, or the gap uses it up and it rolls back. */
  lemma TickCases(u: Update, last: nat, now: nat)
    requires u.state.HealthWindow? && u.lastTick == Some(last) && u.remainingMs > 0
    ensures Ticked(u, now).state.HealthWindow? <==> GapMs(last, now) < u.remainingMs
    ensures Ticked(u, now).state.HealthWindow? ==> Ticked(u, now).remainingMs == u.remainingMs - GapMs(last, now)
    ensures !Ticked(u, now).state.HealthWindow? ==>
              && Ticked(u, now).state.RolledBack?
              && Ticked(u, now).activeBank == u.lastGoodBank
              && Ticked(u, now).pendingBank == None
  {
    hide GapMs;
  }

  predicate ClockRuns(es: seq<Event>, c: nat, k: nat) {
    && c < k < |es|
    && (forall j :: c <= j <= k ==> es[j].Packet? && es[j].tickNow <= es[j].cmdNow)
    && (forall j :: c < j <= k ==> es[j - 1].cmdNow <= es[j].tickNow)
  }

  lemma GapBounds(last: nat, now: nat)
    requires last <= now
    ensures GapMs(last, now) * MS <= now - last
    ensures GapMs(last, now) < U32_MAX ==> now - last < (GapMs(last, now) + 1) * MS
  {
  }

  /** Whole-millisecond gaps lose less than a millisecond a packet. */
  lemma {:induction false} GapSumBounds(es: seq<Event>, c: nat, k: nat)
    requires ClockRuns(es, c, k)
    ensures GapSum(es, c, k) * MS <= LastReading(es, c, k) - es[c].cmdNow
    ensures GapSum(es, c, k) < U32_MAX ==>
              LastReading(es, c, k) - es[c].cmdNow <= (GapSum(es, c, k) + (k - c - 1)) * MS
    ensures es[c].cmdNow <= LastReading(es, c, k) <= es[k].tickNow
    decreases k
  {
    if k > c + 1 {
      assert ClockRuns(es, c, k - 1);
      assert es[k - 1].tickNow <= es[k - 1].cmdNow <= es[k].tickNow;
      GapSumBounds(es, c, k - 1);
      GapBounds(LastReading(es, c, k - 1), es[k - 1].tickNow);
      hide GapMs;
    }
  }

  /** The window open until packet `k`: that packet rolls it back exactly when the whole milliseconds seen since
    completion reach 30000. So it never happens earlier than 30000 ms after completion, and it has happened by
    the first packet that comes 30000 ms plus one per packet after it. */
  lemma RollbackTiming(cfg: Config, es: seq<Event>, c: nat, k: nat)
    requires ClockRuns(es, c, k)
    requires es[c].cmd.FlashComplete? && !At(cfg, es, c).n.u.state.HealthWindow?
    requires forall j :: c < j <= k ==> At(cfg, es, j).n.u.state.HealthWindow?
    ensures var rolledBack := Ticked(At(cfg, es, k).n.u, es[k].tickNow).state.RolledBack?;
            && (rolledBack <==> GapSum(es, c, k) + GapMs(LastReading(es, c, k), es[k].tickNow) >= HEALTH_WINDOW_MS)
            && (rolledBack ==> es[k].tickNow - es[c].cmdNow >= HEALTH_WINDOW_MS * MS)
            && (es[k].tickNow - es[c].cmdNow >= (HEALTH_WINDOW_MS + (k - c)) * MS ==> rolledBack)
  {
    hide Crc32, Step, ReplyTo, GapMs, Ticked;
    RemainingIsWindowLessGaps(cfg, es, c, k);
    InvariantHolds(cfg, es, k);
    TickCases(At(cfg, es, k).n.u, LastReading(es, c, k), es[k].tickNow);
    GapSumBounds(es, c, k);
    GapBounds(LastReading(es, c, k), es[k].tickNow);
  }

  // ---- a window that never rolls back ----

  /** Packets that leave the transfer alone, each less than a millisecond after the one before. */
  predicate FastPolls(last: nat, es: seq<Event>) {
    && (forall j :: 0 <= j < |es| ==> es[j].Packet? && es[j].cmd.Other?)
    && (es != [] ==> es[0].tickNow < last + MS)
    && (forall j :: 1 <= j < |es| ==> es[j].tickNow < es[j - 1].tickNow + MS)
  }

  /** No such packet takes anything off an open window, however many there are. */
  lemma {:induction false} FastPollingFreezesTheWindow(cfg: Config, w: World, last: nat, es: seq<Event>)
    requires w.n.u.state.HealthWindow? && w.n.u.lastTick == Some(last) && FastPolls(last, es)
    ensures After(cfg, w, es).n.u
         == w.n.u.(lastTick := Some(if es == [] then last else es[|es| - 1].tickNow))
    decreases |es|
  {
    if es == [] {
    } else {
      var v := Step(cfg, w, es[0]);
      assert GapMs(last, es[0].tickNow) == 0;
      assert v.n.u == w.n.u.(lastTick := Some(es[0].tickNow));
      hide Step;
      FastPollingFreezesTheWindow(cfg, v, es[0].tickNow, es[1..]);
    }
  }

  /** `n` packets half a millisecond apart. */
  function HalfMillisecondPolls(start: nat, n: nat): (es: seq<Event>)
    ensures |es| == n
  {
    seq(n, i requires 0 <= i < n => Packet(Other, start + (i + 1) * (MS / 2), start + (i + 1) * (MS / 2)))
  }

  /** A host that asks every half millisecond keeps the window open for as long as it likes: after `n` packets and `n`
    half milliseconds all of the remaining time is still there. */
  lemma WindowNeedNotExpire(cfg: Config, w: World, start: nat, n: nat)
    requires w.n.u.state.HealthWindow? && w.n.u.lastTick == Some(start)
    ensures var u := After(cfg, w, HalfMillisecondPolls(start, n)).n.u;
            && u.state.HealthWindow?
            && u.remainingMs == w.n.u.remainingMs
            && u.lastTick == Some(start + n * (MS / 2))
  {
    hide After;
    FastPollingFreezesTheWindow(cfg, w, start, HalfMillisecondPolls(start, n));
  }
}
