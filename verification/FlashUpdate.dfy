/** Firmware transfer and the two-bank update of src/transport.rs: ordered block reception, resume checkpoints,
  verify, complete, and the health window that commits or rolls back. A packet is handled in two steps,
  the health-window tick and then the command, each with its own clock reading in nanoseconds. */
module FlashUpdate {
  import opened Bytes
  import opened Crc
  import opened ConfigStore
  import opened BootAuth

  const FLASH_BLOCK_HEADER_LEN: nat := 4
  const FLASH_BLOCK_MAX_BYTES: nat := 1024
  const FLASH_BUFFER_MAX_BYTES: nat := 2 * 1024 * 1024
  const PERSIST_STRIDE: nat := 8
  const CRC_LEN: nat := 4
  const TAG_LEN: nat := 16
  const SIGNATURE_LEN: nat := 64
  const BANK_A: nat := 1
  const BANK_B: nat := 2
  const HEALTH_WINDOW_MS: nat := 30_000

  datatype UpdateState = Idle | Receiving | Verified | PendingCommit | HealthWindow | Committed | RolledBack

  datatype NackCode =
    | UnsupportedCommand | MalformedPayload | StorageFailure | LockActive | BadSequence | RangeOverflow
    | CryptoFail | BadSignature | RateLimitExceeded | NotAuthenticated

  datatype Reply = Ack | ResumeAck(sessionId: u32, nextBlock: u32, rollingCrc: bv32) | Nack(code: NackCode)

  /** What the build of the firmware fixes. */
  datatype Config = Config(authRequired: bool, signatureRequired: bool)

  /** The `flash_*` fields. */
  datatype Transfer = Transfer(
    sessionActive: bool,
    sessionId: u32,
    sessionCounter: u32,
    nextBlock: u32,
    buffer: seq<byte>,
    verified: bool,
    verifiedCrc: Option<bv32>,
    verifiedLen: nat)

  /** The `update_*` fields. */
  datatype Update = Update(
    state: UpdateState,
    activeBank: nat,
    lastGoodBank: nat,
    pendingBank: Option<nat>,
    candidateCrc: Option<bv32>,
    candidateSize: nat,
    bootAttempts: nat,
    remainingMs: nat,
    lastTick: Option<nat>,
    rollbackCounter: u16)

  /** The commands that touch the transfer. Tag and signature checks arrive as verdicts. */
  datatype Cmd =
    | EnterBootloader(payloadLen: nat, response: TagVerdict)
    | FlashResume(payload: seq<byte>)
    | FlashBlock(payload: seq<byte>)
    | FlashVerify(payload: seq<byte>, tag: TagVerdict, signatureOk: bool)
    | FlashComplete
    | ConfirmBootHealthy
    | Other

  // ---- the helpers, as functions of the fields they read and write ----

  function FreshTransfer(scratch: Option<FlashResumeScratch>): Transfer {
    Transfer(false, 0, if scratch.Some? then scratch.value.sessionId else 0, 0, [], false, None, 0)
  }

  const FRESH_UPDATE := Update(Idle, BANK_A, BANK_A, None, None, 0, 0, 0, None, 0)

  function TransferReset(t: Transfer): Transfer {
    t.(sessionActive := false, sessionId := 0, nextBlock := 0, buffer := [],
       verified := false, verifiedCrc := None, verifiedLen := 0)
  }

  function NextSessionId(counter: u32): u32 {
    if counter == U32_MAX then 1 else counter + 1
  }

  function SessionBegun(t: Transfer): Transfer {
    var id := NextSessionId(t.sessionCounter);
    TransferReset(t).(sessionActive := true, sessionCounter := id, sessionId := id)
  }

  function UpdateAbandoned(u: Update): Update {
    u.(state := Receiving, pendingBank := None, candidateCrc := None, candidateSize := 0, bootAttempts := 0,
       remainingMs := 0, lastTick := None)
  }

  function OtherBank(bank: nat): nat {
    if bank == BANK_A then BANK_B else BANK_A
  }

  function WindowBegun(u: Update, crc: bv32, size: nat, now: nat): Update {
    u.(state := HealthWindow, pendingBank := Some(OtherBank(u.activeBank)), candidateCrc := Some(crc),
       candidateSize := size, bootAttempts := 1, remainingMs := HEALTH_WINDOW_MS, lastTick := Some(now))
  }

  function RolledBackFrom(u: Update): Update {
    u.(state := RolledBack, activeBank := u.lastGoodBank, pendingBank := None, remainingMs := 0,
       lastTick := None, rollbackCounter := SaturatingAdd(u.rollbackCounter, 1, U16_MAX))
  }

  /** `confirm_pending_update`: None when there is nothing to confirm. */
  function Confirmed(u: Update): Option<Update> {
    if !u.state.HealthWindow? || u.pendingBank.None? then None
    else
      var target := u.pendingBank.value;
      Some(u.(activeBank := target, lastGoodBank := target, pendingBank := None, state := Committed,
              remainingMs := 0, lastTick := None))
  }

  /** The whole milliseconds between two clock readings, as a u32. */
  function GapMs(last: nat, now: nat): u32 {
    Min(if now >= last then (now - last) / MS else 0, U32_MAX)
  }

  /** `tick_update_health_window`. */
  function Ticked(u: Update, now: nat): Update {
    if !u.state.HealthWindow? then u
    else
      var elapsed := GapMs(if u.lastTick.Some? then u.lastTick.value else now, now);
      var v := u.(lastTick := Some(now));
      if elapsed == 0 then v
      else if elapsed >= u.remainingMs then RolledBackFrom(v)
      else v.(remainingMs := u.remainingMs - elapsed)
  }

  function CheckpointAfter(t: Transfer, scratch: Option<FlashResumeScratch>): Option<FlashResumeScratch> {
    if (t.nextBlock == 1 || t.nextBlock % PERSIST_STRIDE == 0) && t.sessionActive
    then Some(FlashResumeScratch(t.sessionId, t.nextBlock, Crc32(t.buffer), t.buffer))
    else scratch
  }

  function BlockAccepted(t: Transfer, data: seq<byte>): Transfer {
    t.(buffer := t.buffer + data, nextBlock := SaturatingAdd(t.nextBlock, 1, U32_MAX),
       verified := false, verifiedCrc := None, verifiedLen := 0)
  }

  /** Why a FlashBlock is refused, if it is. */
  function BlockRefusal(t: Transfer, payload: seq<byte>): Option<NackCode> {
    if !t.sessionActive then Some(BadSequence)
    else if |payload| <= FLASH_BLOCK_HEADER_LEN then Some(MalformedPayload)
    else if |payload| > FLASH_BLOCK_HEADER_LEN + FLASH_BLOCK_MAX_BYTES then Some(RangeOverflow)
    else if U32Val(payload[0], payload[1], payload[2], payload[3]) != t.nextBlock then Some(BadSequence)
    else if |t.buffer| + |payload| - FLASH_BLOCK_HEADER_LEN > FLASH_BUFFER_MAX_BYTES then Some(RangeOverflow)
    else None
  }

  function Restored(t: Transfer, s: FlashResumeScratch): Transfer {
    t.(sessionActive := true, sessionId := s.sessionId, nextBlock := s.nextBlock, buffer := s.image,
       verified := false, verifiedCrc := None, verifiedLen := 0)
  }

  /** Why a FlashResume is refused, if it is. */
  function ResumeRefusal(t: Transfer, scratch: Option<FlashResumeScratch>, payload: seq<byte>): Option<NackCode> {
    if !t.sessionActive then Some(BadSequence)
    else if |payload| != 0 && |payload| != 4 then Some(MalformedPayload)
    else if scratch.None? then None
    else if |scratch.value.image| > FLASH_BUFFER_MAX_BYTES then Some(StorageFailure)
    else if |payload| == 4
            && U32Val(payload[0], payload[1], payload[2], payload[3]) != 0
            && U32Val(payload[0], payload[1], payload[2], payload[3]) != scratch.value.sessionId then Some(BadSequence)
    else None
  }

  predicate AllZero(s: seq<byte>) {
    forall i :: 0 <= i < |s| ==> s[i] == 0
  }

  predicate HasCrc(n: nat) {
    n == CRC_LEN || n == CRC_LEN + TAG_LEN || n == CRC_LEN + SIGNATURE_LEN || n == CRC_LEN + TAG_LEN + SIGNATURE_LEN
  }

  predicate HasTag(n: nat) {
    n == TAG_LEN || n == CRC_LEN + TAG_LEN || n == CRC_LEN + TAG_LEN + SIGNATURE_LEN
  }

  predicate HasSignature(n: nat) {
    n == CRC_LEN + SIGNATURE_LEN || n == CRC_LEN + TAG_LEN + SIGNATURE_LEN
  }

  /** Why a FlashVerify is refused, if it is. */
  function VerifyRefusal(t: Transfer, cfg: Config, payload: seq<byte>, tag: TagVerdict, signatureOk: bool)
    : Option<NackCode>
  {
    var n := |payload|;
    if !t.sessionActive || t.buffer == [] then Some(MalformedPayload)
    else if n != 0 && !HasCrc(n) && !HasTag(n) then Some(MalformedPayload)
    else if AllZero(t.buffer) then Some(MalformedPayload)
    else if HasCrc(n) && Reg32Val(payload[0], payload[1], payload[2], payload[3]) != Crc32(t.buffer)
      then Some(MalformedPayload)
    else if HasTag(n) && !tag.Match? then Some(CryptoFail)
    else if cfg.signatureRequired && !HasSignature(n) then Some(BadSignature)
    else if HasSignature(n) && !signatureOk then Some(BadSignature)
    else None
  }

  function VerifiedNow(t: Transfer): Transfer {
    t.(verified := true, verifiedCrc := Some(Crc32(t.buffer)), verifiedLen := |t.buffer|)
  }

  /** Why a FlashComplete is refused, if it is. */
  function CompleteRefusal(t: Transfer): Option<NackCode> {
    if !t.sessionActive then Some(BadSequence)
    else if !t.verified then Some(MalformedPayload)
    else if t.verifiedLen != |t.buffer| then Some(MalformedPayload)
    else if t.verifiedCrc != Some(Crc32(t.buffer)) then Some(MalformedPayload)
    else None
  }

  function OutcomeReply(o: Outcome): Reply {
    match o
    case Granted => Ack
    case ChallengeIssued => Ack
    case Locked => Nack(LockActive)
    case RateLimited => Nack(RateLimitExceeded)
    case Failed(malformed, cryptoFail) =>
      if malformed then Nack(MalformedPayload) else if cryptoFail then Nack(CryptoFail) else Nack(NotAuthenticated)
  }

  // ---- one packet ----

  /** The firmware's fields and what of the store survives a reboot. */
  datatype Node = Node(t: Transfer, u: Update, auth: Auth, scratch: Option<FlashResumeScratch>)

  function Boot(scratch: Option<FlashResumeScratch>): Node {
    Node(FreshTransfer(scratch), FRESH_UPDATE, FRESH, scratch)
  }

  function SessionStarted(n: Node): Node {
    Node(SessionBegun(n.t), UpdateAbandoned(n.u), FRESH, n.scratch)
  }

  /** The command, after the tick. */
  function Handled(cfg: Config, n: Node, cmd: Cmd, now: nat): (Node, Reply) {
    match cmd
    case EnterBootloader(len, response) =>
      if !cfg.authRequired then (SessionStarted(n), Ack)
      else
        var (auth, outcome) := Attempt(n.auth, now, len, response);
        (if outcome == Granted then SessionStarted(n) else n.(auth := auth), OutcomeReply(outcome))
    case FlashResume(payload) =>
      (match ResumeRefusal(n.t, n.scratch, payload)
       case Some(code) => (n, Nack(code))
       case None =>
         var m := if n.scratch.None? then n
                  else n.(t := Restored(n.t, n.scratch.value), u := n.u.(state := Receiving));
         (m, ResumeAck(m.t.sessionId, m.t.nextBlock, Crc32(m.t.buffer))))
    case FlashBlock(payload) =>
      (match BlockRefusal(n.t, payload)
       case Some(code) => (n, Nack(code))
       case None =>
         var t := BlockAccepted(n.t, payload[FLASH_BLOCK_HEADER_LEN..]);
         (n.(t := t, u := n.u.(state := Receiving), scratch := CheckpointAfter(t, n.scratch)), Ack))
    case FlashVerify(payload, tag, signatureOk) =>
      (match VerifyRefusal(n.t, cfg, payload, tag, signatureOk)
       case Some(code) => (n, Nack(code))
       case None => (n.(t := VerifiedNow(n.t), u := n.u.(state := Verified)), Ack))
    case FlashComplete =>
      (match CompleteRefusal(n.t)
       case Some(code) => (n, Nack(code))
       case None =>
         (Node(TransferReset(n.t), WindowBegun(n.u, Crc32(n.t.buffer), |n.t.buffer|, now),
               n.auth.(challengePending := false), None), Ack))
    case ConfirmBootHealthy =>
      (match Confirmed(n.u)
       case None => (n, Nack(MalformedPayload))
       case Some(u) => (n.(u := u), Ack))
    case Other => (n, Ack)
  }

  function TickedNode(n: Node, now: nat): Node {
    n.(u := Ticked(n.u, now))
  }

  class FlashRuntime {
    const cfg: Config
    const store: ConfigStore
    const auth: BootAuth
    var t: Transfer
    var u: Update

    function View(): Node
      reads this, auth, store
    {
      Node(t, u, auth.View(), store.flashResumeScratch)
    }

    /** Power-up: everything but the store starts afresh. */
    constructor (cfg: Config, store: ConfigStore)
      ensures this.cfg == cfg && this.store == store && fresh(auth)
      ensures View() == Boot(store.flashResumeScratch)
    {
      this.cfg, this.store := cfg, store;
      this.auth := new BootAuth();
      t := FreshTransfer(store.flashResumeScratch);
      u := FRESH_UPDATE;
    }

    method ResetTransferState()
      modifies this`t, auth
      ensures t == TransferReset(old(t))
      ensures auth.View() == old(auth.View()).(challengePending := false)
    {
      t := t.(sessionActive := false);
      auth.challengePending := false;
      t := t.(sessionId := 0);
      t := t.(nextBlock := 0);
      t := t.(buffer := []);
      t := t.(verified := false);
      t := t.(verifiedCrc := None);
      t := t.(verifiedLen := 0);
    }

    method AllocateSessionId() returns (id: u32)
      modifies this`t
      ensures id == NextSessionId(old(t).sessionCounter) && t == old(t).(sessionCounter := id)
    {
      var wrapped := if t.sessionCounter == U32_MAX then 0 else t.sessionCounter + 1;
      t := t.(sessionCounter := wrapped);
      if t.sessionCounter == 0 {
        t := t.(sessionCounter := 1);
      }
      id := t.sessionCounter;
    }

    method BeginSession()
      modifies this, auth
      ensures t == SessionBegun(old(t)) && u == UpdateAbandoned(old(u)) && auth.View() == FRESH
    {
      auth.RecordSuccess();
      ResetTransferState();
      t := t.(sessionActive := true);
      var id := AllocateSessionId();
      t := t.(sessionId := id);
      u := u.(state := Receiving);
      u := u.(pendingBank := None);
      u := u.(candidateCrc := None);
      u := u.(candidateSize := 0);
      u := u.(bootAttempts := 0);
      u := u.(remainingMs := 0);
      u := u.(lastTick := None);
    }

    method BeginHealthWindow(crc: bv32, size: nat, now: nat)
      modifies this`u
      ensures u == WindowBegun(old(u), crc, size, now)
    {
      u := u.(state := PendingCommit);
      u := u.(pendingBank := Some(if u.activeBank == BANK_A then BANK_B else BANK_A));
      u := u.(candidateCrc := Some(crc));
      u := u.(candidateSize := size);
      u := u.(bootAttempts := 1);
      u := u.(remainingMs := HEALTH_WINDOW_MS);
      u := u.(state := HealthWindow);
      u := u.(lastTick := Some(now));
    }

    method RollbackPendingUpdate()
      modifies this`u
      ensures u == RolledBackFrom(old(u))
    {
      u := u.(state := RolledBack);
      u := u.(activeBank := u.lastGoodBank);
      u := u.(pendingBank := None);
      u := u.(remainingMs := 0);
      u := u.(lastTick := None);
      u := u.(rollbackCounter := SaturatingAdd(u.rollbackCounter, 1, U16_MAX));
    }

    method TickHealthWindow(now: nat)
      modifies this`u
      ensures u == Ticked(old(u), now)
    {
      if !u.state.HealthWindow? {
        return;
      }
      var last := if u.lastTick.Some? then u.lastTick.value else now;
      var elapsed := GapMs(last, now);
      u := u.(lastTick := Some(now));
      if elapsed == 0 {
        return;
      }
      if elapsed >= u.remainingMs {
        RollbackPendingUpdate();
      } else {
        u := u.(remainingMs := u.remainingMs - elapsed);
      }
    }

    method ConfirmPendingUpdate() returns (ok: bool)
      modifies this`u
      ensures ok == Confirmed(old(u)).Some?
      ensures u == if ok then Confirmed(old(u)).value else old(u)
    {
      if !u.state.HealthWindow? {
        return false;
      }
      if u.pendingBank.None? {
        return false;
      }
      var target := u.pendingBank.value;
      u := u.(activeBank := target);
      u := u.(lastGoodBank := target);
      u := u.(pendingBank := None);
      u := u.(state := Committed);
      u := u.(remainingMs := 0);
      u := u.(lastTick := None);
      ok := true;
    }

    method MaybePersistScratch()
      modifies store`flashResumeScratch
      ensures store.flashResumeScratch == CheckpointAfter(t, old(store.flashResumeScratch))
    {
      if t.nextBlock == 1 || t.nextBlock % PERSIST_STRIDE == 0 {
        if t.sessionActive {
          store.WriteFlashResumeScratch(FlashResumeScratch(t.sessionId, t.nextBlock, Crc32(t.buffer), t.buffer));
        }
      }
    }

    method Resume(payload: seq<byte>) returns (reply: Reply)
      modifies this
      ensures (View(), reply) == Handled(cfg, old(View()), FlashResume(payload), 0)
    {
      hide U32Val, Crc32;
      if !t.sessionActive {
        return Nack(BadSequence);
      }
      if |payload| != 0 && |payload| != 4 {
        return Nack(MalformedPayload);
      }
      if store.flashResumeScratch.Some? {
        var scratch := store.flashResumeScratch.value;
        if |scratch.image| > FLASH_BUFFER_MAX_BYTES {
          return Nack(StorageFailure);
        }
        if |payload| == 4 {
          var requested := U32Val(payload[0], payload[1], payload[2], payload[3]);
          if requested != 0 && requested != scratch.sessionId {
            return Nack(BadSequence);
          }
        }
        t := t.(sessionActive := true);
        t := t.(sessionId := scratch.sessionId);
        t := t.(nextBlock := scratch.nextBlock);
        t := t.(buffer := scratch.image);
        t := t.(verified := false);
        t := t.(verifiedCrc := None);
        t := t.(verifiedLen := 0);
        u := u.(state := Receiving);
      }
      reply := ResumeAck(t.sessionId, t.nextBlock, Crc32(t.buffer));
    }

    method AcceptBlock(payload: seq<byte>) returns (reply: Reply)
      modifies this, store`flashResumeScratch
      ensures (View(), reply) == Handled(cfg, old(View()), FlashBlock(payload), 0)
    {
      hide U32Val, Crc32;
      if !t.sessionActive {
        return Nack(BadSequence);
      }
      if |payload| <= FLASH_BLOCK_HEADER_LEN {
        return Nack(MalformedPayload);
      }
      if |payload| > FLASH_BLOCK_HEADER_LEN + FLASH_BLOCK_MAX_BYTES {
        return Nack(RangeOverflow);
      }
      var blockIndex := U32Val(payload[0], payload[1], payload[2], payload[3]);
      if blockIndex != t.nextBlock {
        return Nack(BadSequence);
      }
      var data := payload[FLASH_BLOCK_HEADER_LEN..];
      if |t.buffer| + |data| > FLASH_BUFFER_MAX_BYTES {
        return Nack(RangeOverflow);
      }
      t := t.(buffer := t.buffer + data);
      t := t.(nextBlock := SaturatingAdd(t.nextBlock, 1, U32_MAX));
      t := t.(verified := false);
      t := t.(verifiedCrc := None);
      t := t.(verifiedLen := 0);
      u := u.(state := Receiving);
      MaybePersistScratch();
      reply := Ack;
    }

    method Verify(payload: seq<byte>, tag: TagVerdict, signatureOk: bool) returns (reply: Reply)
      modifies this
      ensures (View(), reply) == Handled(cfg, old(View()), FlashVerify(payload, tag, signatureOk), 0)
    {
      hide Reg32Val, Crc32;
      var n := |payload|;
      if !t.sessionActive || t.buffer == [] {
        return Nack(MalformedPayload);
      }
      if n != 0 && !HasCrc(n) && !HasTag(n) {
        return Nack(MalformedPayload);
      }
      if AllZero(t.buffer) {
        return Nack(MalformedPayload);
      }
      var actualCrc := Crc32(t.buffer);
      if HasCrc(n) {
        var expectedCrc := Reg32Val(payload[0], payload[1], payload[2], payload[3]);
        if expectedCrc != actualCrc {
          return Nack(MalformedPayload);
        }
      }
      if HasTag(n) && !tag.Match? {
        return Nack(CryptoFail);
      }
      if cfg.signatureRequired && !HasSignature(n) {
        return Nack(BadSignature);
      }
      if HasSignature(n) && !signatureOk {
        return Nack(BadSignature);
      }
      t := t.(verified := true);
      t := t.(verifiedCrc := Some(actualCrc));
      t := t.(verifiedLen := |t.buffer|);
      u := u.(state := Verified);
      reply := Ack;
    }

    method Complete(now: nat) returns (reply: Reply)
      modifies this, auth, store`flashResumeScratch
      ensures (View(), reply) == Handled(cfg, old(View()), FlashComplete, now)
    {
      hide Crc32;
      if !t.sessionActive {
        return Nack(BadSequence);
      }
      if !t.verified {
        return Nack(MalformedPayload);
      }
      if t.verifiedLen != |t.buffer| {
        return Nack(MalformedPayload);
      }
      var finalCrc := Crc32(t.buffer);
      if t.verifiedCrc != Some(finalCrc) {
        return Nack(MalformedPayload);
      }
      BeginHealthWindow(finalCrc, |t.buffer|, now);
      store.ClearFlashResumeScratch();
      ResetTransferState();
      reply := Ack;
    }

    /** `handle_packet`, for the commands of the transfer: first the tick, then the command. */
    method HandlePacket(cmd: Cmd, tickNow: nat, cmdNow: nat) returns (reply: Reply)
      modifies this, auth, store`flashResumeScratch
      ensures (View(), reply) == Handled(cfg, TickedNode(old(View()), tickNow), cmd, cmdNow)
    {
      hide Crc32, Ticked, Attempt;
      TickHealthWindow(tickNow);
      match cmd {
        case EnterBootloader(len, response) =>
          if !cfg.authRequired {
            BeginSession();
            return Ack;
          }
          var outcome := auth.Try(cmdNow, len, response);
          if outcome == Granted {
            BeginSession();
          }
          reply := OutcomeReply(outcome);
        case FlashResume(payload) =>
          reply := Resume(payload);
        case FlashBlock(payload) =>
          reply := AcceptBlock(payload);
        case FlashVerify(payload, tag, signatureOk) =>
          reply := Verify(payload, tag, signatureOk);
        case FlashComplete =>
          reply := Complete(cmdNow);
        case ConfirmBootHealthy =>
          var ok := ConfirmPendingUpdate();
          reply := if ok then Ack else Nack(MalformedPayload);
        case Other =>
          reply := Ack;
      }
    }
  }
}
