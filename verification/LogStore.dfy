/** The chunked log of src/transport.rs: lines appended byte by byte into 256-byte blocks, read back block by block. */
module LogStore {
  import opened Bytes
  import opened Payloads

  const BLOCK_SIZE: nat := 256
  /** The longest session whose blocks a 16-bit index can all name. */
  const READABLE_BYTES: nat := BLOCK_SIZE * U16_MAX

  datatype Log = Log(active: bool, blocks: seq<seq<byte>>, staging: seq<byte>)

  datatype Reply = BlockData(payload: seq<byte>) | MalformedPayload

  /** `current_log_block_count`: the number of blocks is cut to 16 bits before the staging block is added. */
  function BlockCount(log: Log): u16 {
    var count := |log.blocks| % 0x1_0000;
    if log.active && log.staging != [] then SaturatingAdd(count, 1, U16_MAX) else count
  }

  function BlockAt(log: Log, index: nat): Option<seq<byte>> {
    if index < |log.blocks| then Some(log.blocks[index])
    else if log.active && index == |log.blocks| && log.staging != [] then Some(log.staging)
    else None
  }

  function Served(log: Log, request: seq<byte>): Reply {
    if |request| != 2 then MalformedPayload
    else
      var index := U16Val(request[0], request[1]);
      if index >= BlockCount(log) || BlockAt(log, index).None? then MalformedPayload
      else BlockData(LogBlockBytes(LogBlockPayload(index, BlockCount(log), BlockAt(log, index).value)))
  }

  // ---- what the blocks hold ----

  /** Block `i` of the bytes `s`. */
  function Chunk(s: seq<byte>, i: nat): (c: seq<byte>)
    requires BLOCK_SIZE * i <= |s|
    ensures |c| == Min(BLOCK_SIZE, |s| - BLOCK_SIZE * i)
  {
    s[BLOCK_SIZE * i..Min(BLOCK_SIZE * (i + 1), |s|)]
  }

  /** The log holds exactly the bytes `s`, cut every 256: while logging the rest is staged, and once logging has
    stopped it is a last, possibly short, block. */
  ghost predicate Holds(log: Log, s: seq<byte>) {
    && (forall i :: 0 <= i < |log.blocks| ==> BLOCK_SIZE * i <= |s| && log.blocks[i] == Chunk(s, i))
    && (log.active ==> BLOCK_SIZE * |log.blocks| <= |s| < BLOCK_SIZE * (|log.blocks| + 1)
                       && log.staging == Chunk(s, |log.blocks|))
    && (!log.active ==> log.staging == [] && BLOCK_SIZE * (|log.blocks| - 1) < |s| <= BLOCK_SIZE * |log.blocks|)
  }

  function Pushed(log: Log, b: byte): Log {
    var staging := log.staging + [b];
    if |staging| >= BLOCK_SIZE then log.(blocks := log.blocks + [staging], staging := []) else log.(staging := staging)
  }

  lemma ChunkGrows(s: seq<byte>, b: byte, i: nat)
    requires BLOCK_SIZE * i <= |s|
    ensures Chunk(s + [b], i) == if |s| < BLOCK_SIZE * (i + 1) then Chunk(s, i) + [b] else Chunk(s, i)
  {
  }

  lemma PushedHolds(log: Log, s: seq<byte>, b: byte)
    requires Holds(log, s) && log.active
    ensures Holds(Pushed(log, b), s + [b])
  {
    hide Chunk;
    forall i | 0 <= i <= |log.blocks|
      ensures Chunk(s + [b], i) == if i < |log.blocks| then Chunk(s, i) else log.staging + [b]
    {
      ChunkGrows(s, b, i);
    }
  }

  lemma EmptyHolds()
    ensures Holds(Log(true, [], []), []) && Holds(Log(false, [], []), [])
  {
  }

  class LogStore {
    var logActive: bool
    var logSessionId: u32
    var logBytesWritten: u32
    var logBlocks: seq<seq<byte>>
    var logStaging: seq<byte>
    /** What has been appended since logging last started. */
    ghost var recorded: seq<byte>

    ghost predicate Valid()
      reads this
    {
      && Holds(View(), recorded)
      && (|recorded| <= U32_MAX ==> logBytesWritten == |recorded|)
      && (logActive ==> logSessionId != 0)
    }

    ghost function View(): Log
      reads this
    {
      Log(logActive, logBlocks, logStaging)
    }

    constructor ()
      ensures Valid() && !logActive && recorded == []
    {
      logActive, logSessionId, logBytesWritten, logBlocks, logStaging, recorded := false, 0, 0, [], [], [];
    }

    /** LogStart: whatever was recorded before is gone, and the session begins with its header line. */
    method LogStart(header: seq<byte>)
      requires Valid()
      modifies this
      ensures Valid() && logActive && recorded == header
      ensures logSessionId == if old(logSessionId) == U32_MAX then 1 else old(logSessionId) + 1
    {
      hide Holds;
      EmptyHolds();
      logActive := true;
      logSessionId := (logSessionId + 1) % 0x1_0000_0000;
      if logSessionId == 0 {
        logSessionId := 1;
      }
      logBytesWritten := 0;
      logBlocks := [];
      logStaging := [];
      recorded := [];
      AppendLogBytes(header);
      assert [] + header == header;
    }

    method AppendLogBytes(bytes: seq<byte>)
      requires Valid()
      modifies this`logBytesWritten, this`logBlocks, this`logStaging, this`recorded
      ensures Valid()
      ensures recorded == if logActive then old(recorded) + bytes else old(recorded)
      ensures !logActive ==> View() == old(View()) && logBytesWritten == old(logBytesWritten)
    {
      hide Holds;
      if !logActive || bytes == [] {
        assert old(recorded) + [] == old(recorded);
        return;
      }
      logBytesWritten := SaturatingAdd(logBytesWritten, |bytes| % 0x1_0000_0000, U32_MAX);
      ghost var before, written := recorded, logBytesWritten;
      for i := 0 to |bytes|
        invariant logActive && Holds(View(), recorded)
        invariant recorded == before + bytes[..i] && logBytesWritten == written
      {
        PushedHolds(View(), recorded, bytes[i]);
        logStaging := logStaging + [bytes[i]];
        if |logStaging| >= BLOCK_SIZE {
          logBlocks := logBlocks + [logStaging];
          logStaging := [];
        }
        recorded := recorded + [bytes[i]];
        assert bytes[..i + 1] == bytes[..i] + [bytes[i]];
      }
      assert bytes[..|bytes|] == bytes;
    }

    method LogStop()
      requires Valid()
      modifies this`logActive, this`logBlocks, this`logStaging
      ensures Valid() && !logActive
      ensures !old(logActive) ==> View() == old(View())
    {
      if logActive {
        logActive := false;
        if logStaging != [] {
          logBlocks := logBlocks + [logStaging];
          logStaging := [];
        }
      }
    }

    /** ResetLogbook is refused while logging and otherwise forgets the session. */
    method ResetLogbook() returns (done: bool)
      requires Valid()
      modifies this
      ensures Valid()
      ensures done == !old(logActive)
      ensures if done then View() == Log(false, [], []) && recorded == [] && logSessionId == 0
              else View() == old(View()) && recorded == old(recorded) && logSessionId == old(logSessionId)
    {
      hide Holds;
      if logActive {
        return false;
      }
      EmptyHolds();
      logSessionId, logBytesWritten, logBlocks, logStaging, recorded := 0, 0, [], [], [];
      done := true;
    }

    method ReadLogBlock(request: seq<byte>) returns (r: Reply)
      requires Valid()
      ensures r == Served(View(), request)
    {
      hide Holds, LogBlockBytes;
      if |request| != 2 {
        return MalformedPayload;
      }
      var blockIndex := U16Val(request[0], request[1]);
      var totalBlocks: u16 := |logBlocks| % 0x1_0000;
      if logActive && logStaging != [] {
        totalBlocks := SaturatingAdd(totalBlocks, 1, U16_MAX);
      }
      if blockIndex >= totalBlocks {
        return MalformedPayload;
      }
      var data: seq<byte>;
      if blockIndex < |logBlocks| {
        data := logBlocks[blockIndex];
      } else if logActive && blockIndex == |logBlocks| && logStaging != [] {
        data := logStaging;
      } else {
        assert false; // the block is unavailable
      }
      var payload := EncodeLogBlock(blockIndex, totalBlocks, data);
      r := BlockData(payload);
    }
  }

  // ---- reading the log back ----

  /** The number of blocks the bytes take. */
  function BlocksOf(n: nat): nat {
    (n + BLOCK_SIZE - 1) / BLOCK_SIZE
  }

  /** Every index below the count is served, with that block of the recorded bytes, so a block once full never
    changes while the session goes on; every index from the count on is refused. */
  lemma ServedIsRecorded(log: Log, s: seq<byte>, index: u16)
    requires Holds(log, s)
    ensures BlockCount(log) <= BlocksOf(|s|)
    ensures index < BlockCount(log) ==>
              && BLOCK_SIZE * index <= |s|
              && Served(log, U16Bytes(index)).BlockData?
              && DecodeLogBlock(Served(log, U16Bytes(index)).payload)
                 == Some(LogBlockPayload(index, BlockCount(log), Chunk(s, index)))
    ensures index >= BlockCount(log) ==> Served(log, U16Bytes(index)) == MalformedPayload
  {
    hide Chunk, U16Bytes, U16Val, LogBlockBytes, DecodeLogBlock;
    U16RoundTrip(index);
    if index < BlockCount(log) {
      LogBlockRoundTrip(LogBlockPayload(index, BlockCount(log), BlockAt(log, index).value));
    }
  }

  /** How many blocks of 256 bytes are announced, with the cut to 16 bits. */
  lemma CountExactly(log: Log, s: seq<byte>)
    requires Holds(log, s)
    ensures BlockCount(log)
         == if log.active then Min(|s| / 256 % 65536 + (if |s| % 256 == 0 then 0 else 1), 65535)
            else (|s| + 255) / 256 % 65536
  {
    hide Chunk;
  }

  /** What is served to any request: exactly two bytes that name a block below the count, answered by its index, the
    count and its bytes of what was recorded. */
  lemma ServedExactly(log: Log, s: seq<byte>, request: seq<byte>)
    requires Holds(log, s)
    ensures var r := Served(log, request);
            && (r.BlockData? <==> |request| == 2 && U16Val(request[0], request[1]) < BlockCount(log))
            && (r.BlockData? ==>
                  var i := U16Val(request[0], request[1]);
                  && 256 * i < |s|
                  && r.payload == LogBlockBytes(LogBlockPayload(
                       i, BlockCount(log), s[256 * i..if 256 * i + 256 < |s| then 256 * i + 256 else |s|])))
  {
    hide U16Val, LogBlockBytes;
  }

  /** What a host collects by asking for the first `n` blocks in order. */
  ghost function Downloaded(log: Log, n: nat): seq<byte>
    requires n <= U16_MAX
  {
    if n == 0 then []
    else
      match Served(log, U16Bytes(n - 1))
      case MalformedPayload => Downloaded(log, n - 1)
      case BlockData(payload) =>
        match DecodeLogBlock(payload)
        case None => Downloaded(log, n - 1)
        case Some(block) => Downloaded(log, n - 1) + block.payload
  }

  lemma {:induction false} DownloadedIsPrefix(log: Log, s: seq<byte>, n: nat)
    requires Holds(log, s) && n <= BlockCount(log)
    ensures Downloaded(log, n) == s[..Min(BLOCK_SIZE * n, |s|)]
    decreases n
  {
    hide Served, U16Bytes, BlockCount, DecodeLogBlock, Holds;
    if n == 0 {
    } else {
      DownloadedIsPrefix(log, s, n - 1);
      ServedIsRecorded(log, s, n - 1);
    }
  }

  lemma CountIsCut(log: Log, s: seq<byte>)
    requires Holds(log, s)
    ensures if |s| <= READABLE_BYTES then BlockCount(log) == BlocksOf(|s|)
            else BLOCK_SIZE * BlockCount(log) < |s|
  {
    hide Chunk;
  }

  /** Reading every block below the count gives back exactly what was recorded, while logging and after, if and only
    if the session is no longer than 65535 blocks; beyond that the count is cut and the download falls short. */
  lemma DownloadIsComplete(log: Log, s: seq<byte>)
    requires Holds(log, s)
    ensures Downloaded(log, BlockCount(log)) == s <==> |s| <= READABLE_BYTES
    ensures |s| <= READABLE_BYTES ==> BlockCount(log) == BlocksOf(|s|)
  {
    DownloadedIsPrefix(log, s, BlockCount(log));
    CountIsCut(log, s);
    hide Served, BlockCount, Holds;
  }

  /** The shortest logs that cannot be read back: at 65536 blocks the count is back at zero and nothing is served. */
  lemma LongLogIsUnreadable(s: seq<byte>)
    requires READABLE_BYTES < |s| <= READABLE_BYTES + BLOCK_SIZE
    ensures var log := Log(false, seq(0x1_0000, i requires 0 <= i < 0x1_0000 => Chunk(s, i)), []);
            Holds(log, s) && BlockCount(log) == 0 && Downloaded(log, 0) == []
            && forall index: u16 :: Served(log, U16Bytes(index)) == MalformedPayload
  {
    hide Chunk;
    var log := Log(false, seq(0x1_0000, i requires 0 <= i < 0x1_0000 => Chunk(s, i)), []);
    assert Holds(log, s);
    hide Served, Holds;
    forall index: u16
      ensures Served(log, U16Bytes(index)) == MalformedPayload
    {
      ServedIsRecorded(log, s, index);
    }
  }

  // ---- reading while lines are appended ----

  /** What a host that holds the bytes `h` holds after one more read: it asks for the block its last byte is in, or
    for the next one if that is full, and what it is served takes the place of what it had of that block. */
  ghost function Extended(h: seq<byte>, log: Log): seq<byte> {
    var index := |h| / BLOCK_SIZE;
    if index > U16_MAX then h
    else
      match Served(log, U16Bytes(index))
      case MalformedPayload => h
      case BlockData(payload) =>
        match DecodeLogBlock(payload)
        case None => h
        case Some(block) => h[..BLOCK_SIZE * index] + block.payload
  }

  ghost function Collected(logs: seq<Log>): seq<byte> {
    if logs == [] then [] else Extended(Collected(logs[..|logs| - 1]), logs[|logs| - 1])
  }

  /** The log at each read holds the bytes `ss` says, and between reads it only grows. */
  ghost predicate Growing(logs: seq<Log>, ss: seq<seq<byte>>) {
    && |logs| == |ss|
    && (forall i :: 0 <= i < |logs| ==> Holds(logs[i], ss[i]))
    && (forall i :: 0 < i < |logs| ==> ss[i - 1] <= ss[i])
  }

  /** One read of a log that holds `s`, by a host that holds the beginning of it: the host holds a longer beginning, one
    block on or to the end, as long as that block can be named. */
  lemma ExtendedHolds(h: seq<byte>, log: Log, s: seq<byte>)
    requires Holds(log, s) && h <= s
    ensures Extended(h, log) <= s
    ensures |s| <= READABLE_BYTES ==>
              |Extended(h, log)| == Min(BLOCK_SIZE * (|h| / BLOCK_SIZE + 1), |s|)
  {
    hide Served, U16Bytes, DecodeLogBlock, BlockCount, Holds;
    var index := |h| / BLOCK_SIZE;
    CountIsCut(log, s);
    if index <= U16_MAX {
      ServedIsRecorded(log, s, index);
      if index < BlockCount(log) {
        assert h[..BLOCK_SIZE * index] == s[..BLOCK_SIZE * index];
        assert h[..BLOCK_SIZE * index] + Chunk(s, index) == s[..Min(BLOCK_SIZE * (index + 1), |s|)];
      }
    }
  }

  /** However the log grows between the reads, what the host has collected is the beginning of what is recorded. */
  lemma {:induction false} CollectedIsRecorded(logs: seq<Log>, ss: seq<seq<byte>>)
    requires Growing(logs, ss) && logs != []
    ensures Collected(logs) <= ss[|ss| - 1]
    decreases |logs|
  {
    hide Extended, Holds;
    var n := |logs| - 1;
    if n == 0 {
      assert logs[..0] == [];
      ExtendedHolds([], logs[0], ss[0]);
    } else {
      CollectedIsRecorded(logs[..n], ss[..n]);
      ExtendedHolds(Collected(logs[..n]), logs[n], ss[n]);
    }
  }

  /** After a read of a log no longer than 65535 blocks the host holds all of it exactly when the block it asked for was
    the last; a short block, or a refusal, means that it does. */
  lemma CaughtUpExactly(logs: seq<Log>, ss: seq<seq<byte>>)
    requires Growing(logs, ss) && logs != [] && |ss[|ss| - 1]| <= READABLE_BYTES
    ensures var before, s := Collected(logs[..|logs| - 1]), ss[|ss| - 1];
            && (Collected(logs) == s <==> |s| <= BLOCK_SIZE * (|before| / BLOCK_SIZE + 1))
            && (|Collected(logs)| < BLOCK_SIZE * (|before| / BLOCK_SIZE + 1) ==> Collected(logs) == s)
  {
    hide Extended, Holds;
    var n := |logs| - 1;
    if n == 0 {
      assert logs[..0] == [];
    } else {
      CollectedIsRecorded(logs[..n], ss[..n]);
    }
    ExtendedHolds(Collected(logs[..n]), logs[n], ss[n]);
    CollectedIsRecorded(logs, ss);
  }

  /** As long as each read but the last finds its block full, `n` reads bring the first `n` blocks of what is recorded
    at the last of them, and nothing has to be read twice. */
  lemma {:induction false} ReadsBringBlocks(logs: seq<Log>, ss: seq<seq<byte>>, n: nat)
    requires Growing(logs, ss) && 0 < n <= |logs|
    requires forall i :: 0 <= i < |ss| ==> |ss[i]| <= READABLE_BYTES
    requires forall i :: 0 <= i < n - 1 ==> |ss[i]| >= BLOCK_SIZE * (i + 1)
    ensures |Collected(logs[..n])| == Min(BLOCK_SIZE * n, |ss[n - 1]|)
    ensures Collected(logs[..n]) == ss[n - 1][..Min(BLOCK_SIZE * n, |ss[n - 1]|)]
    decreases n
  {
    hide Extended, Holds;
    assert logs[..n][..n - 1] == logs[..n - 1];
    assert Growing(logs[..n], ss[..n]);
    CollectedIsRecorded(logs[..n], ss[..n]);
    if n == 1 {
      assert logs[..1][..0] == [];
      ExtendedHolds([], logs[0], ss[0]);
    } else {
      ReadsBringBlocks(logs, ss, n - 1);
      ExtendedHolds(Collected(logs[..n - 1]), logs[n - 1], ss[n - 1]);
    }
  }
}
