/** The payloads of src/protocol.rs that carry a block of data behind its length and CRC-32:
  a configuration page and a log block. */
module Payloads {
  import opened Bytes
  import opened Crc

  datatype PagePayload = PagePayload(pageId: byte, payload: seq<byte>)
  datatype LogBlockPayload = LogBlockPayload(blockIndex: u16, totalBlocks: u16, payload: seq<byte>)

  const CHECKED_HEADER := 6

  // ---- data behind its length and check value ----

  function Checked(data: seq<byte>): (s: seq<byte>)
    ensures |s| == CHECKED_HEADER + |data|
  {
    U16Bytes(|data| % 0x1_0000) + Reg32Bytes(Crc32(data)) + data
  }

  function Unchecked(s: seq<byte>): (r: Option<seq<byte>>)
    ensures r.Some? ==> |s| == CHECKED_HEADER + |r.value| && |r.value| <= U16_MAX
  {
    if |s| < CHECKED_HEADER || |s| != CHECKED_HEADER + U16Val(s[0], s[1]) then None
    else if Reg32Val(s[2], s[3], s[4], s[5]) != Crc32(s[6..]) then None
    else Some(s[6..])
  }

  lemma CheckedLayout(data: seq<byte>)
    ensures var s := Checked(data);
            && U16Bytes(|data| % 0x1_0000) == [s[0], s[1]]
            && Reg32Bytes(Crc32(data)) == [s[2], s[3], s[4], s[5]]
            && s[6..] == data
  {
  }

  lemma UncheckedChecked(data: seq<byte>)
    ensures Unchecked(Checked(data)) == if |data| <= U16_MAX then Some(data) else None
  {
    hide Crc32, Reg32Val, Reg32Bytes, U16Val, U16Bytes;
    CheckedLayout(data);
    U16RoundTrip(|data| % 0x1_0000);
    Reg32RoundTrip(Crc32(data));
  }

  lemma CheckedUnchecked(s: seq<byte>)
    requires Unchecked(s).Some?
    ensures Checked(Unchecked(s).value) == s
  {
    hide Crc32, Reg32Val, Reg32Bytes, U16Val, U16Bytes;
    U16ValRoundTrip(s[0], s[1]);
    Reg32ValRoundTrip(s[2], s[3], s[4], s[5]);
    assert s == [s[0], s[1]] + [s[2], s[3], s[4], s[5]] + s[6..];
  }

  lemma Reg32ValInjective(a: seq<byte>, b: seq<byte>)
    requires |a| == |b| == 4
    requires Reg32Val(a[0], a[1], a[2], a[3]) == Reg32Val(b[0], b[1], b[2], b[3])
    ensures a == b
  {
    hide Reg32Val, Reg32Bytes;
    Reg32ValRoundTrip(a[0], a[1], a[2], a[3]);
    Reg32ValRoundTrip(b[0], b[1], b[2], b[3]);
    assert a == [a[0], a[1], a[2], a[3]] && b == [b[0], b[1], b[2], b[3]];
  }

  /** A single byte, any part of the header, or four neighbouring bytes of the data. */
  predicate OneSided(i: nat, w: nat) {
    w <= 1 || i + w <= CHECKED_HEADER || (CHECKED_HEADER <= i && w <= 4)
  }

  lemma CorruptionUnchecked(good: seq<byte>, bad: seq<byte>, i: nat, w: nat)
    requires Unchecked(good).Some? && DifferOnlyIn(good, bad, i, w) && OneSided(i, w)
    ensures Unchecked(bad) == None
  {
    hide Feed, Reg32Val, U16Bytes;
    if Unchecked(bad).Some? {
      U16ValRoundTrip(good[0], good[1]);
      U16ValRoundTrip(bad[0], bad[1]);
      assert [good[0], good[1]] == [bad[0], bad[1]];
      if good[6..] == bad[6..] {
        assert good == [good[0], good[1]] + good[2..6] + good[6..];
        assert bad == [bad[0], bad[1]] + bad[2..6] + bad[6..];
        Reg32ValInjective(good[2..6], bad[2..6]);
      } else {
        DataCorrupted(good, bad, i, w);
      }
    }
  }

  lemma DataCorrupted(good: seq<byte>, bad: seq<byte>, i: nat, w: nat)
    requires |good| >= 6 && DifferOnlyIn(good, bad, i, w) && OneSided(i, w) && good[6..] != bad[6..]
    ensures good[2..6] == bad[2..6] && Crc32(good[6..]) != Crc32(bad[6..])
  {
    hide Feed;
    assert forall k :: 6 <= k < |good| ==> good[k] == good[6..][k - 6] && bad[k] == bad[6..][k - 6];
    assert i + w > 6;
    assert i >= 6;
    DetectsBurst(POLY32, good[6..], bad[6..], i - 6, w);
  }

  // ---- a configuration page ----

  method EncodePage(pageId: byte, data: seq<byte>) returns (out: seq<byte>)
    ensures out == PageBytes(PagePayload(pageId, data))
  {
    out := [pageId];
    out := out + U16Bytes(|data| % 0x1_0000);
    out := out + Reg32Bytes(Crc32(data));
    out := out + data;
  }

  function PageBytes(p: PagePayload): seq<byte> {
    [p.pageId] + Checked(p.payload)
  }

  function DecodePage(s: seq<byte>): Option<PagePayload> {
    if |s| < 7 then None
    else match Unchecked(s[1..]) case None => None case Some(data) => Some(PagePayload(s[0], data))
  }

  /** A page is recovered from its payload exactly when its length fits the length field. */
  lemma PageRoundTrip(p: PagePayload)
    ensures DecodePage(PageBytes(p)) == if |p.payload| <= U16_MAX then Some(p) else None
  {
    hide Unchecked, Checked;
    assert PageBytes(p)[1..] == Checked(p.payload);
    UncheckedChecked(p.payload);
  }

  lemma PageBytesOfDecoded(s: seq<byte>)
    requires DecodePage(s).Some?
    ensures PageBytes(DecodePage(s).value) == s
  {
    hide Unchecked, Checked;
    CheckedUnchecked(s[1..]);
    assert s == [s[0]] + s[1..];
  }

  /** Only the page id is outside the check: past it, no corruption of one byte, of the header,
    or of four neighbouring data bytes goes through. */
  lemma PageCorruptionIsRejected(good: seq<byte>, bad: seq<byte>, i: nat, w: nat)
    requires DecodePage(good).Some? && i >= 1 && DifferOnlyIn(good, bad, i, w) && OneSided(i - 1, w)
    ensures DecodePage(bad) == None
  {
    hide Unchecked;
    var a, b := good[1..], bad[1..];
    assert good == [good[0]] + a && bad == [bad[0]] + b && good[0] == bad[0];
    CorruptionUnchecked(a, b, i - 1, w);
  }

  // ---- a log block ----

  method EncodeLogBlock(blockIndex: u16, totalBlocks: u16, data: seq<byte>) returns (out: seq<byte>)
    ensures out == LogBlockBytes(LogBlockPayload(blockIndex, totalBlocks, data))
  {
    out := U16Bytes(blockIndex);
    out := out + U16Bytes(totalBlocks);
    out := out + U16Bytes(|data| % 0x1_0000);
    out := out + Reg32Bytes(Crc32(data));
    out := out + data;
  }

  function LogBlockBytes(p: LogBlockPayload): seq<byte> {
    U16Bytes(p.blockIndex) + U16Bytes(p.totalBlocks) + Checked(p.payload)
  }

  function DecodeLogBlock(s: seq<byte>): Option<LogBlockPayload> {
    if |s| < 10 then None
    else
      match Unchecked(s[4..])
      case None => None
      case Some(data) => Some(LogBlockPayload(U16Val(s[0], s[1]), U16Val(s[2], s[3]), data))
  }

  lemma LogBlockRoundTrip(p: LogBlockPayload)
    ensures DecodeLogBlock(LogBlockBytes(p)) == if |p.payload| <= U16_MAX then Some(p) else None
  {
    hide Unchecked, Checked, U16Bytes, U16Val;
    assert LogBlockBytes(p)[4..] == Checked(p.payload);
    U16RoundTrip(p.blockIndex);
    U16RoundTrip(p.totalBlocks);
    UncheckedChecked(p.payload);
  }

  /** Any log block answer that decodes encodes to the bytes it came from. */
  lemma LogBlockBytesOfDecoded(s: seq<byte>)
    requires DecodeLogBlock(s).Some?
    ensures LogBlockBytes(DecodeLogBlock(s).value) == s
  {
    hide Unchecked, Checked, U16Bytes, U16Val;
    CheckedUnchecked(s[4..]);
    U16ValRoundTrip(s[0], s[1]);
    U16ValRoundTrip(s[2], s[3]);
    assert s == [s[0], s[1]] + [s[2], s[3]] + s[4..];
  }
}
