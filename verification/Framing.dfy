/** The packet framing of src/protocol.rs:
  magic "ST", big-endian length, command, payload, CRC-16 over everything after the magic. */
module Framing {
  import opened Bytes
  import opened Crc

  const MAGIC: seq<byte> := [0x53, 0x54]
  const MAX_PAYLOAD := 8192

  predicate KnownCmd(b: byte) {
    || 0x01 <= b <= 0x08
    || 0x20 <= b <= 0x36
    || 0x40 <= b <= 0x58
    || 0x60 <= b <= 0x6C
    || 0x70 <= b <= 0x75
    || b == 0xA0 || b == 0xA1 || b == 0xFF
  }

  type Cmd = b: byte | KnownCmd(b) witness 0x01

  datatype Packet = Packet(cmd: Cmd, payload: seq<byte>)

  datatype ProtocolError =
    | BadMagic
    | TooLarge(len: int)
    | CrcFail(expected: bv32, actual: bv32)
    | UnknownCmd(code: byte)

  /** What one look at the front of a receive buffer says. */
  datatype Parsed =
    | Incomplete
    | Frame(packet: Packet, consumed: nat)
    | Fail(error: ProtocolError)

  function Reg16Bytes(c: bv32): (s: seq<byte>)
    ensures |s| == 2
  {
    [((c >> 8) & 0xFF) as byte, (c & 0xFF) as byte]
  }

  function Reg16Val(hi: byte, lo: byte): bv32 {
    ((hi as bv32) << 8) | (lo as bv32)
  }

  lemma Reg16RoundTrip(c: bv32)
    requires c & 0xFFFF_0000 == 0
    ensures Reg16Val(Reg16Bytes(c)[0], Reg16Bytes(c)[1]) == c
  {
  }

  lemma Reg16ValRoundTrip(hi: byte, lo: byte)
    ensures Reg16Bytes(Reg16Val(hi, lo)) == [hi, lo]
  {
  }

  /** Length, command and payload: the bytes the check value covers. */
  function Body(p: Packet): (s: seq<byte>)
    ensures |s| == 3 + |p.payload|
  {
    U16Bytes(|p.payload| % 0x1_0000) + [p.cmd] + p.payload
  }

  function Encode(p: Packet): (s: seq<byte>)
    ensures |s| == 7 + |p.payload|
  {
    MAGIC + Body(p) + Reg16Bytes(Crc16(Body(p)))
  }

  /** `Packet::to_bytes`: the bytes pushed one field after another. */
  method ToBytes(p: Packet) returns (out: seq<byte>)
    ensures out == Encode(p)
  {
    var len := |p.payload|;
    out := MAGIC;
    out := out + U16Bytes(len % 0x1_0000);
    out := out + [p.cmd];
    out := out + p.payload;
    assert out[2..] == Body(p);
    var crc := Crc16(out[2..]);
    out := out + Reg16Bytes(crc);
  }

  /** `Packet::from_bytes`. */
  function Parse(data: seq<byte>): (r: Parsed)
    ensures r.Frame? ==> 7 <= r.consumed <= |data|
  {
    if |data| < 7 then Incomplete
    else if data[..2] != MAGIC then Fail(BadMagic)
    else
      var len := U16Val(data[2], data[3]);
      if len > MAX_PAYLOAD then Fail(TooLarge(len))
      else
        var total := 7 + len;
        if |data| < total then Incomplete
        else
          var expected := Crc16(data[2..total - 2]);
          var actual := Reg16Val(data[total - 2], data[total - 1]);
          if expected != actual then Fail(CrcFail(expected, actual))
          else if !KnownCmd(data[4]) then Fail(UnknownCmd(data[4]))
          else Frame(Packet(data[4], data[5..total - 2]), total)
  }

  // ---- one packet ----

  lemma EncodeLayout(p: Packet, rest: seq<byte>)
    ensures var e := Encode(p); var d := e + rest;
            && d[..2] == MAGIC
            && U16Bytes(|p.payload| % 0x1_0000) == [d[2], d[3]]
            && d[4] == p.cmd
            && d[5..|e| - 2] == p.payload
            && d[2..|e| - 2] == Body(p)
            && Reg16Bytes(Crc16(Body(p))) == [d[|e| - 2], d[|e| - 1]]
  {
    var e := Encode(p);
    var d := e + rest;
    var b := Body(p);
    assert e[2..|e| - 2] == b;
    assert d[2..|e| - 2] == b;
    assert b[3..] == p.payload;
    assert d[5..|e| - 2] == b[3..];
  }

  /** A packet at the front of any buffer is recovered whole, and exactly its bytes are consumed. */
  lemma ParseEncoded(p: Packet, rest: seq<byte>)
    requires |p.payload| <= MAX_PAYLOAD
    ensures Parse(Encode(p) + rest) == Frame(p, |Encode(p)|)
  {
    hide Crc16, Reg16Val, Reg16Bytes, Body, U16Val;
    EncodeLayout(p, rest);
    U16RoundTrip(|p.payload|);
    Crc16Fits(Body(p));
    Reg16RoundTrip(Crc16(Body(p)));
  }

  /** The bound on the payload is exact: beyond it a packet is never recovered. */
  lemma RecoveredExactlyUpToMaxPayload(p: Packet)
    ensures Parse(Encode(p)) == Frame(p, |Encode(p)|) <==> |p.payload| <= MAX_PAYLOAD
  {
    if |p.payload| <= MAX_PAYLOAD {
      ParseEncoded(p, []);
      assert Encode(p) + [] == Encode(p);
    }
  }

  /** What was parsed re-encodes to the bytes that were consumed. */
  lemma EncodeParsed(data: seq<byte>)
    requires Parse(data).Frame?
    ensures Encode(Parse(data).packet) == data[..Parse(data).consumed]
    ensures |Parse(data).packet.payload| <= MAX_PAYLOAD
  {
    hide Crc16, Reg16Val, Reg16Bytes, U16Val;
    var p := Parse(data).packet;
    var n := Parse(data).consumed;
    var front := data[..n];
    U16ValRoundTrip(data[2], data[3]);
    Reg16ValRoundTrip(data[n - 2], data[n - 1]);
    assert Body(p) == data[2..n - 2] by {
      assert data[2..n - 2] == [data[2], data[3]] + [data[4]] + data[5..n - 2];
    }
    hide Parse, Body;
    assert front == data[..2] + data[2..n - 2] + [data[n - 2], data[n - 1]];
  }

  /** A packet that has only partly arrived is waited for, never rejected. */
  lemma StrictPrefixIsIncomplete(p: Packet, n: nat)
    requires |p.payload| <= MAX_PAYLOAD && n < |Encode(p)|
    ensures Parse(Encode(p)[..n]) == Incomplete
  {
    hide Crc16, Reg16Val, Reg16Bytes, Body, U16Val;
    if n >= 7 {
      EncodeLayout(p, []);
      assert Encode(p) + [] == Encode(p);
      U16RoundTrip(|p.payload|);
      assert Encode(p)[..n][..2] == Encode(p)[..2];
    }
  }

  // ---- a stream of packets ----

  function EncodeAll(ps: seq<Packet>): seq<byte> {
    if ps == [] then [] else Encode(ps[0]) + EncodeAll(ps[1..])
  }

  /** The packets a receiver takes off the front of its buffer until it must wait or has failed,
    and what is left in the buffer then. */
  function ParseAll(data: seq<byte>): (seq<Packet>, seq<byte>)
    decreases |data|
  {
    var r := Parse(data);
    if !r.Frame? then ([], data)
    else
      var (ps, left) := ParseAll(data[r.consumed..]);
      ([r.packet] + ps, left)
  }

  predicate AllFit(ps: seq<Packet>) {
    forall i :: 0 <= i < |ps| ==> |ps[i].payload| <= MAX_PAYLOAD
  }

  /** Packets sent back to back are recovered exactly, whatever incomplete or foreign bytes follow them. */
  lemma {:induction false} StreamRoundTrip(ps: seq<Packet>, left: seq<byte>)
    requires AllFit(ps) && !Parse(left).Frame?
    ensures ParseAll(EncodeAll(ps) + left) == (ps, left)
    decreases |ps|
  {
    hide Parse, Encode;
    var data := EncodeAll(ps) + left;
    if ps == [] {
      assert data == left;
    } else {
      assert [ps[0]] + ps[1..] == ps;
      var rest := EncodeAll(ps[1..]) + left;
      assert data == Encode(ps[0]) + rest;
      ParseEncoded(ps[0], rest);
      assert data[|Encode(ps[0])|..] == rest;
      StreamRoundTrip(ps[1..], left);
    }
  }

  /** Nothing is invented and nothing is lost: the packets taken and the bytes left make up the buffer. */
  lemma {:induction false} ParseAllConserves(data: seq<byte>)
    ensures var (ps, left) := ParseAll(data); EncodeAll(ps) + left == data && AllFit(ps) && !Parse(left).Frame?
    decreases |data|
  {
    hide Parse, Encode;
    var r := Parse(data);
    if r.Frame? {
      EncodeParsed(data);
      ParseAllConserves(data[r.consumed..]);
      var (ps, left) := ParseAll(data[r.consumed..]);
      assert ([r.packet] + ps)[1..] == ps;
      assert data == data[..r.consumed] + data[r.consumed..];
    }
  }

  // ---- corruption ----

  lemma Reg16ValInjective(hi: byte, lo: byte, hi': byte, lo': byte)
    requires Reg16Val(hi, lo) == Reg16Val(hi', lo')
    ensures hi == hi' && lo == lo'
  {
    Reg16ValRoundTrip(hi, lo);
    Reg16ValRoundTrip(hi', lo');
  }

  /** Beyond the length field, a corrupted byte anywhere in a packet is caught, and so is any corruption
    confined to two neighbouring bytes that are both covered by the check value or both part of it. */
  lemma CorruptionIsRejected(good: seq<byte>, bad: seq<byte>, i: nat, w: nat)
    requires Parse(good).Frame? && Parse(good).consumed == |good|
    requires 4 <= i && DifferOnlyIn(good, bad, i, w)
    requires w <= 1 || (w <= 2 && (i + w <= |good| - 2 || |good| - 2 <= i))
    ensures Parse(bad).Fail? && Parse(bad).error.CrcFail?
  {
    hide Feed, Reg16Val, U16Val;
    var n := |good|;
    assert bad[..2] == good[..2] && bad[2] == good[2] && bad[3] == good[3];
    var body, body' := good[2..n - 2], bad[2..n - 2];
    if body == body' {
      assert forall k :: 2 <= k < n - 2 ==> good[k] == body[k - 2] && bad[k] == body'[k - 2];
      assert good[n - 2] != bad[n - 2] || good[n - 1] != bad[n - 1];
      if Reg16Val(good[n - 2], good[n - 1]) == Reg16Val(bad[n - 2], bad[n - 1]) {
        Reg16ValInjective(good[n - 2], good[n - 1], bad[n - 2], bad[n - 1]);
      }
    } else {
      BodyDiffers(good, bad, i, w);
      DetectsBurst(POLY16, body, body', i - 2, w);
    }
  }

  /** A window that reaches the covered bytes misses the check value. */
  lemma BodyDiffers(good: seq<byte>, bad: seq<byte>, i: nat, w: nat)
    requires |good| >= 7 && 4 <= i && DifferOnlyIn(good, bad, i, w)
    requires w <= 1 || (w <= 2 && (i + w <= |good| - 2 || |good| - 2 <= i))
    requires good[2..|good| - 2] != bad[2..|good| - 2]
    ensures DifferOnlyIn(good[2..|good| - 2], bad[2..|good| - 2], i - 2, w)
    ensures good[|good| - 2] == bad[|good| - 2] && good[|good| - 1] == bad[|good| - 1]
  {
    var body, body' := good[2..|good| - 2], bad[2..|good| - 2];
    var k :| 0 <= k < |body| && body[k] != body'[k];
    assert good[k + 2] != bad[k + 2];
    assert i <= k + 2 < i + w;
  }

  lemma StoredDiffers(hi: byte, hi': byte, lo: byte)
    ensures Xor(Reg16Val(hi, lo), Reg16Val(hi', lo)) == Up(Difference(hi, hi'))
  {
  }

  lemma SameDifference(s: bv32, c: bv32, t: bv32)
    ensures c == t <==> Xor(s, c) == Xor(s, t)
  {
  }

  /** Whether a packet with another last covered byte and another high byte of the check value still passes. */
  lemma SeamPasses(s: seq<byte>, x: byte, y: byte, hi: byte, hi': byte, lo: byte)
    requires Crc16(s + [x]) == Reg16Val(hi, lo)
    ensures Crc16(s + [y]) == Reg16Val(hi', lo)
       <==> (x == y && hi == hi') || (x ^ y == 0x91 && hi ^ hi' == 0x85)
  {
    hide Reg16Val, Crc16, Xor, Crc.Shift, Difference, Up;
    LastByteDiffers(s, x, y);
    StoredDiffers(hi, hi', lo);
    SameDifference(Crc16(s + [x]), Crc16(s + [y]), Reg16Val(hi', lo));
    SeamPattern(x, y, hi, hi');
  }

  lemma LastApart(s: seq<byte>, i: nat, j: nat)
    requires i < j <= |s|
    ensures s[i..j] == s[i..j - 1] + [s[j - 1]]
  {
  }

  /** Across the seam of the covered bytes and the check value, which is stored high byte first, one pattern escapes and
    no other: 0x91 in the last covered byte together with 0x85 in the high byte of the check value. It escapes in every
    packet with a payload. */
  lemma SeamCorruptionIsRejectedExactly(good: seq<byte>, bad: seq<byte>)
    requires Parse(good).Frame? && Parse(good).consumed == |good|
    requires DifferOnlyIn(good, bad, |good| - 3, 2)
    ensures var n := |good|;
            Parse(bad).Fail? && Parse(bad).error.CrcFail?
            <==> !(good[n - 3] ^ bad[n - 3] == 0x91 && good[n - 2] ^ bad[n - 2] == 0x85)
    ensures var n := |good|;
            n > 7 && good[n - 3] ^ bad[n - 3] == 0x91 && good[n - 2] ^ bad[n - 2] == 0x85 ==> Parse(bad).Frame?
  {
    var n := |good|;
    hide Reg16Val, U16Val, Crc16, DifferOnlyIn;
    SameAround(good, bad);
    LastApart(good, 2, n - 2);
    LastApart(bad, 2, n - 2);
    SeamPasses(good[2..n - 3], good[n - 3], bad[n - 3], good[n - 2], bad[n - 2], good[n - 1]);
  }

  lemma SameAround(good: seq<byte>, bad: seq<byte>)
    requires |good| >= 7 && DifferOnlyIn(good, bad, |good| - 3, 2)
    ensures var n := |good|;
            && |bad| == n && bad[..2] == good[..2] && bad[2] == good[2] && bad[3] == good[3]
            && bad[2..n - 3] == good[2..n - 3] && bad[n - 1] == good[n - 1]
            && (n > 7 ==> bad[4] == good[4])
            && (good[n - 3] != bad[n - 3] || good[n - 2] != bad[n - 2])
  {
  }

  // ---- what is answered to what is not a packet ----

  /** Fewer than seven bytes are waited for; then the magic, the length, the end of the packet, the check value and the
    command are looked at, in this order. */
  lemma RefusedExactly(data: seq<byte>)
    ensures var r := Parse(data);
            var framed := |data| >= 7 && data[0] == 0x53 && data[1] == 0x54;
            var len := if framed then U16Val(data[2], data[3]) else 0;
            var whole := framed && len <= 8192 && |data| >= len + 7;
            && (r.Fail? && r.error.BadMagic? <==> |data| >= 7 && (data[0] != 0x53 || data[1] != 0x54))
            && (r.Fail? && r.error.TooLarge? <==> framed && len > 8192)
            && (r.Fail? && r.error.TooLarge? ==> r.error.len == len)
            && (r.Incomplete? <==> |data| < 7 || (framed && len <= 8192 && |data| < len + 7))
            && (r.Fail? && r.error.CrcFail? <==>
                  whole && Crc16(data[2..len + 5]) != Reg16Val(data[len + 5], data[len + 6]))
            && (r.Fail? && r.error.UnknownCmd? <==>
                  whole && Crc16(data[2..len + 5]) == Reg16Val(data[len + 5], data[len + 6]) && !KnownCmd(data[4]))
            && (r.Fail? && r.error.UnknownCmd? ==> r.error.code == data[4])
  {
    hide Crc16, Reg16Val, U16Val, KnownCmd;
    if |data| >= 7 {
      assert data[..2] == [data[0], data[1]];
    }
  }
}
