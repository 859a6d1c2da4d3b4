/** Known answers: the check values of the two standards, and one value on the wire or in flash for every layout and
  table that encoder and decoder share, where a change made to both would go unnoticed otherwise. */
module KnownAnswers {
  import opened Bytes
  import opened Crc
  import opened StoredImage
  import Framing
  import Payloads
  import PageCrypto
  import PinAssignments
  import PinPages

  // ---- sums ----

  function EightBits(p: bv32, c: bv32): bv32 {
    Bit(p, Bit(p, Bit(p, Bit(p, Bit(p, Bit(p, Bit(p, Bit(p, c))))))))
  }

  lemma EightShift(p: bv32, c: bv32)
    ensures Shift(p, c, 8) == EightBits(p, c)
  {
    hide Bit;
  }

  /** Byte `i` of `s` takes the register from `c` to `d`. */
  lemma OneByte(p: bv32, c: bv32, s: seq<byte>, i: nat, d: bv32)
    requires i < |s| && EightBits(p, Mix(c, s[i])) == d
    ensures Feed(p, c, s[i..], 8) == Feed(p, d, s[i + 1..], 8)
  {
    hide Bit, EightBits, Mix;
    EightShift(p, Mix(c, s[i]));
    assert s[i..][0] == s[i] && s[i..][1..] == s[i + 1..];
  }

  lemma AllBytes(p: bv32, s: seq<byte>)
    ensures s[0..] == s && forall d :: Feed(p, d, s[|s|..], 8) == d
  {
  }

  const DIGITS: seq<byte> := [0x31, 0x32, 0x33, 0x34, 0x35, 0x36, 0x37, 0x38, 0x39]

  lemma Digits32Part1(s: seq<byte>)
    requires s == DIGITS
    ensures Feed(POLY32, 0xFFFF_FFFF, s[0..], 8) == Feed(POLY32, 0x641C_1F5C, s[4..], 8)
  {
    hide Feed, Shift;
    OneByte(POLY32, 0xFFFF_FFFF, s, 0, 0x7C23_1048);
    OneByte(POLY32, 0x7C23_1048, s, 1, 0xB0AC_BB32);
    OneByte(POLY32, 0xB0AC_BB32, s, 2, 0x77B7_9C2D);
    OneByte(POLY32, 0x77B7_9C2D, s, 3, 0x641C_1F5C);
  }

  lemma Digits32Part2(s: seq<byte>)
    requires s == DIGITS
    ensures Feed(POLY32, 0x641C_1F5C, s[4..], 8) == Feed(POLY32, 0x651F_2550, s[8..], 8)
  {
    hide Feed, Shift;
    OneByte(POLY32, 0x641C_1F5C, s, 4, 0x340A_C5E3);
    OneByte(POLY32, 0x340A_C5E3, s, 5, 0xF68D_2C9E);
    OneByte(POLY32, 0xF68D_2C9E, s, 6, 0xAFFC_9660);
    OneByte(POLY32, 0xAFFC_9660, s, 7, 0x651F_2550);
  }

  lemma Digits32Part3(s: seq<byte>)
    requires s == DIGITS
    ensures Feed(POLY32, 0x651F_2550, s[8..], 8) == Feed(POLY32, 0x340B_C6D9, s[9..], 8)
  {
    hide Feed, Shift;
    OneByte(POLY32, 0x651F_2550, s, 8, 0x340B_C6D9);
  }

  /** CRC-32/ISO-HDLC of the digits 1 to 9 is CBF43926. */
  lemma CheckValue32()
    ensures Crc32(DIGITS) == 0xCBF4_3926
  {
    hide Feed;
    var s := DIGITS;
    Digits32Part1(s);
    Digits32Part2(s);
    Digits32Part3(s);
    AllBytes(POLY32, s);
  }

  lemma Digits16Part1(s: seq<byte>)
    requires s == DIGITS
    ensures Feed(POLY16, 0xFFFF, s[0..], 8) == Feed(POLY16, 0x8B13, s[4..], 8)
  {
    hide Feed, Shift;
    OneByte(POLY16, 0xFFFF, s, 0, 0x2F8D);
    OneByte(POLY16, 0x2F8D, s, 1, 0x4D53);
    OneByte(POLY16, 0x4D53, s, 2, 0x634B);
    OneByte(POLY16, 0x634B, s, 3, 0x8B13);
  }

  lemma Digits16Part2(s: seq<byte>)
    requires s == DIGITS
    ensures Feed(POLY16, 0x8B13, s[4..], 8) == Feed(POLY16, 0xF795, s[8..], 8)
  {
    hide Feed, Shift;
    OneByte(POLY16, 0x8B13, s, 4, 0x44BF);
    OneByte(POLY16, 0x44BF, s, 5, 0x198D);
    OneByte(POLY16, 0x198D, s, 6, 0x1AC8);
    OneByte(POLY16, 0x1AC8, s, 7, 0xF795);
  }

  lemma Digits16Part3(s: seq<byte>)
    requires s == DIGITS
    ensures Feed(POLY16, 0xF795, s[8..], 8) == Feed(POLY16, 0x6F91, s[9..], 8)
  {
    hide Feed, Shift;
    OneByte(POLY16, 0xF795, s, 8, 0x6F91);
  }

  /** CRC-16/IBM-SDLC of the digits 1 to 9 is 906E. */
  lemma CheckValue16()
    ensures Crc16(DIGITS) == 0x906E
  {
    hide Feed;
    var s := DIGITS;
    Digits16Part1(s);
    Digits16Part2(s);
    Digits16Part3(s);
    AllBytes(POLY16, s);
  }

  // ---- layouts ----

  lemma PingSum()
    ensures Crc16([0x00, 0x00, 0x01]) == 0xD745
  {
    hide Feed, Shift;
    var s: seq<byte> := [0x00, 0x00, 0x01];
    OneByte(POLY16, 0xFFFF, s, 0, 0x0F87);
    OneByte(POLY16, 0x0F87, s, 1, 0xF0B8);
    OneByte(POLY16, 0xF0B8, s, 2, 0x28BA);
    AllBytes(POLY16, s);
  }

  lemma SumOfAA()
    ensures Crc32([0xAA]) == 0xE401_A57B
  {
    hide Feed, Shift;
    var s: seq<byte> := [0xAA];
    OneByte(POLY32, 0xFFFF_FFFF, s, 0, 0x1BFE_5A84);
    AllBytes(POLY32, s);
  }

  /** A Ping on the wire. */
  lemma PingOnTheWire()
    ensures Framing.Encode(Framing.Packet(0x01, [])) == [0x53, 0x54, 0x00, 0x00, 0x01, 0xD7, 0x45]
  {
    hide Crc16, U16Bytes;
    PingSum();
    SmallNumbers();
    assert Framing.Body(Framing.Packet(0x01, [])) == [0x00, 0x00, 0x01];
    assert Framing.Reg16Bytes(0xD745) == [0xD7, 0x45];
  }

  /** Page 5 holding the one byte AA, on the wire. */
  lemma PageOnTheWire()
    ensures Payloads.PageBytes(Payloads.PagePayload(0x05, [0xAA]))
         == [0x05, 0x00, 0x01, 0xE4, 0x01, 0xA5, 0x7B, 0xAA]
  {
    hide Crc32, Reg32Bytes, U16Bytes;
    SumOfAA();
    SmallNumbers();
    Word4(0xE401_A57B, 0xE4, 0x01, 0xA5, 0x7B);
  }

  /** Block 2 of 3 of a log, holding the one byte AA, on the wire. */
  lemma LogBlockOnTheWire()
    ensures Payloads.LogBlockBytes(Payloads.LogBlockPayload(2, 3, [0xAA]))
         == [0x00, 0x02, 0x00, 0x03, 0x00, 0x01, 0xE4, 0x01, 0xA5, 0x7B, 0xAA]
  {
    hide Crc32, Reg32Bytes, U16Bytes;
    SumOfAA();
    SmallNumbers();
    Word4(0xE401_A57B, 0xE4, 0x01, 0xA5, 0x7B);
  }

  lemma SmallNumbers()
    ensures U16Bytes(0) == [0x00, 0x00] && U16Bytes(1) == [0x00, 0x01]
    ensures U16Bytes(2) == [0x00, 0x02] && U16Bytes(3) == [0x00, 0x03]
    ensures ByteOf(1) == 1 && ByteOf(3) == 3
  {
  }

  const IMAGE_PREFIX: seq<byte> :=
    [0x53, 0x54, 0x43, 0x46, 0x01, 0x03, 0x00, 0x01, 0x01, 0x02, 0x03, 0x04, 0x00, 0x01, 0xE4, 0x01, 0xA5, 0x7B]

  lemma SmallWords()
    ensures U32Bytes(2) == [0x00, 0x00, 0x00, 0x02] && U32Bytes(3) == [0x00, 0x00, 0x00, 0x03]
  {
    SmallNumbers();
    hide U16Bytes;
    assert 2 / 0x1_0000 == 0 && 3 / 0x1_0000 == 0;
  }

  const IMAGE: seq<byte> :=
    [0x53, 0x54, 0x43, 0x46, 0x01, 0x03, 0x00, 0x01, 0x01, 0x02, 0x03, 0x04, 0x00, 0x01, 0xE4, 0x01, 0xA5, 0x7B, 0xAA]

  lemma ImagePart1(s: seq<byte>)
    requires |s| == 19 && s[0] == 0x53 && s[1] == 0x54 && s[2] == 0x43 && s[3] == 0x46
    ensures Feed(POLY32, 0xFFFF_FFFF, s[0..], 8) == Feed(POLY32, 0x285D_FEA0, s[4..], 8)
  {
    hide Feed, Shift;
    OneByte(POLY32, 0xFFFF_FFFF, s, 0, 0xDF9F_103C);
    OneByte(POLY32, 0xDF9F_103C, s, 1, 0x43B6_767A);
    OneByte(POLY32, 0x43B6_767A, s, 2, 0x5F46_3E7E);
    OneByte(POLY32, 0x5F46_3E7E, s, 3, 0x285D_FEA0);
  }

  lemma ImagePart2(s: seq<byte>)
    requires |s| == 19 && s[4] == 0x01 && s[5] == 0x03 && s[6] == 0x00 && s[7] == 0x01
    ensures Feed(POLY32, 0x285D_FEA0, s[4..], 8) == Feed(POLY32, 0x056C_2596, s[8..], 8)
  {
    hide Feed, Shift;
    OneByte(POLY32, 0x285D_FEA0, s, 4, 0xA1F9_CE80);
    OneByte(POLY32, 0xA1F9_CE80, s, 5, 0x7410_2B54);
    OneByte(POLY32, 0x7410_2B54, s, 6, 0x6C72_85C6);
    OneByte(POLY32, 0x6C72_85C6, s, 7, 0x056C_2596);
  }

  lemma ImagePart3(s: seq<byte>)
    requires |s| == 19 && s[8] == 0x01 && s[9] == 0x02 && s[10] == 0x03 && s[11] == 0x04
    ensures Feed(POLY32, 0x056C_2596, s[8..], 8) == Feed(POLY32, 0x88F7_CE86, s[12..], 8)
  {
    hide Feed, Shift;
    OneByte(POLY32, 0x056C_2596, s, 8, 0x6E6E_6AC2);
    OneByte(POLY32, 0x6E6E_6AC2, s, 9, 0x9B0A_ACDA);
    OneByte(POLY32, 0x9B0A_ACDA, s, 10, 0xFF94_60DC);
    OneByte(POLY32, 0xFF94_60DC, s, 11, 0x88F7_CE86);
  }

  lemma ImagePart4(s: seq<byte>)
    requires |s| == 19 && s[12] == 0x00 && s[13] == 0x01 && s[14] == 0xE4 && s[15] == 0x01
    ensures Feed(POLY32, 0x88F7_CE86, s[12..], 8) == Feed(POLY32, 0xA74A_428C, s[16..], 8)
  {
    hide Feed, Shift;
    OneByte(POLY32, 0x88F7_CE86, s, 12, 0x0453_D1DB);
    OneByte(POLY32, 0x0453_D1DB, s, 13, 0x6602_681B);
    OneByte(POLY32, 0x6602_681B, s, 14, 0x2D64_EDE5);
    OneByte(POLY32, 0x2D64_EDE5, s, 15, 0xA74A_428C);
  }

  lemma ImagePart5(s: seq<byte>)
    requires |s| == 19 && s[16] == 0xA5 && s[17] == 0x7B && s[18] == 0xAA
    ensures Feed(POLY32, 0xA74A_428C, s[16..], 8) == Feed(POLY32, 0x9912_120A, s[19..], 8)
  {
    hide Feed, Shift;
    OneByte(POLY32, 0xA74A_428C, s, 16, 0x4215_D22E);
    OneByte(POLY32, 0x4215_D22E, s, 17, 0x1B43_B0A9);
    OneByte(POLY32, 0x1B43_B0A9, s, 18, 0x9912_120A);
  }

  lemma ImageSum()
    ensures Crc32(IMAGE_PREFIX + [0xAA]) == 0x66ED_EDF5
  {
    hide Feed;
    var s := IMAGE;
    assert IMAGE_PREFIX + [0xAA] == s;
    ImagePart1(s);
    ImagePart2(s);
    ImagePart3(s);
    ImagePart4(s);
    ImagePart5(s);
    AllBytes(POLY32, s);
  }

  /** Page 3 holding the one byte AA, at generation 01020304 and the current versions, in flash. */
  lemma ImageInFlash()
    ensures Encode(3, 0x0102_0304, 1, 1, [0xAA]) == IMAGE_PREFIX + [0x66, 0xED, 0xED, 0xF5, 0xAA]
  {
    hide Crc32, Prefix;
    SumOfAA();
    ImageSum();
    var h := BuildHeader(3, 0x0102_0304, 1, 1, [0xAA]);
    PrefixInFlash(h);
    PrefixInFlash(h.(imageCrc := 0));
    Word4(0x66ED_EDF5, 0x66, 0xED, 0xED, 0xF5);
  }

  lemma Word4(c: bv32, b0: byte, b1: byte, b2: byte, b3: byte)
    requires Reg32Val(b0, b1, b2, b3) == c
    ensures Reg32Bytes(c) == [b0, b1, b2, b3]
  {
    hide Reg32Val, Reg32Bytes;
    Reg32ValRoundTrip(b0, b1, b2, b3);
  }

  lemma PrefixInFlash(h: ConfigPageHeader)
    requires h.pageId == 3 && h.schemaVersion == 1 && h.formatVersion == 1 && h.generation == 0x0102_0304
    requires h.payloadLength == 1 && h.payloadCrc == 0xE401_A57B
    ensures Prefix(h) == IMAGE_PREFIX
  {
    hide U16Bytes, Reg32Bytes, ByteOf;
    SmallNumbers();
    Word4(0x0102_0304, 0x01, 0x02, 0x03, 0x04);
    Word4(0xE401_A57B, 0xE4, 0x01, 0xA5, 0x7B);
  }

  /** The record of the counter 0000000300000002 at the end of page 9. */
  lemma RecordInFlash(page: seq<byte>)
    requires |page| == 256
    ensures PageCrypto.WithRecord(page, 0x3_0000_0002)
         == page[..240]
            + [0x53, 0x54, 0x4E, 0x43, 0x01, 0x00, 0x00, 0x00, 0x00, 0x00, 0x00, 0x03, 0x00, 0x00, 0x00, 0x02]
  {
    SmallWords();
    hide U32Bytes;
    assert 0x3_0000_0002 / 0x1_0000_0000 == 3 && 0x3_0000_0002 % 0x1_0000_0000 == 2;
    assert PageCrypto.U64Bytes(0x3_0000_0002) == [0x00, 0x00, 0x00, 0x03, 0x00, 0x00, 0x00, 0x02];
  }

  // ---- pins ----

  /** The code, class and fixed pin of every function. */
  lemma FunctionTable(f: PinAssignments.EcuFunction)
    ensures var row := (PinAssignments.Code(f), PinAssignments.RequiredClass(f), PinAssignments.FixedPin(f));
            match f
            case CrankInput => row == (0x01, PinAssignments.CaptureInput, Some([0x50, 0x41, 0x30]))
            case CamInput => row == (0x02, PinAssignments.CaptureInput, Some([0x50, 0x41, 0x31]))
            case MapSensor => row == (0x03, PinAssignments.AnalogInput, None)
            case TpsSensor => row == (0x04, PinAssignments.AnalogInput, None)
            case CltSensor => row == (0x05, PinAssignments.AnalogInput, None)
            case IatSensor => row == (0x06, PinAssignments.AnalogInput, None)
            case BoostControl => row == (0x10, PinAssignments.PwmOutput, None)
            case IdleControl => row == (0x11, PinAssignments.PwmOutput, None)
            case Injector1 => row == (0x20, PinAssignments.Injector, Some([0x50, 0x45, 0x39]))
            case Injector2 => row == (0x21, PinAssignments.Injector, Some([0x50, 0x45, 0x31, 0x31]))
            case Ignition1 => row == (0x30, PinAssignments.Ignition, Some([0x50, 0x46, 0x38]))
            case Ignition2 => row == (0x31, PinAssignments.Ignition, Some([0x50, 0x46, 0x39]))
  {
  }

  /** A page of one assignment: the crank input on its pin. */
  lemma PinsInAPage(pinLabel: seq<byte>, required: PinAssignments.PinFunctionClass)
    ensures PinPages.Serialized(
              [PinAssignments.Resolved(PinAssignments.CrankInput, [0x50, 0x41, 0x30], pinLabel, required)], 12)
         == Ok([0x53, 0x54, 0x49, 0x4F, 0x01, 0x01, 0x01, 0x03, 0x50, 0x41, 0x30, 0x00])
  {
    var a := PinAssignments.Resolved(PinAssignments.CrankInput, [0x50, 0x41, 0x30], pinLabel, required);
    SmallNumbers();
    hide ByteOf;
    assert [a][1..] == [] && |[a]| % 256 == 1 && |a.pinId| % 256 == 3;
    assert PinPages.Entry(a) == [0x01, 0x03, 0x50, 0x41, 0x30];
    assert PinPages.Entries([a]) == [0x01, 0x03, 0x50, 0x41, 0x30];
    assert PinPages.Encoded([a]) == [0x53, 0x54, 0x49, 0x4F, 0x01, 0x01, 0x01, 0x03, 0x50, 0x41, 0x30];
    assert PinPages.Zeros(1) == [0x00];
    assert PinPages.Encoded([a]) + PinPages.Zeros(1)
        == [0x53, 0x54, 0x49, 0x4F, 0x01, 0x01, 0x01, 0x03, 0x50, 0x41, 0x30, 0x00];
  }

  // ---- commands ----

  /** The commands of the protocol, one by one. */
  predicate IsCommand(b: byte) {
    || b == 0x01 || b == 0x02 || b == 0x03 || b == 0x04 || b == 0x05 || b == 0x06 || b == 0x07 || b == 0x08
    || b == 0x20 || b == 0x21 || b == 0x22 || b == 0x23 || b == 0x24 || b == 0x25 || b == 0x26 || b == 0x27
    || b == 0x28 || b == 0x29 || b == 0x2A || b == 0x2B || b == 0x2C || b == 0x2D || b == 0x2E || b == 0x2F
    || b == 0x30 || b == 0x31 || b == 0x32 || b == 0x33 || b == 0x34 || b == 0x35 || b == 0x36 || b == 0x40
    || b == 0x41 || b == 0x42 || b == 0x43 || b == 0x44 || b == 0x45 || b == 0x46 || b == 0x47 || b == 0x48
    || b == 0x49 || b == 0x4A || b == 0x4B || b == 0x4C || b == 0x4D || b == 0x4E || b == 0x4F || b == 0x50
    || b == 0x51 || b == 0x52 || b == 0x53 || b == 0x54 || b == 0x55 || b == 0x56 || b == 0x57 || b == 0x58
    || b == 0x60 || b == 0x61 || b == 0x62 || b == 0x63 || b == 0x64 || b == 0x65 || b == 0x66 || b == 0x67
    || b == 0x68 || b == 0x69 || b == 0x6A || b == 0x6B || b == 0x6C || b == 0x70 || b == 0x71 || b == 0x72
    || b == 0x73 || b == 0x74 || b == 0x75 || b == 0xA0 || b == 0xA1 || b == 0xFF
  }

  /** A packet's command is read exactly if it is one of them. */
  lemma CommandsExactly(b: byte)
    ensures Framing.KnownCmd(b) <==> IsCommand(b)
  {
  }
}
