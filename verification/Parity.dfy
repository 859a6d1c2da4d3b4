/** Parity and the 16-bit check of a packet: a bit step keeps the parity of the register, so a packet with an odd number
  of wrong bits, wherever they are past the length field, never passes. */
module Parity {
  import opened Bytes
  import opened Crc
  import opened Framing

  // ---- registers ----

  predicate Low(c: bv32) {
    c & 1 == 1
  }

  /** Whether an odd number of bits is set. */
  predicate Odd(c: bv32)
    decreases c
  {
    if c == 0 then false else Low(c) != Odd(c >> 1)
  }

  lemma OddHalf(c: bv32)
    ensures Odd(c) == (Low(c) != Odd(Half(c)))
  {
  }

  lemma HalfShrinks(c: bv32)
    ensures if c == 0 then Half(c) == 0 && !Odd(c) else Half(c) < c
  {
  }

  lemma HalfXor(a: bv32, b: bv32)
    ensures Half(Xor(a, b)) == Xor(Half(a), Half(b))
  {
    HalvesXor(a, b);
  }

  lemma LowXor(a: bv32, b: bv32)
    ensures Low(Xor(a, b)) == (Low(a) != Low(b))
  {
    LowBitsXor(a, b);
  }

  lemma NoDifference()
    ensures Xor(0, 0) == 0
  {
  }

  lemma {:induction false} OddXor(a: bv32, b: bv32)
    ensures Odd(Xor(a, b)) == (Odd(a) != Odd(b))
    decreases a, b
  {
    hide Odd, Low, Half, Xor;
    HalfShrinks(a);
    HalfShrinks(b);
    if a == 0 && b == 0 {
      NoDifference();
    } else {
      OddHalf(a);
      OddHalf(b);
      OddHalf(Xor(a, b));
      HalfXor(a, b);
      LowXor(a, b);
      OddXor(Half(a), Half(b));
    }
  }

  lemma OddPoly()
    ensures Odd(POLY16)
  {
    OddHalf(0x8408); OddHalf(0x4204); OddHalf(0x2102); OddHalf(0x1081);
    OddHalf(0x0840); OddHalf(0x0420); OddHalf(0x0210); OddHalf(0x0108);
    OddHalf(0x0084); OddHalf(0x0042); OddHalf(0x0021); OddHalf(0x0010);
    OddHalf(0x0008); OddHalf(0x0004); OddHalf(0x0002); OddHalf(0x0001);
  }

  lemma BitIs(c: bv32)
    ensures Bit(POLY16, c) == if Low(c) then Xor(Half(c), POLY16) else Half(c)
  {
  }

  /** The polynomial has an odd number of terms below its top one, so a bit step keeps the parity of the register. */
  lemma OddBit(c: bv32)
    ensures Odd(Bit(POLY16, c)) == Odd(c)
  {
    hide Odd, Low, Half, Xor, Bit;
    OddHalf(c);
    BitIs(c);
    OddPoly();
    OddXor(Half(c), POLY16);
  }

  lemma {:induction false} OddShift(c: bv32, n: nat)
    ensures Odd(Shift(POLY16, c, n)) == Odd(c)
    decreases n
  {
    hide Odd, Bit;
    if n == 0 {
    } else {
      OddBit(c);
      OddShift(Bit(POLY16, c), n - 1);
    }
  }

  predicate OddByte(x: byte) {
    Odd(x as bv32)
  }

  /** Whether an odd number of bits is set in all of the bytes. */
  predicate OddBytes(s: seq<byte>) {
    if s == [] then false else OddByte(s[0]) != OddBytes(s[1..])
  }

  lemma OddMix(c: bv32, x: byte)
    ensures Odd(Mix(c, x)) == (Odd(c) != OddByte(x))
  {
    hide Odd;
    OddXor(c, x as bv32);
  }

  lemma {:induction false} OddFeed(c: bv32, s: seq<byte>)
    ensures Odd(Feed(POLY16, c, s, 8)) == (Odd(c) != OddBytes(s))
    decreases |s|
  {
    hide OddByte, Odd, Mix, Shift;
    if s == [] {
    } else {
      OddMix(c, s[0]);
      OddShift(Mix(c, s[0]), 8);
      OddFeed(Shift(POLY16, Mix(c, s[0]), 8), s[1..]);
    }
  }

  lemma CrcIs(s: seq<byte>)
    ensures Crc16(s) == Xor(Feed(POLY16, Ones(POLY16), s, 8), Ones(POLY16))
  {
    hide Feed, Ones, Xor;
  }

  /** The 16-bit check of any bytes has their parity. */
  lemma OddCrc16(s: seq<byte>)
    ensures Odd(Crc16(s)) == OddBytes(s)
  {
    hide Odd, Feed, Xor, Ones, Crc16;
    CrcIs(s);
    OddFeed(Ones(POLY16), s);
    OddXor(Feed(POLY16, Ones(POLY16), s, 8), Ones(POLY16));
  }

  lemma {:induction false} OddBytesConcat(s: seq<byte>, t: seq<byte>)
    ensures OddBytes(s + t) == (OddBytes(s) != OddBytes(t))
    decreases |s|
  {
    hide OddByte, Odd;
    if s == [] {
      assert s + t == t;
    } else {
      assert (s + t)[1..] == s[1..] + t;
      OddBytesConcat(s[1..], t);
    }
  }

  // ---- counting the bits in which two strings differ ----

  function BitCount(b: byte): nat
    decreases b
  {
    if b == 0 then 0 else (if b & 1 == 1 then 1 else 0) + BitCount(b >> 1)
  }

  function Apart(x: byte, y: byte): nat {
    BitCount(x ^ y)
  }

  function BitsApart(a: seq<byte>, b: seq<byte>): nat
    requires |a| == |b|
  {
    if a == [] then 0 else Apart(a[0], b[0]) + BitsApart(a[1..], b[1..])
  }

  lemma WideHalf(b: byte)
    ensures (b >> 1) as bv32 == Half(b as bv32) && Low(b as bv32) == (b & 1 == 1)
    ensures b != 0 ==> b >> 1 < b
  {
  }

  lemma {:induction false} CountIsOdd(b: byte)
    ensures BitCount(b) % 2 == 1 <==> Odd(b as bv32)
    decreases b
  {
    hide Odd, Low, Half;
    WideHalf(b);
    OddHalf(b as bv32);
    if b == 0 {
      HalfShrinks(0);
    } else {
      CountIsOdd(b >> 1);
    }
  }

  lemma DifferenceIs(x: byte, y: byte)
    ensures (x ^ y) as bv32 == Xor(x as bv32, y as bv32)
  {
  }

  lemma ApartByte(x: byte, y: byte)
    ensures Apart(x, y) % 2 == 1 <==> OddByte(x) != OddByte(y)
  {
    hide Odd, BitCount, Xor;
    CountIsOdd(x ^ y);
    DifferenceIs(x, y);
    OddXor(x as bv32, y as bv32);
  }

  lemma OddSum(m: nat, n: nat)
    ensures (m + n) % 2 == 1 <==> (m % 2 == 1) != (n % 2 == 1)
  {
  }

  lemma {:induction false} ApartIsOdd(a: seq<byte>, b: seq<byte>)
    requires |a| == |b|
    ensures BitsApart(a, b) % 2 == 1 <==> OddBytes(a) != OddBytes(b)
    decreases |a|
  {
    hide OddByte, Odd, Apart;
    if a == [] {
    } else {
      ApartByte(a[0], b[0]);
      ApartIsOdd(a[1..], b[1..]);
      OddSum(Apart(a[0], b[0]), BitsApart(a[1..], b[1..]));
    }
  }

  lemma OddUp(c: bv32)
    requires Clear(c, 0xFF00_0000)
    ensures Odd(Up(c)) == Odd(c)
  {
    hide Odd, Up, Clear, Xor, Crc.Shift;
    UpIsUpper(c);
    ShiftUpper(POLY16, 0, Up(c), 8);
    NothingShifted(8);
    XorZeroLeft(Up(c));
    XorZeroLeft(c);
    OddShift(Up(c), 8);
  }

  lemma {:induction false} NothingShifted(n: nat)
    ensures Shift(POLY16, 0, n) == 0
    decreases n
  {
    if n == 0 {
    } else {
      NothingShifted(n - 1);
    }
  }

  lemma XorZeroLeft(c: bv32)
    ensures Xor(0, c) == c
  {
  }

  // ---- packets ----

  lemma StoredIs(hi: byte, lo: byte)
    ensures Reg16Val(hi, lo) == Xor(Up(hi as bv32), lo as bv32) && Clear(hi as bv32, 0xFF00_0000)
  {
  }

  lemma OddStored(hi: byte, lo: byte)
    ensures Odd(Reg16Val(hi, lo)) == (OddByte(hi) != OddByte(lo))
  {
    hide Odd, Reg16Val, Xor, Up, Clear;
    StoredIs(hi, lo);
    OddUp(hi as bv32);
    OddXor(Up(hi as bv32), lo as bv32);
  }

  /** What passes the check has even parity, length field and check value included. */
  lemma PassesEven(data: seq<byte>)
    requires |data| >= 7
    requires Crc16(data[2..|data| - 2]) == Reg16Val(data[|data| - 2], data[|data| - 1])
    ensures !OddBytes(data[2..])
  {
    var n := |data|;
    hide OddByte, Odd, Reg16Val, Crc16;
    OddCrc16(data[2..n - 2]);
    OddStored(data[n - 2], data[n - 1]);
    TwoBytes(data[n - 2], data[n - 1]);
    assert data[2..] == data[2..n - 2] + [data[n - 2], data[n - 1]];
    OddBytesConcat(data[2..n - 2], [data[n - 2], data[n - 1]]);
  }

  lemma TwoBytes(x: byte, y: byte)
    ensures OddBytes([x, y]) == (OddByte(x) != OddByte(y))
  {
    hide OddByte, Odd;
    assert [x, y][0] == x && [x, y][1..] == [y];
    assert [y][0] == y && [y][1..] == [];
    assert OddBytes([y]) == OddByte(y);
  }

  /** A packet that differs from a good one in an odd number of bits, wherever they lie past the length field, is
    refused. */
  lemma OddCorruptionIsRejected(good: seq<byte>, bad: seq<byte>)
    requires Parse(good).Frame? && Parse(good).consumed == |good|
    requires |bad| == |good| && bad[..4] == good[..4]
    requires BitsApart(good[4..], bad[4..]) % 2 == 1
    ensures Parse(bad).Fail? && Parse(bad).error.CrcFail?
  {
    hide OddByte, Odd, Reg16Val, Crc16, U16Val, OddBytes, BitsApart;
    var n := |good|;
    assert bad[..2] == bad[..4][..2] == good[..4][..2] == good[..2];
    assert bad[2] == bad[..4][2] == good[2] && bad[3] == bad[..4][3] == good[3];
    assert bad[..2] == MAGIC;
    assert U16Val(bad[2], bad[3]) == U16Val(good[2], good[3]) == n - 7;
    ApartIsOdd(good[4..], bad[4..]);
    PassesEven(good);
    assert good[2..4] == good[..4][2..4] == bad[..4][2..4] == bad[2..4];
    assert good[2..] == good[2..4] + good[4..] && bad[2..] == bad[2..4] + bad[4..];
    OddBytesConcat(good[2..4], good[4..]);
    OddBytesConcat(bad[2..4], bad[4..]);
    assert OddBytes(bad[2..]);
    if Crc16(bad[2..n - 2]) == Reg16Val(bad[n - 2], bad[n - 1]) {
      PassesEven(bad);
    }
  }
}
