/** Bytes, machine-width naturals and the big-endian fields that every codec of the firmware shares. */
module Bytes {
  type byte = bv8

  const U16_MAX := 0xFFFF
  const U32_MAX := 0xFFFF_FFFF
  const U64_MAX := 0xFFFF_FFFF_FFFF_FFFF

  type u8 = n: int | 0 <= n < 256
  type u16 = n: int | 0 <= n <= U16_MAX
  type u32 = n: int | 0 <= n <= U32_MAX
  type u64 = n: int | 0 <= n <= U64_MAX

  datatype Option<+T> = None | Some(value: T)

  datatype Result<+T, +E> = Ok(value: T) | Err(error: E)

  /** `saturating_add` on an unsigned integer whose largest value is `max`. */
  function SaturatingAdd(a: nat, b: nat, max: nat): (r: nat)
    requires a <= max
    ensures r <= max && a <= r && (a + b <= max ==> r == a + b) && (a + b > max ==> r == max)
  {
    if a + b <= max then a + b else max
  }

  function Min(a: int, b: int): (r: int)
    ensures r <= a && r <= b && (r == a || r == b)
  {
    if a <= b then a else b
  }

  function Max(a: int, b: int): (r: int)
    ensures a <= r && b <= r && (r == a || r == b)
  {
    if a <= b then b else a
  }

  // ---- one byte ----
  // Values are counted up from zero: casts between bit-vectors and integers stay inside the two lemmas on casts.

  function Count(b: byte): int
    decreases b
  {
    if b == 0 then 0 else Count(b - 1) + 1
  }

  lemma CastSuccessor(b: byte)
    requires b != 0
    ensures b as int == (b - 1) as int + 1
  {
  }

  lemma {:induction false} CountIsCast(b: byte)
    ensures Count(b) == b as int
    decreases b
  {
    if b != 0 {
      CastSuccessor(b);
      CountIsCast(b - 1);
    }
  }

  /** The value of a byte. */
  function Val(b: byte): (n: int)
    ensures 0 <= n < 256
  {
    CountIsCast(b);
    Count(b)
  }

  /** The byte whose value is `n`. */
  function ByteOf(n: int): byte
    requires 0 <= n < 256
    decreases n
  {
    if n == 0 then 0 else ByteOf(n - 1) + 1
  }

  lemma {:induction false} ValOfByte(n: int)
    requires 0 <= n < 256
    ensures Val(ByteOf(n)) == n
    decreases n
  {
    if n == 0 {
    } else {
      ValOfByte(n - 1);
      CountStep(ByteOf(n - 1), n - 1);
    }
  }

  lemma CountStep(b: byte, n: int)
    requires Count(b) == n < 255
    ensures Count(b + 1) == n + 1
  {
    CountIsCast(b);
    assert b != 255;
    assert b + 1 != 0 && (b + 1) - 1 == b;
  }

  lemma {:induction false} ByteOfVal(b: byte)
    ensures ByteOf(Val(b)) == b
    decreases b
  {
    if b != 0 {
      ByteOfVal(b - 1);
    }
  }

  // ---- u16, most significant byte first ----

  function U16Bytes(n: u16): (s: seq<byte>)
    ensures |s| == 2
  {
    [ByteOf(n / 256), ByteOf(n % 256)]
  }

  function U16Val(hi: byte, lo: byte): u16 {
    Val(hi) * 256 + Val(lo)
  }

  lemma U16RoundTrip(n: u16)
    ensures U16Val(U16Bytes(n)[0], U16Bytes(n)[1]) == n
  {
    ValOfByte(n / 256);
    ValOfByte(n % 256);
  }

  lemma U16ValRoundTrip(hi: byte, lo: byte)
    ensures U16Bytes(U16Val(hi, lo)) == [hi, lo]
  {
    HighLow(Val(hi), Val(lo));
    ByteOfVal(hi);
    ByteOfVal(lo);
  }

  lemma HighLow(hi: int, lo: int)
    requires 0 <= hi < 256 && 0 <= lo < 256
    ensures (hi * 256 + lo) / 256 == hi && (hi * 256 + lo) % 256 == lo
  {
  }

  // ---- u32, most significant byte first ----

  function U32Bytes(n: u32): (s: seq<byte>)
    ensures |s| == 4
  {
    U16Bytes(n / 0x1_0000) + U16Bytes(n % 0x1_0000)
  }

  function U32Val(b0: byte, b1: byte, b2: byte, b3: byte): u32 {
    U16Val(b0, b1) * 0x1_0000 + U16Val(b2, b3)
  }

  lemma U32RoundTrip(n: u32)
    ensures var s := U32Bytes(n); U32Val(s[0], s[1], s[2], s[3]) == n
  {
    hide U16Bytes, U16Val;
    U16RoundTrip(n / 0x1_0000);
    U16RoundTrip(n % 0x1_0000);
  }

  lemma U32ValRoundTrip(b0: byte, b1: byte, b2: byte, b3: byte)
    ensures U32Bytes(U32Val(b0, b1, b2, b3)) == [b0, b1, b2, b3]
  {
    hide U16Bytes, U16Val;
    Halves(U16Val(b0, b1), U16Val(b2, b3));
    U16ValRoundTrip(b0, b1);
    U16ValRoundTrip(b2, b3);
  }

  lemma Halves(hi: u16, lo: u16)
    ensures (hi * 0x1_0000 + lo) / 0x1_0000 == hi && (hi * 0x1_0000 + lo) % 0x1_0000 == lo
  {
  }

  // ---- u32 registers, most significant byte first ----

  function Reg32Bytes(c: bv32): (s: seq<byte>)
    ensures |s| == 4
  {
    [(c >> 24) as byte, ((c >> 16) & 0xFF) as byte, ((c >> 8) & 0xFF) as byte, (c & 0xFF) as byte]
  }

  function Reg32Val(b0: byte, b1: byte, b2: byte, b3: byte): bv32 {
    ((b0 as bv32) << 24) | ((b1 as bv32) << 16) | ((b2 as bv32) << 8) | (b3 as bv32)
  }

  lemma Reg32RoundTrip(c: bv32)
    ensures var s := Reg32Bytes(c); Reg32Val(s[0], s[1], s[2], s[3]) == c
  {
  }

  lemma Reg32ValRoundTrip(b0: byte, b1: byte, b2: byte, b3: byte)
    ensures Reg32Bytes(Reg32Val(b0, b1, b2, b3)) == [b0, b1, b2, b3]
  {
  }
}
