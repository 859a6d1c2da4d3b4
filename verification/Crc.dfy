/** The two cyclic redundancy checks of the firmware, as the bit recurrences of their standards:
  CRC-32/ISO-HDLC (section 8 of RFC 1952) and CRC-16/IBM-SDLC (section C.2 of RFC 1662).
  Both are reflected: the register shifts right, and the reflected polynomial has the register's
  top bit set, which is what makes every step reversible. The 16-bit register is kept in the low
  half of a 32-bit word, so that one set of lemmas serves both. */
module Crc {
  import opened Bytes

  const POLY32: bv32 := 0xEDB8_8320
  const POLY16: bv32 := 0x8408

  type Poly = p: bv32 | p == POLY32 || p == POLY16 witness POLY32

  /** The all-ones register: the start value, the final mask and the range of the register. */
  function Ones(p: Poly): bv32 {
    if p == POLY32 then 0xFFFF_FFFF else 0xFFFF
  }

  /** The number of whole bytes a register holds. */
  function Width(p: Poly): nat {
    if p == POLY32 then 4 else 2
  }

  function Bit(p: bv32, c: bv32): bv32 {
    if c & 1 == 1 then (c >> 1) ^ p else c >> 1
  }

  /** `n` bit steps. */
  function Shift(p: bv32, c: bv32, n: nat): bv32
    decreases n
  {
    if n == 0 then c else Shift(p, Bit(p, c), n - 1)
  }

  /** A byte enters at the low end of the register. */
  function Mix(c: bv32, x: byte): bv32 {
    c ^ (x as bv32)
  }

  function Feed(p: bv32, c: bv32, s: seq<byte>, n: nat): bv32
    decreases |s|
  {
    if s == [] then c else Feed(p, Shift(p, Mix(c, s[0]), n), s[1..], n)
  }

  function Crc(p: Poly, s: seq<byte>): bv32 {
    Xor(Feed(p, Ones(p), s, 8), Ones(p))
  }

  function Crc32(s: seq<byte>): bv32 {
    Crc(POLY32, s)
  }

  function Crc16(s: seq<byte>): bv32 {
    Crc(POLY16, s)
  }

  // ---- the register stays in its range ----

  predicate Fits(p: Poly, c: bv32) {
    c & Ones(p) == c
  }

  lemma Bit16Fits(c: bv32)
    requires c & 0xFFFF == c
    ensures Bit(0x8408, c) & 0xFFFF == Bit(0x8408, c)
  {
  }

  lemma OnesKeepsAll(c: bv32)
    ensures c & 0xFFFF_FFFF == c
  {
  }

  lemma BitFits(p: Poly, c: bv32)
    requires Fits(p, c)
    ensures Fits(p, Bit(p, c))
  {
    hide Fits, Bit;
    if p == POLY16 {
      Fits16(c);
      Fits16(Bit(POLY16, c));
      Bit16Fits(c);
    } else {
      Keeps32(Bit(p, c));
    }
  }

  lemma {:induction false} ShiftFits(p: Poly, c: bv32, n: nat)
    requires Fits(p, c)
    ensures Fits(p, Shift(p, c, n))
    decreases n
  {
    if n == 0 {
    } else {
      BitFits(p, c);
      ShiftFits(p, Bit(p, c), n - 1);
    }
  }

  lemma MixFits(p: Poly, c: bv32, x: byte)
    requires Fits(p, c)
    ensures Fits(p, Mix(c, x))
  {
  }

  lemma {:induction false} FeedFits(p: Poly, c: bv32, s: seq<byte>, n: nat)
    requires Fits(p, c)
    ensures Fits(p, Feed(p, c, s, n))
    decreases |s|
  {
    if s == [] {
    } else {
      MixFits(p, c, s[0]);
      ShiftFits(p, Mix(c, s[0]), n);
      FeedFits(p, Shift(p, Mix(c, s[0]), n), s[1..], n);
    }
  }

  // ---- reversibility: the register never forgets a difference ----

  lemma Bit32Injective(a: bv32, b: bv32)
    requires Bit(0xEDB8_8320, a) == Bit(0xEDB8_8320, b)
    ensures a == b
  {
  }

  lemma Bit16Injective(a: bv32, b: bv32)
    requires a & 0xFFFF == a && b & 0xFFFF == b
    requires Bit(0x8408, a) == Bit(0x8408, b)
    ensures a == b
  {
  }

  lemma {:induction false} ShiftInjective(p: Poly, a: bv32, b: bv32, n: nat)
    requires Fits(p, a) && Fits(p, b) && Shift(p, a, n) == Shift(p, b, n)
    ensures a == b
    decreases n
  {
    if n == 0 {
    } else {
      BitFits(p, a);
      BitFits(p, b);
      ShiftInjective(p, Bit(p, a), Bit(p, b), n - 1);
      if p == POLY32 {
        Bit32Injective(a, b);
      } else {
        Bit16Injective(a, b);
      }
    }
  }

  lemma MixInjective(a: bv32, b: bv32, x: byte)
    requires Mix(a, x) == Mix(b, x)
    ensures a == b
  {
  }

  /** Feeding the same bytes never merges two registers. */
  lemma {:induction false} FeedInjective(p: Poly, a: bv32, b: bv32, s: seq<byte>, n: nat)
    requires Fits(p, a) && Fits(p, b) && Feed(p, a, s, n) == Feed(p, b, s, n)
    ensures a == b
    decreases |s|
  {
    if s == [] {
    } else {
      var ma, mb := Mix(a, s[0]), Mix(b, s[0]);
      MixFits(p, a, s[0]);
      MixFits(p, b, s[0]);
      ShiftFits(p, ma, n);
      ShiftFits(p, mb, n);
      FeedInjective(p, Shift(p, ma, n), Shift(p, mb, n), s[1..], n);
      ShiftInjective(p, ma, mb, n);
      MixInjective(a, b, s[0]);
    }
  }

  // ---- a register takes in as many bytes as it is wide without losing one ----

  /** The low `n` bits of `z` are zero. */
  predicate LowClear(z: bv32, n: nat)
    decreases n
  {
    n == 0 || (z & 1 == 0 && LowClear(Half(z), n - 1))
  }

  function Drop(z: bv32, n: nat): bv32
    decreases n
  {
    if n == 0 then z else Drop(Half(z), n - 1)
  }

  function Half(z: bv32): bv32 {
    z >> 1
  }

  function Xor(a: bv32, b: bv32): bv32 {
    a ^ b
  }

  lemma BitUpper(p: bv32, c: bv32, z: bv32)
    requires z & 1 == 0
    ensures Bit(p, c ^ z) == Bit(p, c) ^ (z >> 1)
  {
  }

  lemma BitXor(p: bv32, c: bv32, z: bv32)
    requires z & 1 == 0
    ensures Bit(p, Xor(c, z)) == Xor(Bit(p, c), Half(z))
  {
    BitUpper(p, c, z);
  }

  /** Bits above the ones being shifted out move down unchanged. */
  lemma {:induction false} ShiftUpper(p: bv32, c: bv32, z: bv32, n: nat)
    requires LowClear(z, n)
    ensures Shift(p, Xor(c, z), n) == Xor(Shift(p, c, n), Drop(z, n))
    decreases n
  {
    if n == 0 {
    } else {
      BitXor(p, c, z);
      ShiftUpper(p, Bit(p, c), Half(z), n - 1);
    }
  }

  /** The word a run of bytes makes in the register, the first byte lowest. */
  function Word(s: seq<byte>): bv32
    decreases |s|
  {
    if s == [] then 0 else Mix(Up(Word(s[1..])), s[0])
  }

  function Up(y: bv32): bv32 {
    y << 8
  }

  lemma UpIsUpper(y: bv32)
    requires Clear(y, 0xFF00_0000)
    ensures LowClear(Up(y), 8) && Drop(Up(y), 8) == y
  {
  }

  /** Eight bit steps, `n` times. */
  function Rounds(p: bv32, c: bv32, n: nat): bv32
    decreases n
  {
    if n == 0 then c else Rounds(p, Shift(p, c, 8), n - 1)
  }

  predicate Clear(y: bv32, mask: bv32) {
    y & mask == 0
  }

  function Not(mask: bv32): bv32 {
    mask ^ 0xFFFF_FFFF
  }

  /** The bits above the lowest `n` bytes. */
  function High(n: nat): bv32
    requires n <= 4
  {
    match n
    case 0 => 0xFFFF_FFFF
    case 1 => 0xFFFF_FF00
    case 2 => 0xFFFF_0000
    case 3 => 0xFF00_0000
    case 4 => 0
  }

  function Below(y: bv32, n: nat): bool
    requires n <= 4
  {
    Clear(y, High(n))
  }

  lemma HighMoves(n: nat)
    requires n < 4
    ensures High(n + 1) == Up(High(n)) && Clear(0xFF00_0000, Not(High(n)))
  {
  }

  lemma ByteIsLow(x: byte)
    ensures (x as bv32) & 0xFFFF_FF00 == 0
  {
  }

  lemma MaskMoves(y: bv32, x: bv32, mask: bv32)
    requires y & mask == 0 && x & 0xFFFF_FF00 == 0
    ensures ((y << 8) ^ x) & (mask << 8) == 0
  {
  }

  lemma MixesClear(y: bv32, x: byte, mask: bv32)
    requires Clear(y, mask)
    ensures Clear(Mix(Up(y), x), Up(mask))
  {
    ByteIsLow(x);
    MaskMoves(y, x as bv32, mask);
  }

  lemma ClearAbove(y: bv32, mask: bv32)
    requires Clear(y, mask) && Clear(0xFF00_0000, Not(mask))
    ensures Clear(y, 0xFF00_0000)
  {
  }

  lemma UpBelow(y: bv32, x: byte, n: nat)
    requires n < 4 && Below(y, n)
    ensures Clear(y, 0xFF00_0000)
    ensures Below(Mix(Up(y), x), n + 1)
  {
    hide Clear, High, Up, Mix, Not;
    HighMoves(n);
    ClearAbove(y, High(n));
    MixesClear(y, x, High(n));
  }

  lemma {:induction false} WordBelow(s: seq<byte>)
    requires |s| <= 4
    ensures Below(Word(s), |s|)
    decreases |s|
  {
    if s == [] {
    } else {
      WordBelow(s[1..]);
      UpBelow(Word(s[1..]), s[0], |s| - 1);
    }
  }

  lemma MixXor(c: bv32, y: bv32, x: byte)
    ensures Xor(Mix(c, x), Up(y)) == Xor(c, Mix(Up(y), x))
  {
    hide Up;
    XorShuffles(c, x as bv32, Up(y));
  }

  lemma XorShuffles(a: bv32, b: bv32, c: bv32)
    ensures (a ^ b) ^ c == a ^ (c ^ b)
  {
  }

  lemma XorZero(c: bv32)
    ensures Xor(c, 0) == c
  {
  }

  /** Feeding up to four bytes is one word into the register followed by the bit steps of them all. */
  lemma {:induction false} FeedWord(p: bv32, c: bv32, s: seq<byte>)
    requires |s| <= 4
    ensures Feed(p, c, s, 8) == Rounds(p, Xor(c, Word(s)), |s|)
    decreases |s|
  {
    if s == [] {
      XorZero(c);
    } else {
      var y := Word(s[1..]);
      var m := Mix(c, s[0]);
      WordBelow(s[1..]);
      UpBelow(y, s[0], |s| - 1);
      UpIsUpper(y);
      ShiftUpper(p, m, Up(y), 8);
      MixXor(c, y, s[0]);
      FeedWord(p, Shift(p, m, 8), s[1..]);
    }
  }

  lemma XorFits(p: Poly, c: bv32, y: bv32)
    requires Fits(p, c) && Below(y, Width(p))
    ensures Fits(p, Xor(c, y))
  {
    hide Xor, Below, Fits;
    if p == POLY16 {
      Xor16Fits(c, y);
    } else {
      Keeps32(Xor(c, y));
    }
  }

  lemma Xor16Fits(c: bv32, y: bv32)
    requires Fits(POLY16, c) && Below(y, 2)
    ensures Fits(POLY16, Xor(c, y))
  {
    hide *;
    Fits16(c);
    Fits16(Xor(c, y));
    Below2(y);
    XorStaysLow(c, y);
  }

  lemma Fits16(c: bv32)
    ensures Fits(POLY16, c) <==> c & 0xFFFF == c
  {
  }

  lemma Below2(y: bv32)
    ensures Below(y, 2) <==> y & 0xFFFF_0000 == 0
  {
  }

  lemma XorStaysLow(c: bv32, y: bv32)
    requires c & 0xFFFF == c && y & 0xFFFF_0000 == 0
    ensures Xor(c, y) & 0xFFFF == Xor(c, y)
  {
  }

  lemma Keeps32(c: bv32)
    ensures Fits(POLY32, c)
  {
    OnesKeepsAll(c);
  }

  lemma {:induction false} RoundsInjective(p: Poly, a: bv32, b: bv32, n: nat)
    requires Fits(p, a) && Fits(p, b) && Rounds(p, a, n) == Rounds(p, b, n)
    ensures a == b
    decreases n
  {
    if n == 0 {
    } else {
      ShiftFits(p, a, 8);
      ShiftFits(p, b, 8);
      RoundsInjective(p, Shift(p, a, 8), Shift(p, b, 8), n - 1);
      ShiftInjective(p, a, b, 8);
    }
  }

  lemma UpInjective(y: bv32, z: bv32, x: byte, w: byte)
    requires y & 0xFF00_0000 == 0 && z & 0xFF00_0000 == 0
    requires Mix(Up(y), x) == Mix(Up(z), w)
    ensures y == z && x == w
  {
  }

  lemma LiftInjective(y: bv32, z: bv32, x: byte, w: byte, n: nat)
    requires n < 4 && Below(y, n) && Below(z, n)
    requires Mix(Up(y), x) == Mix(Up(z), w)
    ensures y == z && x == w
  {
    UpBelow(y, x, n);
    UpBelow(z, w, n);
    UpInjective(y, z, x, w);
  }

  lemma {:induction false} WordInjective(s: seq<byte>, t: seq<byte>)
    requires |s| == |t| <= 4 && Word(s) == Word(t)
    ensures s == t
    decreases |s|
  {
    if s == [] {
    } else {
      WordBelow(s[1..]);
      WordBelow(t[1..]);
      LiftInjective(Word(s[1..]), Word(t[1..]), s[0], t[0], |s| - 1);
      WordInjective(s[1..], t[1..]);
      HeadAndTail(s, t);
    }
  }

  lemma HeadAndTail(s: seq<byte>, t: seq<byte>)
    requires |s| == |t| > 0 && s[0] == t[0] && s[1..] == t[1..]
    ensures s == t
  {
    assert s == [s[0]] + s[1..] && t == [t[0]] + t[1..];
  }

  lemma XorInjective(c: bv32, y: bv32, z: bv32)
    requires Xor(c, y) == Xor(c, z)
    ensures y == z
  {
  }

  lemma BelowWider(y: bv32, n: nat, m: nat)
    requires n <= m <= 4 && Below(y, n)
    ensures Below(y, m)
  {
  }

  /** From one register, two different runs of at most a register's width end apart. */
  lemma FeedSeparates(p: Poly, c: bv32, s: seq<byte>, t: seq<byte>)
    requires Fits(p, c) && |s| == |t| <= Width(p) && s != t
    ensures Feed(p, c, s, 8) != Feed(p, c, t, 8)
  {
    if Feed(p, c, s, 8) == Feed(p, c, t, 8) {
      FeedWord(p, c, s);
      FeedWord(p, c, t);
      WordBelow(s);
      WordBelow(t);
      BelowWider(Word(s), |s|, Width(p));
      BelowWider(Word(t), |t|, Width(p));
      XorFits(p, c, Word(s));
      XorFits(p, c, Word(t));
      RoundsInjective(p, Xor(c, Word(s)), Xor(c, Word(t)), |s|);
      XorInjective(c, Word(s), Word(t));
      WordInjective(s, t);
    }
  }

  lemma {:induction false} FeedConcat(p: bv32, c: bv32, s: seq<byte>, t: seq<byte>, n: nat)
    ensures Feed(p, c, s + t, n) == Feed(p, Feed(p, c, s, n), t, n)
    decreases |s|
  {
    if s == [] {
      assert s + t == t;
    } else {
      assert (s + t)[0] == s[0] && (s + t)[1..] == s[1..] + t;
      FeedConcat(p, Shift(p, Mix(c, s[0]), n), s[1..], t, n);
    }
  }

  /** Two byte strings that differ, but only inside one window. */
  ghost predicate DifferOnlyIn(a: seq<byte>, b: seq<byte>, i: nat, w: nat) {
    |a| == |b| && a != b && forall k :: 0 <= k < |a| && !(i <= k < i + w) ==> a[k] == b[k]
  }

  /** The same bytes around two different short runs do not hide the difference. */
  lemma FeedAround(p: Poly, c: bv32, head: seq<byte>, s: seq<byte>, t: seq<byte>, tail: seq<byte>)
    requires Fits(p, c) && |s| == |t| <= Width(p) && s != t
    ensures Feed(p, c, head + (s + tail), 8) != Feed(p, c, head + (t + tail), 8)
  {
    var d := Feed(p, c, head, 8);
    FeedConcat(p, c, head, s + tail, 8);
    FeedConcat(p, c, head, t + tail, 8);
    FeedConcat(p, d, s, tail, 8);
    FeedConcat(p, d, t, tail, 8);
    FeedFits(p, c, head, 8);
    FeedFits(p, d, s, 8);
    FeedFits(p, d, t, 8);
    FeedSeparates(p, d, s, t);
    if Feed(p, Feed(p, d, s, 8), tail, 8) == Feed(p, Feed(p, d, t, 8), tail, 8) {
      FeedInjective(p, Feed(p, d, s, 8), Feed(p, d, t, 8), tail, 8);
    }
  }

  /** The error-detection theorem: a corruption confined to a window no wider than the register
    always changes the check value. A corrupted single byte is the window of width one. */
  lemma DetectsBurst(p: Poly, a: seq<byte>, b: seq<byte>, i: nat, w: nat)
    requires w <= Width(p) && DifferOnlyIn(a, b, i, w)
    ensures Crc(p, a) != Crc(p, b)
  {
    var lo, hi := Min(i, |a|), Min(i + w, |a|);
    assert b[..lo] == a[..lo] && b[hi..] == a[hi..];
    assert a == a[..lo] + (a[lo..hi] + a[hi..]) && b == a[..lo] + (b[lo..hi] + a[hi..]);
    OnesFits(p);
    FeedAround(p, Ones(p), a[..lo], a[lo..hi], b[lo..hi], a[hi..]);
    XorDiffers(Feed(p, Ones(p), a, 8), Feed(p, Ones(p), b, 8), Ones(p));
  }

  lemma OnesFits(p: Poly)
    ensures Fits(p, Ones(p))
  {
  }

  lemma XorDiffers(a: bv32, b: bv32, m: bv32)
    requires a != b
    ensures a ^ m != b ^ m
  {
  }

  /** The check value of a 16-bit code has only 16 bits. */
  lemma Crc16Fits(s: seq<byte>)
    ensures Crc16(s) & 0xFFFF_0000 == 0
  {
    OnesFits(POLY16);
    FeedFits(POLY16, Ones(POLY16), s, 8);
    LowHalf(Feed(POLY16, Ones(POLY16), s, 8));
  }

  lemma LowHalf(c: bv32)
    requires c & 0xFFFF == c
    ensures (c ^ 0xFFFF) & 0xFFFF_0000 == 0
  {
  }

  // ---- the last byte and the 16-bit check ----

  lemma HalvesXor(a: bv32, b: bv32)
    ensures (a >> 1) ^ (b >> 1) == (a ^ b) >> 1
  {
  }

  lemma LowBitsXor(a: bv32, b: bv32)
    ensures (a ^ b) & 1 == 1 <==> (a & 1 == 1) != (b & 1 == 1)
  {
  }

  lemma Cancels(x: bv32, y: bv32, p: bv32)
    ensures (x ^ p) ^ y == (x ^ y) ^ p && x ^ (y ^ p) == (x ^ y) ^ p && (x ^ p) ^ (y ^ p) == x ^ y
  {
  }

  /** A bit step is linear. */
  lemma BitLinear(a: bv32, b: bv32)
    ensures Xor(Bit(POLY16, a), Bit(POLY16, b)) == Bit(POLY16, Xor(a, b))
  {
    HalvesXor(a, b);
    LowBitsXor(a, b);
    Cancels(a >> 1, b >> 1, POLY16);
  }

  lemma {:induction false} ShiftLinear(a: bv32, b: bv32, n: nat)
    ensures Xor(Shift(POLY16, a, n), Shift(POLY16, b, n)) == Shift(POLY16, Xor(a, b), n)
    decreases n
  {
    if n == 0 {
    } else {
      BitLinear(a, b);
      hide Bit;
      ShiftLinear(Bit(POLY16, a), Bit(POLY16, b), n - 1);
    }
  }

  function Eight(c: bv32): bv32 {
    Bit(POLY16, Bit(POLY16, Bit(POLY16, Bit(POLY16, Bit(POLY16, Bit(POLY16, Bit(POLY16, Bit(POLY16, c))))))))
  }

  lemma EightSteps(c: bv32)
    ensures Shift(POLY16, c, 8) == Eight(c)
  {
    hide Bit;
  }

  /** The one nonzero byte that eight steps turn into a register whose low byte is clear. */
  lemma OnlyNinetyOne(d: byte, e: byte)
    ensures Shift(POLY16, d as bv32, 8) == (e as bv32) << 8 <==> (d == 0 && e == 0) || (d == 0x91 && e == 0x85)
  {
    EightSteps(d as bv32);
  }

  /** How two bytes differ, in the low end of a register. */
  function Difference(x: byte, y: byte): bv32 {
    (x ^ y) as bv32
  }

  lemma SeamPattern(x: byte, y: byte, hi: byte, hi': byte)
    ensures Shift(POLY16, Difference(x, y), 8) == Up(Difference(hi, hi'))
       <==> (x == y && hi == hi') || (x ^ y == 0x91 && hi ^ hi' == 0x85)
  {
    EqualBytes(x, y);
    EqualBytes(hi, hi');
    OnlyNinetyOne(x ^ y, hi ^ hi');
    hide Shift;
  }

  lemma EqualBytes(a: byte, b: byte)
    ensures a ^ b == 0 <==> a == b
  {
  }

  lemma MixDiffers(r: bv32, x: byte, y: byte)
    ensures Xor(Mix(r, x), Mix(r, y)) == Difference(x, y)
  {
  }

  lemma XorAssociates(a: bv32, b: bv32, c: bv32)
    ensures Xor(Xor(a, b), c) == Xor(a, Xor(b, c))
  {
    Associates(a, b, c);
  }

  lemma Associates(a: bv32, b: bv32, c: bv32)
    ensures (a ^ b) ^ c == a ^ (b ^ c)
  {
  }

  lemma XorTwice(b: bv32, m: bv32)
    ensures Xor(m, Xor(b, m)) == b
  {
  }

  lemma MaskedDiffers(a: bv32, b: bv32, m: bv32)
    ensures Xor(Xor(a, m), Xor(b, m)) == Xor(a, b)
  {
    hide Xor;
    XorAssociates(a, m, Xor(b, m));
    XorTwice(b, m);
  }

  lemma LastByteFed(s: seq<byte>, x: byte)
    ensures Crc16(s + [x]) == Xor(Shift(POLY16, Mix(Feed(POLY16, Ones(POLY16), s, 8), x), 8), Ones(POLY16))
  {
    hide Shift, Mix;
    FeedConcat(POLY16, Ones(POLY16), s, [x], 8);
    assert [x][1..] == [];
  }

  /** How the 16-bit check of two strings that differ in the last byte differs. */
  lemma LastByteDiffers(s: seq<byte>, x: byte, y: byte)
    ensures Xor(Crc16(s + [x]), Crc16(s + [y])) == Shift(POLY16, Difference(x, y), 8)
  {
    var r := Feed(POLY16, Ones(POLY16), s, 8);
    hide Feed, Shift, Mix, Xor, Ones, Crc16, Difference;
    LastByteFed(s, x);
    LastByteFed(s, y);
    MaskedDiffers(Shift(POLY16, Mix(r, x), 8), Shift(POLY16, Mix(r, y), 8), Ones(POLY16));
    ShiftLinear(Mix(r, x), Mix(r, y), 8);
    MixDiffers(r, x, y);
  }
}
