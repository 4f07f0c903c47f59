/** The Dallas CRC-8 of the 1-Wire library, over the field with two elements. */
module Crc8 {
  import opened Gf2

  /** One data bit, least significant first: shift right, feed back 0x8C when the low bits differ. */
  function BitStep(crc: bv8, data: bv8): bv8 {
    if (crc ^ data) & 1 == 1 then (((crc ^ 0x18) >> 1) & 0x7F) | 0x80 else (crc >> 1) & 0x7F
  }

  /** `n` data bits. */
  function Bits(crc: bv8, data: bv8, n: nat): bv8
    decreases n
  {
    if n == 0 then crc else Bits(BitStep(crc, data), data >> 1, n - 1)
  }

  function BitsPerByte(): nat { 8 }

  function Byte(crc: bv8, data: bv8): bv8 { Bits(crc, data, BitsPerByte()) }

  function Crc(crc: bv8, m: seq<bv8>): bv8
    decreases |m|
  {
    if m == [] then crc else Crc(Byte(crc, m[0]), m[1..])
  }

  function Xor(a: seq<bv8>, b: seq<bv8>): (c: seq<bv8>)
    requires |a| == |b|
    ensures |c| == |a|
  {
    seq(|a|, i requires 0 <= i < |a| => Plus(a[i], b[i]))
  }

  lemma {:induction false} CrcAppend(crc: bv8, a: seq<bv8>, b: seq<bv8>)
    ensures Crc(crc, a + b) == Crc(Crc(crc, a), b)
    decreases |a|
  {
    if a == [] {
      assert a + b == b;
    } else {
      assert (a + b)[1..] == a[1..] + b;
      CrcAppend(Byte(crc, a[0]), a[1..], b);
    }
  }

  lemma CrcSnoc(m: seq<bv8>, x: bv8)
    ensures Crc(0, m + [x]) == Byte(Crc(0, m), x)
  {
    hide Bits;
    CrcAppend(0, m, [x]);
  }

  /** The inner loop of crc8: one byte, bit by bit. */
  method FeedByte(before: bv8, byte: bv8) returns (crc: bv8)
    ensures crc == Byte(before, byte)
  {
    crc := before;
    var data := byte;
    var bitCounter := BitsPerByte();
    while true
      invariant 1 <= bitCounter <= 8
      invariant Bits(crc, data, bitCounter) == Byte(before, byte)
      decreases bitCounter
    {
      var feedback := (crc ^ data) & 0x01;
      if feedback == 0x01 {
        crc := crc ^ 0x18;
      }
      crc := (crc >> 1) & 0x7F;
      if feedback == 0x01 {
        crc := crc | 0x80;
      }
      data := data >> 1;
      bitCounter := bitCounter - 1;
      if bitCounter == 0 {
        break;
      }
    }
  }

  // ---------------------------------------------------------------- division of polynomials

  function BitMask(k: nat): bv8 {
    if k == 0 then 0x01 else if k == 1 then 0x02 else if k == 2 then 0x04 else if k == 3 then 0x08
    else if k == 4 then 0x10 else if k == 5 then 0x20 else if k == 6 then 0x40 else 0x80
  }

  /** Bit `k` of a byte, bit 0 being sent first. */
  predicate Bit(b: bv8, k: nat) { b & BitMask(k) != 0 }

  /** x^8 + x^5 + x^4 + 1. */
  const G: Poly := [true, false, false, false, true, true, false, false, true]

  function ByteBits(b: bv8): (s: seq<bool>)
    ensures |s| == 8 && forall k: nat | k < 8 :: s[k] == Bit(b, k)
  {
    seq(8, k requires 0 <= k < 8 => Bit(b, k))
  }

  /** A message in transmission order. */
  function BitsOf(m: seq<bv8>): (s: seq<bool>)
    ensures |s| == 8 * |m|
    decreases |m|
  {
    if m == [] then [] else BitsOf(m[..|m| - 1]) + ByteBits(m[|m| - 1])
  }

  /** The bit sent first is the coefficient of the highest power. */
  function AsPoly(s: seq<bool>): (p: Poly)
    ensures |p| == |s|
  {
    seq(|s|, i requires 0 <= i < |s| => s[|s| - 1 - i])
  }

  /** `c`, sent lowest bit first like data, is the remainder of m(x) x^8 by x^8 + x^5 + x^4 + 1. */
  ghost predicate IsCrc(m: seq<bv8>, c: bv8) { Remainder(Shift(AsPoly(BitsOf(m)), 8), G, AsPoly(ByteBits(c))) }

  /** The register after single bits. */
  function Fed(crc: bv8, s: seq<bool>): bv8
    decreases |s|
  {
    if s == [] then crc else BitStep(Fed(crc, s[..|s| - 1]), if s[|s| - 1] then 1 else 0)
  }

  lemma RegisterBit(c: bv8, k: nat)
    requires k < 8
    ensures Coef(AsPoly(ByteBits(c)), k) == Bit(c, 7 - k)
    ensures forall i: nat | 8 <= i :: !Coef(AsPoly(ByteBits(c)), i)
  {
  }

  /** One step shifts the register and subtracts the divisor if its highest power appears. */
  lemma StepBits(c: bv8, d: bool)
    ensures var e, f := BitStep(c, if d then 1 else 0), Bit(c, 0) != d;
            && Bit(e, 7) == f && Bit(e, 6) == Bit(c, 7) && Bit(e, 5) == Bit(c, 6) && Bit(e, 4) == Bit(c, 5)
            && Bit(e, 3) == (Bit(c, 4) != f) && Bit(e, 2) == (Bit(c, 3) != f) && Bit(e, 1) == Bit(c, 2) && Bit(e, 0) == Bit(c, 1)
  {
  }

  lemma PowersOfG(i: nat)
    ensures Coef(G, i) <==> i == 0 || i == 4 || i == 5 || i == 8
  {
  }

  lemma StepDivides(c: bv8, d: bool, i: nat)
    ensures var e, f := BitStep(c, if d then 1 else 0), Bit(c, 0) != d;
            ((i > 0 && Coef(AsPoly(ByteBits(c)), i - 1)) != (i == 8 && d)) == ((f && Coef(G, i)) != Coef(AsPoly(ByteBits(e)), i))
  {
    hide BitStep;
    hide Bit;
    hide ByteBits;
    hide AsPoly;
    StepBits(c, d);
    PowersOfG(i);
    var e := BitStep(c, if d then 1 else 0);
    RegisterBit(e, if i < 8 then i else 0);
    RegisterBit(c, if 0 < i <= 8 then i - 1 else 0);
  }

  lemma {:induction false} FedDivides(s: seq<bool>)
    ensures Remainder(Shift(AsPoly(s), 8), G, AsPoly(ByteBits(Fed(0, s))))
    decreases |s|
  {
    hide BitStep;
    hide Bit;
    hide ByteBits;
    hide AsPoly;
    hide Product;
    hide Shift;
    hide Sum;
    hide Same;
    if s == [] {
      NothingFed();
    } else {
      var t, d := s[..|s| - 1], s[|s| - 1];
      var c := Fed(0, t);
      FedDivides(t);
      var q: Poly :| Same(Shift(AsPoly(t), 8), Sum(Product(q, G), AsPoly(ByteBits(c))));
      NextQuotient(s, q, c);
    }
  }

  lemma NextQuotient(s: seq<bool>, q: Poly, c: bv8)
    requires s != [] && Same(Shift(AsPoly(s[..|s| - 1]), 8), Sum(Product(q, G), AsPoly(ByteBits(c))))
    ensures var d := s[|s| - 1];
            Same(Shift(AsPoly(s), 8), Sum(Product([Bit(c, 0) != d] + q, G), AsPoly(ByteBits(BitStep(c, if d then 1 else 0)))))
  {
    hide BitStep;
    hide Bit;
    hide ByteBits;
    hide Product;
    var t, d := s[..|s| - 1], s[|s| - 1];
    var f, e := Bit(c, 0) != d, BitStep(c, if d then 1 else 0);
    forall i: nat ensures Coef(Shift(AsPoly(s), 8), i) == Coef(Sum(Product([f] + q, G), AsPoly(ByteBits(e))), i) {
      StepDivides(c, d, i);
      ProductCoef(f, q, G, i);
      if i > 0 {
        assert Coef(Shift(AsPoly(t), 8), i - 1) == Coef(Sum(Product(q, G), AsPoly(ByteBits(c))), i - 1);
      }
    }
  }

  lemma NothingFed()
    ensures Remainder(Shift(AsPoly([]), 8), G, AsPoly(ByteBits(Fed(0, []))))
  {
    forall i: nat ensures !Coef(AsPoly(ByteBits(0)), i) {
      RegisterBit(0, if i < 8 then i else 0);
    }
    assert Same(Shift(AsPoly([]), 8), Sum(Product([], G), AsPoly(ByteBits(0))));
  }

  lemma {:induction false} FedAppend(c: bv8, s: seq<bool>, t: seq<bool>)
    ensures Fed(c, s + t) == Fed(Fed(c, s), t)
    decreases |t|
  {
    hide BitStep;
    if t == [] {
      assert s + t == s;
    } else {
      assert (s + t)[..|s + t| - 1] == s + t[..|t| - 1];
      FedAppend(c, s, t[..|t| - 1]);
    }
  }

  lemma LowBitFed(c: bv8, data: bv8)
    ensures BitStep(c, data) == BitStep(c, if Bit(data, 0) then 1 else 0)
  {
  }

  lemma ShiftedBits(data: bv8, k: nat)
    requires k < 7
    ensures Bit(data >> 1, k) == Bit(data, k + 1)
  {
  }

  lemma BitsSplit(data: bv8, n: nat)
    requires 0 < n <= 8
    ensures ByteBits(data)[..n] == [Bit(data, 0)] + ByteBits(data >> 1)[..n - 1]
  {
    hide Bit;
    hide ByteBits;
    var x, rest := ByteBits(data)[..n], ByteBits(data >> 1)[..n - 1];
    forall k: nat | k < n - 1 ensures rest[k] == x[k + 1] {
      ShiftedBits(data, k);
    }
  }

  lemma OneFed(c: bv8, b: bool)
    ensures Fed(c, [b]) == BitStep(c, if b then 1 else 0)
  {
    assert [b][..0] == [];
  }

  /** Feeding a byte is feeding its bits, lowest first. */
  lemma {:induction false} BitsAreFed(crc: bv8, data: bv8, n: nat)
    requires n <= 8
    ensures Bits(crc, data, n) == Fed(crc, ByteBits(data)[..n])
    decreases n
  {
    hide Bit;
    hide BitStep;
    hide ByteBits;
    if n > 0 {
      LowBitFed(crc, data);
      BitsAreFed(BitStep(crc, data), data >> 1, n - 1);
      BitsSplit(data, n);
      OneFed(crc, Bit(data, 0));
      FedAppend(crc, [Bit(data, 0)], ByteBits(data >> 1)[..n - 1]);
    }
  }

  lemma {:induction false} CrcIsFed(m: seq<bv8>)
    ensures Crc(0, m) == Fed(0, BitsOf(m))
    decreases |m|
  {
    hide Bits;
    hide ByteBits;
    hide BitStep;
    if m != [] {
      var t, b := m[..|m| - 1], m[|m| - 1];
      assert m == t + [b];
      CrcSnoc(t, b);
      CrcIsFed(t);
      BitsAreFed(Fed(0, BitsOf(t)), b, BitsPerByte());
      assert ByteBits(b)[..8] == ByteBits(b);
      FedAppend(0, BitsOf(t), ByteBits(b));
    }
  }

  /** The register ends as the remainder, and nothing else is. */
  lemma CrcIsRemainder(m: seq<bv8>, c: bv8)
    ensures c == Crc(0, m) <==> IsCrc(m, c)
  {
    hide Bit;
    hide Fed;
    hide Crc;
    CrcIsFed(m);
    FedDivides(BitsOf(m));
    var r := Crc(0, m);
    if IsCrc(m, c) {
      RemainderUnique(Shift(AsPoly(BitsOf(m)), 8), G, 8, AsPoly(ByteBits(c)), AsPoly(ByteBits(r)));
      forall k: nat | k < 8 ensures Bit(c, k) == Bit(r, k) {
        assert Coef(AsPoly(ByteBits(c)), 7 - k) == Coef(AsPoly(ByteBits(r)), 7 - k);
        RegisterBit(c, 7 - k);
        RegisterBit(r, 7 - k);
      }
      SameBits(c, r);
    }
  }

  /** Known values: a single bit, and the ROM code of Maxim's application note 27. */
  lemma KnownCrcs()
    ensures Crc(0, [0x01]) == 0x5e && Crc(0, [0x02, 0x1c, 0xb8, 0x01, 0, 0, 0]) == 0xa2
  {
    hide Crc;
    KnownByte(0, 0x01, 0x5e);
    KnownByte(0, 0x02, 0xbc);
    KnownByte(0xbc, 0x1c, 0xaf);
    KnownByte(0xaf, 0xb8, 0x1e);
    KnownByte(0x1e, 0x01, 0xdc);
    KnownByte(0xdc, 0, 0xf4);
    KnownByte(0xf4, 0, 0x15);
    KnownByte(0x15, 0, 0xa2);
    OneByte(0, [0x01]);
    OneByte(0, [0x02, 0x1c, 0xb8, 0x01, 0, 0, 0]);
    OneByte(0xbc, [0x1c, 0xb8, 0x01, 0, 0, 0]);
    OneByte(0xaf, [0xb8, 0x01, 0, 0, 0]);
    OneByte(0x1e, [0x01, 0, 0, 0]);
    OneByte(0xdc, [0, 0, 0]);
    OneByte(0xf4, [0, 0]);
    OneByte(0x15, [0]);
    assert [0x02, 0x1c, 0xb8, 0x01, 0, 0, 0][1..] == [0x1c, 0xb8, 0x01, 0, 0, 0] && [0x1c, 0xb8, 0x01, 0, 0, 0][1..] == [0xb8, 0x01, 0, 0, 0];
    assert [0xb8, 0x01, 0, 0, 0][1..] == [0x01, 0, 0, 0] && [0x01, 0, 0, 0][1..] == [0, 0, 0] && [0, 0, 0][1..] == [0, 0] && [0, 0][1..] == [0];
  }

  /** Four of the eight steps. */
  function Nibble(c: bv8, d: bv8): bv8 { BitStep(BitStep(BitStep(BitStep(c, d), d >> 1), d >> 2), d >> 3) }

  lemma ByteInSteps(c: bv8, d: bv8)
    ensures Byte(c, d) == Nibble(Nibble(c, d), d >> 4)
  {
    hide BitStep;
    var c1 := BitStep(c, d);
    var c2 := BitStep(c1, d >> 1);
    var c3 := BitStep(c2, d >> 2);
    var c4 := BitStep(c3, d >> 3);
    assert Bits(c, d, 8) == Bits(c1, d >> 1, 7) == Bits(c2, d >> 2, 6) == Bits(c3, d >> 3, 5) == Bits(c4, d >> 4, 4);
    var c5 := BitStep(c4, d >> 4);
    var c6 := BitStep(c5, d >> 5);
    var c7 := BitStep(c6, d >> 6);
    assert Bits(c4, d >> 4, 4) == Bits(c5, d >> 5, 3) == Bits(c6, d >> 6, 2) == Bits(c7, d >> 7, 1) == BitStep(c7, d >> 7);
  }

  lemma KnownByte(c: bv8, d: bv8, e: bv8)
    requires Nibble(Nibble(c, d), d >> 4) == e
    ensures Byte(c, d) == e
  {
    hide Nibble;
    ByteInSteps(c, d);
  }

  lemma OneByte(c: bv8, m: seq<bv8>)
    requires m != []
    ensures Crc(c, m) == Crc(Byte(c, m[0]), m[1..]) && (|m| == 1 ==> Crc(c, m) == Byte(c, m[0]))
  {
    hide Bits;
  }

  lemma SameBits(x: bv8, y: bv8)
    requires forall k: nat | k < 8 :: Bit(x, k) == Bit(y, k)
    ensures x == y
  {
    assert Bit(x, 0) == Bit(y, 0) && Bit(x, 1) == Bit(y, 1) && Bit(x, 2) == Bit(y, 2) && Bit(x, 3) == Bit(y, 3);
    assert Bit(x, 4) == Bit(y, 4) && Bit(x, 5) == Bit(y, 5) && Bit(x, 6) == Bit(y, 6) && Bit(x, 7) == Bit(y, 7);
  }

  /** crc8: the loops over bytes and bits compute `Crc` from zero. */
  method ComputeCrc8(input: array<bv8>, count: int) returns (crc: bv8)
    requires 0 <= count < 0x1_0000 && count <= input.Length
    ensures IsCrc(input[..count], crc) && crc == Crc(0, input[..count])
  {
    hide Byte;
    hide IsCrc;
    crc := 0;
    var loop := 0;
    while loop != count
      invariant 0 <= loop <= count
      invariant crc == Crc(0, input[..loop])
      decreases count - loop
    {
      CrcSnoc(input[..loop], input[loop]);
      crc := FeedByte(crc, input[loop]);
      assert input[..loop + 1] == input[..loop] + [input[loop]];
      loop := loop + 1;
    }
    CrcIsRemainder(input[..count], crc);
  }

  // ---------------------------------------------------------------- linearity

  function Plus(a: bv8, b: bv8): bv8 { a ^ b }

  lemma BitStepLinear(c: bv8, d: bv8, x: bv8, y: bv8)
    ensures BitStep(c ^ d, x ^ y) == BitStep(c, x) ^ BitStep(d, y)
  {
  }

  lemma ShiftLinear(x: bv8, y: bv8)
    ensures Plus(x, y) >> 1 == Plus(x >> 1, y >> 1)
  {
  }

  lemma PlusStep(c: bv8, d: bv8, x: bv8, y: bv8)
    ensures BitStep(Plus(c, d), Plus(x, y)) == Plus(BitStep(c, x), BitStep(d, y))
  {
    hide BitStep;
    BitStepLinear(c, d, x, y);
  }

  lemma {:induction false} BitsLinear(c: bv8, d: bv8, x: bv8, y: bv8, n: nat)
    ensures Bits(Plus(c, d), Plus(x, y), n) == Plus(Bits(c, x, n), Bits(d, y, n))
    decreases n
  {
    hide Plus;
    hide BitStep;
    if n > 0 {
      PlusStep(c, d, x, y);
      ShiftLinear(x, y);
      BitsLinear(BitStep(c, x), BitStep(d, y), x >> 1, y >> 1, n - 1);
    }
  }

  /** The CRC of the xor of two messages is the xor of their CRCs. */
  lemma {:induction false} CrcLinear(c: bv8, d: bv8, a: seq<bv8>, b: seq<bv8>)
    requires |a| == |b|
    ensures Crc(Plus(c, d), Xor(a, b)) == Plus(Crc(c, a), Crc(d, b))
    decreases |a|
  {
    hide Plus;
    hide Bits;
    if a != [] {
      BitsLinear(c, d, a[0], b[0], BitsPerByte());
      assert Xor(a, b)[1..] == Xor(a[1..], b[1..]);
      CrcLinear(Byte(c, a[0]), Byte(d, b[0]), a[1..], b[1..]);
    }
  }

  // ---------------------------------------------------------------- the appended checksum

  /** Without data the register is a permutation, so only zero leads to zero. */
  lemma BitStepZero(c: bv8)
    ensures BitStep(c, 0) == 0 <==> c == 0
  {
  }

  lemma {:induction false} BitsZero(c: bv8, n: nat)
    ensures Bits(c, 0, n) == 0 <==> c == 0
    decreases n
  {
    if n > 0 {
      BitStepZero(c);
      BitsZero(BitStep(c, 0), n - 1);
    }
  }

  lemma SelfByte(x: bv8)
    ensures Byte(x, x) == 0
  {
    assert Bits(x, x, 8) == 0;
  }

  lemma PlusFacts(c: bv8, x: bv8)
    ensures Plus(Plus(c, x), x) == c && Plus(0, x) == x && Plus(c, 0) == c
    ensures Plus(c, x) == 0 <==> c == x
  {
  }

  /** Feeding a byte is xoring it in and feeding eight zero bits. */
  lemma ByteIsXor(c: bv8, x: bv8)
    ensures Byte(c, x) == Byte(Plus(c, x), 0)
  {
    hide Plus;
    hide Bits;
    PlusFacts(c, x);
    SelfByte(x);
    BitsLinear(Plus(c, x), x, 0, x, BitsPerByte());
    PlusFacts(Byte(Plus(c, x), 0), 0);
  }

  /** A byte leads from register `c` to zero exactly when it equals `c`. */
  lemma ByteToZero(c: bv8, x: bv8)
    ensures Byte(c, x) == 0 <==> x == c
  {
    ByteIsXor(c, x);
    BitsZero(Plus(c, x), BitsPerByte());
    PlusFacts(c, x);
  }

  /** A received message passes the check exactly when its last byte is the CRC of the rest. */
  lemma AppendedCrc(m: seq<bv8>, last: bv8)
    ensures Crc(0, m + [last]) == 0 <==> last == Crc(0, m)
  {
    CrcSnoc(m, last);
    ByteToZero(Crc(0, m), last);
  }

  // ---------------------------------------------------------------- burst errors

  /** Bit `p` of a message in transmission order. */
  predicate BitAt(m: seq<bv8>, p: nat)
    requires p < 8 * |m|
  {
    Bit(m[p / 8], p % 8)
  }

  /** The two messages agree outside the eight bits from `start` on. */
  predicate AgreeOutside(a: seq<bv8>, b: seq<bv8>, start: nat)
    requires |a| == |b|
  {
    forall p: nat | p < 8 * |a| && !(start <= p < start + 8) :: BitAt(a, p) == BitAt(b, p)
  }

  /** The lowest `r` bits. */
  function LowMask(r: nat): bv8 {
    if r == 0 then 0 else LowMask(r - 1) | BitMask(r - 1)
  }

  /** Bits `r` to 7. */
  function HighMask(r: nat): bv8
    decreases 8 - r
  {
    if r >= 8 then 0 else BitMask(r) | HighMask(r + 1)
  }

  lemma BitAgrees(x: bv8, y: bv8, k: nat)
    requires k < 8 && Bit(x, k) == Bit(y, k)
    ensures Plus(x, y) & BitMask(k) == 0
  {
  }

  lemma MaskUnion(z: bv8, m: bv8, n: bv8)
    requires z & m == 0 && z & n == 0
    ensures z & (m | n) == 0 && z & (n | m) == 0
  {
  }

  lemma {:induction false} LowAgrees(x: bv8, y: bv8, r: nat)
    requires r <= 8 && forall k: nat | k < r :: Bit(x, k) == Bit(y, k)
    ensures Plus(x, y) & LowMask(r) == 0
  {
    hide Plus;
    hide BitMask;
    if r > 0 {
      LowAgrees(x, y, r - 1);
      BitAgrees(x, y, r - 1);
      MaskUnion(Plus(x, y), LowMask(r - 1), BitMask(r - 1));
    } else {
      NoBits(Plus(x, y));
    }
  }

  lemma NoBits(z: bv8)
    ensures z & 0 == 0
  {
  }

  lemma {:induction false} HighAgrees(x: bv8, y: bv8, r: nat)
    requires r <= 8 && forall k: nat | r <= k < 8 :: Bit(x, k) == Bit(y, k)
    ensures Plus(x, y) & HighMask(r) == 0
    decreases 8 - r
  {
    hide Plus;
    hide BitMask;
    if r < 8 {
      HighAgrees(x, y, r + 1);
      BitAgrees(x, y, r);
      MaskUnion(Plus(x, y), HighMask(r + 1), BitMask(r));
    } else {
      NoBits(Plus(x, y));
    }
  }

  lemma AllAgree(x: bv8, y: bv8)
    requires Plus(x, y) & LowMask(8) == 0
    ensures x == y
  {
    assert LowMask(8) == 0xFF;
  }

  /** A burst that spans two bytes cannot return the register to zero. */
  lemma TwoByteBurst(x: bv8, y: bv8, r: nat)
    requires r < 8 && x & LowMask(r) == 0 && y & HighMask(r) == 0
    requires Byte(0, x) == y
    ensures x == 0
  {
    assert Bits(0, x, 8) == y;
    if r == 0 { assert HighMask(0) == 0xFF; }
    else if r == 1 { assert LowMask(1) == 0x01 && HighMask(1) == 0xFE; }
    else if r == 2 { assert LowMask(2) == 0x03 && HighMask(2) == 0xFC; }
    else if r == 3 { assert LowMask(3) == 0x07 && HighMask(3) == 0xF8; }
    else if r == 4 { assert LowMask(4) == 0x0F && HighMask(4) == 0xF0; }
    else if r == 5 { assert LowMask(5) == 0x1F && HighMask(5) == 0xE0; }
    else if r == 6 { assert LowMask(6) == 0x3F && HighMask(6) == 0xC0; }
    else { assert LowMask(7) == 0x7F && HighMask(7) == 0x80; }
  }

  lemma ByteDifference(c: bv8, d: bv8, x: bv8, y: bv8)
    ensures Byte(c, x) == Byte(d, y) <==> Byte(Plus(c, d), Plus(x, y)) == 0
  {
    hide Bits;
    hide Plus;
    BitsLinear(c, d, x, y, BitsPerByte());
    PlusFacts(Byte(c, x), Byte(d, y));
  }

  /** Registers that differ stay different over equal data. */
  lemma {:induction false} DifferentStays(c: bv8, d: bv8, m: seq<bv8>)
    requires c != d
    ensures Crc(c, m) != Crc(d, m)
    decreases |m|
  {
    hide Bits;
    hide Plus;
    if m != [] {
      ByteDifference(c, d, m[0], m[0]);
      PlusFacts(m[0], m[0]);
      PlusFacts(c, d);
      ByteToZero(Plus(c, d), 0);
      DifferentStays(Byte(c, m[0]), Byte(d, m[0]), m[1..]);
    }
  }

  lemma AgreesAt(a: seq<bv8>, b: seq<bv8>, start: nat, j: nat, k: nat)
    requires |a| == |b| && AgreeOutside(a, b, start)
    requires j < |a| && k < 8 && !(start <= 8 * j + k < start + 8)
    ensures Bit(a[j], k) == Bit(b[j], k)
  {
    hide Bit;
    var p := 8 * j + k;
    assert p / 8 == j && p % 8 == k;
    assert BitAt(a, p) == BitAt(b, p);
  }

  /** A window in the first byte or the first two: where the bytes must agree. */
  lemma WindowBytes(a: seq<bv8>, b: seq<bv8>, start: nat, j: nat)
    requires |a| == |b| && j < |a| && start < 8 && AgreeOutside(a, b, start)
    ensures j > 1 ==> a[j] == b[j]
    ensures j == 0 ==> Plus(a[j], b[j]) & LowMask(start) == 0
    ensures j == 1 ==> Plus(a[j], b[j]) & HighMask(start) == 0
  {
    hide Bit;
    hide Plus;
    hide LowMask;
    hide HighMask;
    hide AgreeOutside;
    forall k: nat | k < 8 && !(start <= 8 * j + k < start + 8) ensures Bit(a[j], k) == Bit(b[j], k) {
      AgreesAt(a, b, start, j, k);
    }
    if j == 0 {
      LowAgrees(a[j], b[j], start);
    } else if j == 1 {
      HighAgrees(a[j], b[j], start);
    } else {
      LowAgrees(a[j], b[j], 8);
      AllAgree(a[j], b[j]);
    }
  }

  lemma AgreeTail(a: seq<bv8>, b: seq<bv8>, start: nat)
    requires |a| == |b| && a != [] && start >= 8 && AgreeOutside(a, b, start)
    ensures a[0] == b[0] && AgreeOutside(a[1..], b[1..], start - 8)
  {
    hide Bit;
    hide Plus;
    hide LowMask;
    forall k: nat | k < 8 ensures Bit(a[0], k) == Bit(b[0], k) {
      AgreesAt(a, b, start, 0, k);
    }
    LowAgrees(a[0], b[0], 8);
    AllAgree(a[0], b[0]);
    forall p: nat | p < 8 * |a[1..]| && !(start - 8 <= p < start - 8 + 8)
      ensures BitAt(a[1..], p) == BitAt(b[1..], p)
    {
      AgreesAt(a, b, start, p / 8 + 1, p % 8);
    }
  }

  lemma CrcOfTwo(c: bv8, x: seq<bv8>)
    requires |x| == 2
    ensures Crc(c, x) == Byte(Byte(c, x[0]), x[1])
  {
    hide Bits;
    assert x[1..] == [x[1]];
    assert Crc(Byte(c, x[0]), [x[1]]) == Crc(Byte(Byte(c, x[0]), x[1]), []);
  }

  /** Two different bytes, or two pairs of bytes that differ in a window, give different registers. */
  lemma WindowRegister(c: bv8, x: seq<bv8>, y: seq<bv8>, r: nat)
    requires r < 8 && |x| == |y| && 1 <= |x| <= 2 && x != y
    requires Plus(x[0], y[0]) & LowMask(r) == 0
    requires |x| == 2 ==> Plus(x[1], y[1]) & HighMask(r) == 0
    ensures Crc(c, x) != Crc(c, y)
  {
    hide Bits;
    hide LowMask;
    hide HighMask;
    hide Plus;
    var u := Plus(x[0], y[0]);
    PlusFacts(x[0], y[0]);
    PlusFacts(c, c);
    ByteDifference(c, c, x[0], y[0]);
    ByteToZero(0, u);
    var c1, d1 := Byte(c, x[0]), Byte(c, y[0]);
    if |x| == 1 {
      assert x == [x[0]] && y == [y[0]];
      assert Crc(c, x) == c1 && Crc(c, y) == d1;
    } else {
      CrcOfTwo(c, x);
      CrcOfTwo(c, y);
      var v := Plus(x[1], y[1]);
      PlusFacts(x[1], y[1]);
      BitsLinear(c, c, x[0], y[0], BitsPerByte());
      ByteDifference(c1, d1, x[1], y[1]);
      ByteToZero(Byte(0, u), v);
      if v == Byte(0, u) {
        TwoByteBurst(u, v, r);
      }
    }
  }

  /** A burst that starts in the first byte. */
  lemma BurstAtStart(c: bv8, a: seq<bv8>, b: seq<bv8>, start: nat)
    requires |a| == |b| && a != b && start < 8 && AgreeOutside(a, b, start)
    ensures Crc(c, a) != Crc(c, b)
  {
    hide AgreeOutside;
    hide Bits;
    hide Plus;
    hide LowMask;
    hide HighMask;
    hide Crc;
    var k := if |a| >= 2 then 2 else 1;
    var x, y, tail := a[..k], b[..k], a[k..];
    forall j | 0 <= j < |a| ensures j > 1 ==> a[j] == b[j] {
      WindowBytes(a, b, start, j);
    }
    assert tail == b[k..] && a == x + tail && b == y + tail;
    WindowBytes(a, b, start, 0);
    if k == 2 { WindowBytes(a, b, start, 1); }
    WindowRegister(c, x, y, start);
    CrcAppend(c, x, tail);
    CrcAppend(c, y, tail);
    DifferentStays(Crc(c, x), Crc(c, y), tail);
  }

  /** Messages that differ only inside eight consecutive bits never have the same CRC. */
  lemma {:induction false} BurstDetected(c: bv8, a: seq<bv8>, b: seq<bv8>, start: nat)
    requires |a| == |b| && a != b && AgreeOutside(a, b, start)
    ensures Crc(c, a) != Crc(c, b)
    decreases |a|
  {
    hide AgreeOutside;
    hide Bits;
    hide Plus;
    hide LowMask;
    hide HighMask;
    if start >= 8 {
      AgreeTail(a, b, start);
      assert a == [a[0]] + a[1..] && b == [b[0]] + b[1..];
      BurstDetected(Byte(c, a[0]), a[1..], b[1..], start - 8);
    } else {
      BurstAtStart(c, a, b, start);
    }
  }
}
