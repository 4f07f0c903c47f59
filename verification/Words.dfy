/** Fixed-width machine words of the firmware, with every wrap-around written out. */
module Words {
  type u8 = x: int | 0 <= x < 0x100
  type u16 = x: int | 0 <= x < 0x1_0000
  type u32 = x: int | 0 <= x < 0x1_0000_0000

  const MOD32: nat := 0x1_0000_0000

  datatype Option<+T> = None | Some(value: T)

  /** An IPv4 address: the two 16-bit halves the firmware keeps. */
  datatype Ip = Ip(hi: u16, lo: u16)

  /** HTONS on a little-endian machine (uip.h): the two bytes change places. */
  function Htons(v: u16): (r: u16)
    ensures r / 256 == v % 256 && r % 256 == v / 256
  {
    (v % 256) * 256 + v / 256
  }

  lemma HtonsInjective(a: u16, b: u16)
    requires Htons(a) == Htons(b)
    ensures a == b
  {
    assert a == (a / 256) * 256 + a % 256 && b == (b / 256) * 256 + b % 256;
  }

  /** Reduction to 16 bits of a number that is at most one step out of range. */
  lemma Wraps16(x: int)
    requires -0x1_0000 <= x < 0x2_0000
    ensures x % 0x1_0000 == if x < 0 then x + 0x1_0000 else if x < 0x1_0000 then x else x - 0x1_0000
  {
  }

  lemma Wraps32(x: int)
    requires 0 <= x < 2 * MOD32
    ensures x % MOD32 == if x < MOD32 then x else x - MOD32
  {
  }

  lemma Wraps8(x: int)
    requires 0 <= x < 512
    ensures x % 256 == if x < 256 then x else x - 256
  {
  }

  /** Bitwise and of 16-bit words. */
  function And(a: u16, b: u16): (r: u16)
    ensures r <= a && r <= b
    decreases a
  {
    if a == 0 || b == 0 then 0 else 2 * And(a / 2, b / 2) + (if a % 2 == 1 && b % 2 == 1 then 1 else 0)
  }

  function Pow2(n: nat): (r: nat)
    ensures r >= 1
  {
    if n == 0 then 1 else 2 * Pow2(n - 1)
  }

  /** `n` ones leave the lower bits of a word; zeros behind a mask clear the lower bits and mask the upper ones. */
  lemma {:induction false} AndMasks(x: u16, m: u16, n: nat)
    ensures Pow2(n) <= 0x1_0000 ==> And(x, Pow2(n) - 1) == x % Pow2(n)
    ensures m < 0x8000 ==> And(x, 2 * m) == 2 * And(x / 2, m)
    decreases n
  {
    if n > 0 && Pow2(n) <= 0x1_0000 {
      AndMasks(x / 2, 0, n - 1);
      var h := Pow2(n - 1);
      assert (Pow2(n) - 1) / 2 == h - 1 && (Pow2(n) - 1) % 2 == 1;
      HalvedRemainder(x, h);
    }
  }

  lemma HalvedRemainder(x: nat, h: nat)
    requires h > 0
    ensures x % (2 * h) == 2 * (x / 2 % h) + x % 2
  {
    var q, r := x / 2 / h, x / 2 % h;
    assert x == 2 * (q * h + r) + x % 2 == q * (2 * h) + (2 * r + x % 2);
    QuotientUnique(x, 2 * h, q, 2 * r + x % 2);
  }

  lemma QuotientUnique(x: nat, d: nat, q: nat, r: nat)
    requires r < d && x == q * d + r
    ensures x % d == r
  {
    var p := x / d;
    assert x == p * d + x % d;
    assert (p - q) * d == r - x % d;
    Multiple(p - q, d);
  }

  lemma Multiple(a: int, d: nat)
    ensures (a >= 1 ==> a * d >= d) && (a <= -1 ==> a * d + d <= 0)
  {
  }

  function Min(a: int, b: int): int { if a <= b then a else b }
}
