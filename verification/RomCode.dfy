/** 64-bit ROM codes, their bytes, and the order in which the search meets them. */
module RomCode {
  import opened Words

  /** A ROM code in transmission order: byte 0 bit 0 first. */
  type Code = c: seq<bool> | |c| == 64 witness seq(64, _ => false)

  /** The lowest `n` bits of a number, least significant first. */
  function LowBits(b: nat, n: nat): (s: seq<bool>)
    ensures |s| == n
    decreases n
  {
    if n == 0 then [] else [b % 2 == 1] + LowBits(b / 2, n - 1)
  }

  function ByteWidth(): nat { 8 }

  function ByteBits(b: u8): (s: seq<bool>)
    ensures |s| == 8
  {
    LowBits(b, ByteWidth())
  }

  /** `b >>= 1; if (bit) b |= 0x80`. */
  function ShiftIn(b: u8, bit: bool): u8 { b / 2 + (if bit then 128 else 0) }

  lemma {:induction false} TopBit(b: nat, n: nat, bit: bool)
    requires b < Pow2(n)
    ensures LowBits(b + (if bit then Pow2(n) else 0), n + 1) == LowBits(b, n) + [bit]
    decreases n
  {
    if n > 0 {
      var top := if bit then Pow2(n) else 0;
      var half := if bit then Pow2(n - 1) else 0;
      assert (b + top) % 2 == b % 2 && (b + top) / 2 == b / 2 + half;
      TopBit(b / 2, n - 1, bit);
    }
  }

  lemma LowestFirst(b: nat, n: nat)
    requires n > 0
    ensures LowBits(b, n)[0] == (b % 2 == 1) && LowBits(b, n)[1..] == LowBits(b / 2, n - 1)
  {
  }

  lemma Pow2Seven()
    ensures Pow2(7) == 128
  {
  }

  /** The shift register rotates: the lowest bit leaves, the new bit enters at the top. */
  lemma ShiftInBits(b: u8, bit: bool)
    ensures ByteBits(b)[0] == (b % 2 == 1)
    ensures ByteBits(ShiftIn(b, bit)) == ByteBits(b)[1..] + [bit]
  {
    hide LowBits;
    hide Pow2;
    Pow2Seven();
    LowestFirst(b, ByteWidth());
    TopBit(b / 2, ByteWidth() - 1, bit);
  }

  /** The bits of a byte string, byte after byte. */
  function BytesBits(s: seq<u8>): (r: seq<bool>)
    ensures |r| == 8 * |s|
    decreases |s|
  {
    if s == [] then [] else BytesBits(s[..|s| - 1]) + ByteBits(s[|s| - 1])
  }

  /** The code held by an eight-byte buffer. */
  function IdCode(id: seq<u8>): Code
    requires |id| == 8
  {
    BytesBits(id)
  }

  // ---------------------------------------------------------------- the order

  predicate FirstDifference(a: seq<bool>, b: seq<bool>, p: nat)
    requires |a| == |b|
  {
    p < |a| && a[..p] == b[..p] && a[p] != b[p]
  }

  /** `a` comes after `b` in the search: at the first difference `a` has 0 and `b` has 1. */
  ghost predicate Less(a: Code, b: Code) {
    exists p: nat :: FirstDifference(a, b, p) && b[p]
  }

  lemma {:induction false} DifferenceExists(a: seq<bool>, b: seq<bool>, from: nat) returns (p: nat)
    requires |a| == |b| && from <= |a| && a[..from] == b[..from] && a != b
    ensures FirstDifference(a, b, p)
    decreases |a| - from
  {
    assert a == a[..|a|] && b == b[..|b|];
    if a[from] != b[from] {
      p := from;
    } else {
      assert a[..from + 1] == a[..from] + [a[from]] && b[..from + 1] == b[..from] + [b[from]];
      p := DifferenceExists(a, b, from + 1);
    }
  }

  lemma PrefixAgrees(a: seq<bool>, b: seq<bool>, p: nat)
    requires p <= |a| && p <= |b| && a[..p] == b[..p]
    ensures forall k | 0 <= k < p :: a[k] == b[k]
  {
    forall k | 0 <= k < p ensures a[k] == b[k] {
      assert a[..p][k] == b[..p][k];
    }
  }

  lemma DifferenceUnique(a: seq<bool>, b: seq<bool>, p: nat, q: nat)
    requires |a| == |b| && FirstDifference(a, b, p) && FirstDifference(a, b, q)
    ensures p == q
  {
    PrefixAgrees(a, b, p);
    PrefixAgrees(a, b, q);
  }

  lemma Asymmetric(a: Code, b: Code)
    requires Less(a, b)
    ensures !Less(b, a) && a != b
  {
    var p: nat :| FirstDifference(a, b, p) && b[p];
    if Less(b, a) {
      var q: nat :| FirstDifference(b, a, q) && a[q];
      assert FirstDifference(a, b, q);
      DifferenceUnique(a, b, p, q);
    }
  }

  lemma Transitive(a: Code, b: Code, c: Code)
    requires Less(a, b) && Less(b, c)
    ensures Less(a, c)
  {
    var p: nat :| FirstDifference(a, b, p) && b[p];
    var q: nat :| FirstDifference(b, c, q) && c[q];
    var m := if p <= q then p else q;
    PrefixAgrees(a, b, p);
    PrefixAgrees(b, c, q);
    assert a[..m] == c[..m];
    assert FirstDifference(a, c, m);
  }
}
