/** The Internet checksum (RFC 1071): 16-bit words added with end-around carry. */
module Checksum {
  import opened Words

  /** The sum of the big-endian words of d[lo..hi]; an odd last byte is padded with zero. */
  function WordSum(d: seq<u8>, lo: nat, hi: nat): nat
    requires lo <= hi <= |d|
    decreases hi - lo
  {
    if lo == hi then 0
    else if Even(hi - lo) then WordSum(d, lo, hi - 2) + Pair(d[hi - 2], d[hi - 1])
    else WordSum(d, lo, hi - 1) + Pair(d[hi - 1], 0)
  }

  predicate Even(n: int) { n % 2 == 0 }

  /** Two bytes in network order. */
  function Pair(first: u8, second: u8): u16 { 256 * (first as int) + second }

  /** The one's-complement representative of a sum: 0 only for 0, otherwise 1 .. 0xffff. */
  function Fold(n: nat): u16 { if n == 0 then 0 else 1 + (n - 1) % 0xffff }

  lemma FoldMeans(n: nat)
    ensures Fold(n) % 0xffff == n % 0xffff
    ensures Fold(n) == 0 <==> n == 0
    ensures Fold(n) == 0xffff <==> n > 0 && n % 0xffff == 0
  {
    if n > 0 {
      var q, r := (n - 1) / 0xffff, (n - 1) % 0xffff;
      assert n == q * 0xffff + (r + 1);
    }
  }

  /** No other 16-bit value is congruent and zero in the same case. */
  lemma FoldUnique(n: nat, v: u16)
    requires v % 0xffff == n % 0xffff && (v == 0 <==> n == 0)
    ensures v == Fold(n)
  {
    FoldMeans(n);
  }

  /** One step of the loop: a 16-bit addition whose carry is added back. */
  function AddCarry(sum: u16, t: u16): u16 {
    var s := (sum + t) % 0x1_0000;
    if s < t then (s + 1) % 0x1_0000 else s
  }

  lemma AddCarryFolds(n: nat, t: u16)
    ensures AddCarry(Fold(n), t) == Fold(n + t)
  {
    FoldMeans(n);
    var f := Fold(n);
    var r := AddCarry(f, t);
    assert r == if f + t < 0x1_0000 then f + t else f + t - 0xffff;
    assert r % 0xffff == (f + t) % 0xffff;
    ModAdd(f, n, t);
    FoldUnique(n + t, r);
  }

  lemma ModAdd(a: nat, b: nat, t: nat)
    requires a % 0xffff == b % 0xffff
    ensures (a + t) % 0xffff == (b + t) % 0xffff
  {
    var q := a / 0xffff - b / 0xffff;
    assert a == b + q * 0xffff;
    ModShift(b + t, q);
  }

  lemma ModShift(x: int, q: int)
    ensures (x + q * 0xffff) % 0xffff == x % 0xffff
  {
  }

  lemma EvenSum(a: int, b: int)
    requires Even(a)
    ensures Even(a + b) == Even(b)
  {
  }

  /** Sums compose over any split at an even offset. */
  lemma {:induction false} WordSumSplit(d: seq<u8>, lo: nat, mid: nat, hi: nat)
    requires lo <= mid <= hi <= |d| && Even(mid - lo)
    ensures WordSum(d, lo, hi) == WordSum(d, lo, mid) + WordSum(d, mid, hi)
    decreases hi - mid
  {
    EvenSum(mid - lo, hi - mid);
    if mid < hi {
      WordSumSplit(d, lo, mid, if Even(hi - mid) then hi - 2 else hi - 1);
    }
  }

  /** The number whose digits to the base 256 are the bytes. */
  function BigEndian(s: seq<u8>): nat
    decreases |s|
  {
    if s == [] then 0 else 256 * BigEndian(s[..|s| - 1]) + s[|s| - 1]
  }

  lemma TwoDigits(s: seq<u8>, a: u8, b: u8)
    ensures BigEndian(s + [a, b]) == 0x1_0000 * BigEndian(s) + Pair(a, b)
  {
    var t := s + [a];
    assert (s + [a, b])[..|s| + 1] == t && t[..|s|] == s;
    assert BigEndian(t) == 256 * BigEndian(s) + a;
    assert BigEndian(s + [a, b]) == 256 * BigEndian(t) + b;
  }

  /** The bytes with a zero behind an odd last one. */
  function Padded(d: seq<u8>, lo: nat, hi: nat): seq<u8>
    requires lo <= hi <= |d|
  {
    d[lo..hi] + if Even(hi - lo) then [] else [0]
  }

  /** The sum is the number that the bytes make up, modulo 0xffff, an odd last byte followed by a zero. */
  lemma {:induction false} SumIsNumber(d: seq<u8>, lo: nat, hi: nat)
    requires lo <= hi <= |d|
    ensures WordSum(d, lo, hi) % 0xffff == BigEndian(Padded(d, lo, hi)) % 0xffff
    decreases hi - lo
  {
    hide BigEndian;
    hide WordSum;
    hide Padded;
    hide Pair;
    if lo == hi {
      NoDigits(d, lo);
    } else {
      var mid, b := LastWord(d, lo, hi);
      SumIsNumber(d, lo, mid);
      var n := BigEndian(Padded(d, lo, mid));
      TwoDigits(Padded(d, lo, mid), d[mid], b);
      ModAdd(WordSum(d, lo, mid), n, Pair(d[mid], b));
      var t := Pair(d[mid], b);
      ModShift(n + t, n);
      assert 0x1_0000 * n + t == (n + t) + n * 0xffff;
    }
  }

  lemma LastWord(d: seq<u8>, lo: nat, hi: nat) returns (mid: nat, b: u8)
    requires lo < hi <= |d|
    ensures lo <= mid < hi && Padded(d, lo, hi) == Padded(d, lo, mid) + [d[mid], b]
    ensures WordSum(d, lo, hi) == WordSum(d, lo, mid) + Pair(d[mid], b)
  {
    mid, b := if Even(hi - lo) then hi - 2 else hi - 1, if Even(hi - lo) then d[hi - 1] else 0;
    assert Padded(d, lo, mid) == d[lo..mid];
  }

  lemma NoDigits(d: seq<u8>, lo: nat)
    requires lo <= |d|
    ensures WordSum(d, lo, lo) == 0 == BigEndian(Padded(d, lo, lo))
  {
  }

  /** The sum depends only on the bytes, not on where they lie. */
  lemma {:induction false} WordSumMoved(d: seq<u8>, lo: nat, hi: nat, e: seq<u8>, at: nat)
    requires lo <= hi <= |d| && at + (hi - lo) <= |e|
    requires forall i | lo <= i < hi :: d[i] == e[at + i - lo]
    ensures WordSum(e, at, at + (hi - lo)) == WordSum(d, lo, hi)
    decreases hi - lo
  {
    if lo < hi {
      assert d[hi - 1] == e[at + (hi - lo) - 1];
      if Even(hi - lo) {
        assert d[hi - 2] == e[at + (hi - lo) - 2];
        WordSumMoved(d, lo, hi - 2, e, at);
      } else {
        WordSumMoved(d, lo, hi - 1, e, at);
      }
    }
  }

  function Word(d: seq<u8>, k: nat): u16
    requires k + 2 <= |d|
  {
    Pair(d[k], d[k + 1])
  }

  lemma OneWord(d: seq<u8>, k: nat)
    requires k + 2 <= |d|
    ensures WordSum(d, k, k + 2) == Word(d, k)
  {
    assert WordSum(d, k, k) == 0;
  }

  /** Changing one aligned word changes the sum by the difference. */
  lemma WordSumPatched(d: seq<u8>, e: seq<u8>, lo: nat, hi: nat, k: nat)
    requires |e| == |d| && lo <= k && k + 2 <= hi <= |d| && Even(k - lo)
    requires forall i | lo <= i < hi && i != k && i != k + 1 :: e[i] == d[i]
    ensures WordSum(e, lo, hi) == WordSum(d, lo, hi) - Word(d, k) + Word(e, k)
  {
    SplitAround(d, lo, hi, k);
    SplitAround(e, lo, hi, k);
    WordSumMoved(d, lo, k, e, lo);
    WordSumMoved(d, k + 2, hi, e, k + 2);
  }

  lemma SplitAround(d: seq<u8>, lo: nat, hi: nat, k: nat)
    requires lo <= k && k + 2 <= hi <= |d| && Even(k - lo)
    ensures WordSum(d, lo, hi) == WordSum(d, lo, k) + Word(d, k) + WordSum(d, k + 2, hi)
  {
    WordSumSplit(d, lo, k, hi);
    WordSumSplit(d, k, k + 2, hi);
    OneWord(d, k);
  }

  lemma OneMoreWord(d: seq<u8>, lo: nat, k: nat)
    requires lo <= k && k + 2 <= |d| && Even(k - lo)
    ensures WordSum(d, lo, k + 2) == WordSum(d, lo, k) + Pair(d[k], d[k + 1])
  {
    EvenSum(k - lo, 2);
  }

  lemma OddTail(d: seq<u8>, lo: nat, k: nat)
    requires lo <= k < |d| && Even(k - lo)
    ensures WordSum(d, lo, k + 1) == WordSum(d, lo, k) + Pair(d[k], 0)
  {
    EvenSum(k - lo, 1);
  }

  /** chksum: the loop over pairs of bytes and the odd tail compute the folded sum. */
  method Chksum(sum0: u16, data: array<u8>, at: nat, len: u16) returns (sum: u16)
    requires at + len <= data.Length
    ensures sum == Fold(sum0 + WordSum(data[..], at, at + len))
  {
    hide Fold;
    hide WordSum;
    ghost var d := data[..];
    StartOfSum(d, at, sum0);
    sum := sum0;
    var ptr, last := at, at + len - 1;
    while ptr < last
      invariant at <= ptr <= at + len && Even(ptr - at)
      invariant sum == Fold(sum0 + WordSum(d, at, ptr))
    {
      var t := Pair(data[ptr], data[ptr + 1]);
      AddCarryFolds(sum0 + WordSum(d, at, ptr), t);
      OneMoreWord(d, at, ptr);
      sum := (sum + t) % 0x1_0000;
      if sum < t {
        sum := (sum + 1) % 0x1_0000;
      }
      ptr := ptr + 2;
    }
    if ptr == last {
      var t := Pair(data[ptr], 0);
      AddCarryFolds(sum0 + WordSum(d, at, ptr), t);
      OddTail(d, at, ptr);
      sum := (sum + t) % 0x1_0000;
      if sum < t {
        sum := (sum + 1) % 0x1_0000;
      }
    }
  }

  lemma StartOfSum(d: seq<u8>, at: nat, sum: u16)
    requires at <= |d|
    ensures Fold(sum + WordSum(d, at, at)) == sum
  {
  }

  // ---------------------------------------------------------------- storing and verifying

  /** What uip_ipchksum and uip_tcpchksum return for a folded sum. */
  function Returned(sum: u16): u16 { if sum == 0 then 0xffff else Htons(sum) }

  /** Verification succeeds exactly for sums that are multiples of 0xffff. */
  lemma Verifies(n: nat)
    ensures Returned(Fold(n)) == 0xffff <==> n % 0xffff == 0
  {
    FoldMeans(n);
    if Htons(Fold(n)) == 0xffff { HtonsInjective(Fold(n), 0xffff); }
  }

  /** The two bytes of a little-endian 16-bit store. */
  function LowByte(v: u16): u8 { v % 256 }
  function HighByte(v: u16): u8 { v / 256 }

  /** The stored complement of the returned sum, as a big-endian word, completes it. */
  lemma ComplementCompletes(n: nat)
    ensures var v: u16 := 0xffff - Returned(Fold(n));
            (n + Pair(LowByte(v), HighByte(v))) % 0xffff == 0
  {
    FoldMeans(n);
    var f := Fold(n);
    if f > 0 {
      var v: u16 := 0xffff - Htons(f);
      assert v % 256 == 255 - f / 256 && v / 256 == 255 - f % 256;
      assert Pair(LowByte(v), HighByte(v)) == 0xffff - f;
      ModAdd(f, n, 0xffff - f);
    }
  }

  /** A big-endian word is 256 times its little-endian reading, modulo 0xffff. */
  lemma ByteSwap(v: u16)
    ensures Pair(LowByte(v), HighByte(v)) % 0xffff == (256 * v) % 0xffff
  {
    assert 256 * v == Pair(LowByte(v), HighByte(v)) + HighByte(v) * 0xffff;
    ModShift(Pair(LowByte(v), HighByte(v)), HighByte(v));
  }

  /** The incremental update on the byte-swapped word: add `w` with end-around carry. */
  function AddSwapped(v: u16, w: u16): u16 {
    if v >= 0xffff - w then (v + w + 1) % 0x1_0000 else v + w
  }

  lemma AddSwappedMod(v: u16, w: u8)
    ensures (256 * AddSwapped(v, w)) % 0xffff == (256 * v + 256 * w) % 0xffff
  {
    var r := AddSwapped(v, w);
    if v >= 0xffff - w {
      assert r == v + w - 0xffff;
      ModShift(256 * r, 256);
    }
  }

  /** The update adds w << 8 to the big-endian word, modulo 0xffff. */
  lemma IncrementalUpdate(v: u16, w: u8)
    ensures var r := AddSwapped(v, w);
            Pair(LowByte(r), HighByte(r)) % 0xffff == (Pair(LowByte(v), HighByte(v)) + 256 * w) % 0xffff
  {
    var r := AddSwapped(v, w);
    ByteSwap(r);
    ByteSwap(v);
    AddSwappedMod(v, w);
    ModAdd(Pair(LowByte(v), HighByte(v)), 256 * v, 256 * w);
  }
}
