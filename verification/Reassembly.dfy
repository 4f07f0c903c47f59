/** Fragment reassembly (uip_reass): which blocks have arrived, and what they hold. */
module Reassembly {
  import opened Words

  const IPH_LEN: nat := 20

  /** bitmap_bits: the bits from `k` to the end of a byte, first bit highest. */
  function TailBits(k: nat): bv8
    requires k < 8
  {
    if k == 0 then 0xff else if k == 1 then 0x7f else if k == 2 then 0x3f else if k == 3 then 0x1f
    else if k == 4 then 0x0f else if k == 5 then 0x07 else if k == 6 then 0x03 else 0x01
  }

  /** The bit of block `k` within its byte. */
  function BlockBit(k: nat): bv8
    requires k < 8
  {
    if k == 0 then 0x80 else if k == 1 then 0x40 else if k == 2 then 0x20 else if k == 3 then 0x10
    else if k == 4 then 0x08 else if k == 5 then 0x04 else if k == 6 then 0x02 else 0x01
  }

  predicate BitSet(b: bv8, k: nat)
    requires k < 8
  {
    b & BlockBit(k) != 0
  }

  /** Has the 8-byte block `k` been marked? */
  predicate Marked(bitmap: seq<bv8>, k: nat) {
    k / 8 < |bitmap| && BitSet(bitmap[k / 8], k % 8)
  }

  // ---------------------------------------------------------------- bits of one byte

  lemma TailBit(lo: nat, k: nat)
    requires lo < 8 && k < 8
    ensures BitSet(TailBits(lo), k) <==> lo <= k
  {
  }

  function Or(a: bv8, b: bv8): bv8 { a | b }
  function AndNot(a: bv8, b: bv8): bv8 { a & !b }

  lemma OrBit(a: bv8, b: bv8, k: nat)
    requires k < 8
    ensures BitSet(Or(a, b), k) <==> BitSet(a, k) || BitSet(b, k)
  {
  }

  lemma AndNotBit(a: bv8, b: bv8, k: nat)
    requires k < 8
    ensures BitSet(AndNot(a, b), k) <==> BitSet(a, k) && !BitSet(b, k)
  {
  }

  lemma FullByte(k: nat)
    requires k < 8
    ensures BitSet(0xff, k) && !BitSet(0, k)
  {
  }

  /** The bits lo .. hi-1 of one byte. */
  lemma RangeBits(lo: nat, hi: nat, k: nat)
    requires lo < 8 && hi < 8 && k < 8
    ensures BitSet(AndNot(TailBits(lo), TailBits(hi)), k) <==> lo <= k < hi
    ensures BitSet(AndNot(0xff, TailBits(hi)), k) <==> k < hi
  {
    hide BitSet;
    hide AndNot;
    hide TailBits;
    TailBit(lo, k);
    TailBit(hi, k);
    FullByte(k);
    AndNotBit(TailBits(lo), TailBits(hi), k);
    AndNotBit(0xff, TailBits(hi), k);
  }

  // ---------------------------------------------------------------- fragments

  /**
   * The header of a fragment and the bytes behind it that the code takes for its data: as
   * many as the length field says, in 16 bits, also when it is below the header length.
   */
  datatype Fragment = Fragment(header: seq<u8>, payload: seq<u8>) {
    predicate Ok() {
      |header| == IPH_LEN && |payload| == (header[2] as int * 256 + header[3] - IPH_LEN) % 0x1_0000
    }

    /** `offset` as the code computes it in 16 bits; the flag bits are still in the first byte. */
    function Offset(): u16
      requires Ok()
    {
      ((header[6] % 64) as int * 256 + header[7]) * 8 % 0x1_0000
    }

    predicate MoreFragments()
      requires Ok()
    {
      header[6] / 32 % 2 == 1
    }

    function End(): u16
      requires Ok()
    {
      (Offset() + |payload|) % 0x1_0000
    }
  }

  lemma SixBits(b: u8)
    ensures b % 64 == b % 32 || b % 64 == b % 32 + 32
  {
  }

  /** The end in 16 bits. */
  lemma EndWraps(f: Fragment)
    requires f.Ok()
    ensures var n := f.Offset() + |f.payload|; n < 0x2_0000 && f.End() as int == if n < 0x1_0000 then n else n - 0x1_0000
  {
    hide Fragment.Offset;
    Wraps16(f.Offset() + |f.payload|);
  }

  /** The More Fragments bit survives the mask 0x3f but leaves the 16-bit offset. */
  lemma OffsetIgnoresFlags(f: Fragment)
    requires f.Ok()
    ensures f.Offset() == 8 * ((f.header[6] % 32) as int * 256 + f.header[7])
  {
    var hi: int, low: int, lo: int := f.header[6] % 64, f.header[6] % 32, f.header[7];
    SixBits(f.header[6]);
    Wraps16((hi * 256 + lo) * 8);
  }

  /** Header bytes that decide whether two fragments belong together: addresses and identification. */
  predicate SameDatagram(h: seq<u8>, g: seq<u8>)
    requires |h| >= IPH_LEN && |g| >= IPH_LEN
  {
    h[12..20] == g[12..20] && h[4..6] == g[4..6]
  }

  /** Identification (bytes 4 and 5), source and destination (bytes 12 to 19) decide, and nothing else. */
  lemma SameDatagramExactly(h: seq<u8>, g: seq<u8>)
    requires |h| == IPH_LEN && |g| == IPH_LEN
    ensures SameDatagram(h, g) <==> forall i | 4 <= i < 6 || 12 <= i < 20 :: h[i] == g[i]
  {
    if SameDatagram(h, g) {
      forall i | 4 <= i < 6 || 12 <= i < 20 ensures h[i] == g[i] {
        if i < 6 { assert h[4..6][i - 4] == g[4..6][i - 4]; } else { assert h[12..20][i - 12] == g[12..20][i - 12]; }
      }
    }
  }

  /** The flag of value 0x20 in byte 6 of the header (section 3.1 of RFC 791). */
  lemma MoreFragmentsBit(f: Fragment)
    requires f.Ok()
    ensures f.MoreFragments() <==> (f.header[6] as bv8) & 0x20 != 0
  {
  }

  /** The fragment's block range. */
  predicate Covers(f: Fragment, k: nat)
    requires f.Ok()
  {
    f.Offset() / 8 <= k < f.End() / 8
  }

  // ---------------------------------------------------------------- what the guard lets through

  /** The test before the copy: offset and end, in 16 bits, are at most UIP_REASS_BUFSIZE. */
  predicate PassesGuard(f: Fragment, size: nat)
    requires f.Ok()
  {
    f.Offset() <= size && f.End() <= size
  }

  /** In the header's own terms: the offset of section 3.1 of RFC 791, and length field less header behind it, both in 16 bits. */
  lemma GuardExactly(f: Fragment, size: u16)
    requires f.Ok()
    ensures var at := 8 * ((f.header[6] % 32) as int * 256 + f.header[7]);
            PassesGuard(f, size) <==> at <= size && (at + |f.payload|) % 0x1_0000 <= size
  {
    hide Fragment.Offset;
    OffsetIgnoresFlags(f);
  }

  /** The bytes of uip_reassbuf that the copy writes. */
  predicate CopyWrites(f: Fragment, i: nat)
    requires f.Ok()
  {
    IPH_LEN + f.Offset() <= i < IPH_LEN + f.Offset() + |f.payload|
  }

  /** The bytes of uip_reassbitmap that the marking writes. */
  predicate MarkWrites(f: Fragment, j: nat)
    requires f.Ok()
  {
    j == f.Offset() / 64 || j == f.End() / 64 || f.Offset() / 64 < j < f.End() / 64
  }

  ghost predicate StaysInside(f: Fragment, size: nat)
    requires f.Ok()
  {
    (forall i: nat | CopyWrites(f, i) :: i < size) && (forall j: nat | MarkWrites(f, j) :: j < size / 64)
  }

  /** The condition on offset and length under which buffer and bitmap are large enough. */
  predicate Fits(f: Fragment, size: nat)
    requires f.Ok()
  {
    && (f.payload != [] ==> IPH_LEN + f.Offset() + |f.payload| <= size)
    && (f.Offset() + |f.payload|) / 64 < size / 64
  }

  /**
   * A fragment that passes the guard is written inside buffer and bitmap exactly when it
   * fits. If the buffer size leaves less than a header modulo 64, the copy alone decides.
   */
  lemma InsideExactlyWhen(f: Fragment, size: u16)
    requires f.Ok() && PassesGuard(f, size)
    ensures StaysInside(f, size) <==> Fits(f, size)
    ensures size % 64 < IPH_LEN && f.payload != [] ==>
              (Fits(f, size) <==> IPH_LEN + f.Offset() + |f.payload| <= size)
  {
    hide Fragment.Offset;
    hide Fragment.End;
    EndWraps(f);
    var last := IPH_LEN + f.Offset() + |f.payload| - 1;
    if f.payload != [] { assert CopyWrites(f, last); }
    assert MarkWrites(f, f.Offset() / 64) && MarkWrites(f, f.End() / 64);
  }

  lemma RangeOfFitting(f: Fragment, size: u16)
    requires f.Ok() && Fits(f, size)
    ensures f.Offset() / 8 <= f.End() / 8 && f.End() / 8 / 8 < size / 64
    ensures f.payload != [] ==> IPH_LEN + f.Offset() + |f.payload| <= size
  {
    hide Fragment.Offset;
    hide Fragment.End;
    EndWraps(f);
    assert f.Offset() + |f.payload| < 0x1_0000;
  }

  /** A header with the given length field and offset in blocks, More Fragments set. */
  function HeaderOf(len: u16, block: u8): (h: seq<u8>)
    ensures |h| == IPH_LEN && h[2] == len / 256 && h[3] == len % 256 && h[6] == 32 && h[7] == block
  {
    [0x45, 0, len / 256, len % 256, 0, 0, 32, block, 64, 17, 0, 0, 0, 0, 0, 0, 0, 0, 0, 0]
  }

  /** The length field of a fragment; the code drops packets that are shorter than it says. */
  function LengthField(f: Fragment): u16
    requires f.Ok()
  {
    f.header[2] as int * 256 + f.header[3]
  }

  /**
   * A packet that fits the packet buffer and starts a datagram is copied inside: the
   * header bytes that the guard forgets matter only behind offset 0.
   */
  lemma FirstFragmentCopied(f: Fragment, size: u16)
    requires f.Ok() && f.Offset() == 0 && IPH_LEN <= LengthField(f) <= size
    ensures PassesGuard(f, size) && (f.payload != [] ==> IPH_LEN + f.Offset() + |f.payload| <= size)
  {
    hide Fragment.Offset;
    hide Fragment.End;
    EndWraps(f);
    Wraps16(LengthField(f) - IPH_LEN);
  }

  /**
   * Three fragments that a packet buffer of 1010 bytes (1024 less the link header) can hold
   * and the guard lets through: 946 bytes at offset 64 run over the reassembly buffer by 20,
   * 968 bytes touch a 16th byte of the 15-byte bitmap, and a length field of 0 copies 65516 bytes.
   */
  lemma GuardTooWeak()
    ensures var f := Fragment(HeaderOf(966, 8), seq(946, _ => 0));
            f.Ok() && LengthField(f) <= 1010 && PassesGuard(f, 1010) && CopyWrites(f, 1029) && !StaysInside(f, 1010)
    ensures var f := Fragment(HeaderOf(988, 0), seq(968, _ => 0));
            f.Ok() && LengthField(f) <= 1010 && PassesGuard(f, 1010) && MarkWrites(f, 15) && !StaysInside(f, 1010)
    ensures var f := Fragment(HeaderOf(0, 8), seq(65516, _ => 0));
            f.Ok() && LengthField(f) <= 1010 && PassesGuard(f, 1010) && CopyWrites(f, 65599) && !StaysInside(f, 1010)
  {
    var f, g, h := Fragment(HeaderOf(966, 8), seq(946, _ => 0)), Fragment(HeaderOf(988, 0), seq(968, _ => 0)),
                   Fragment(HeaderOf(0, 8), seq(65516, _ => 0));
    OffsetIgnoresFlags(f);
    OffsetIgnoresFlags(g);
    OffsetIgnoresFlags(h);
    assert f.Offset() == 64 && g.Offset() == 0 && h.Offset() == 64 && h.End() == 44;
    assert CopyWrites(f, 1029) && MarkWrites(g, 15) && CopyWrites(h, 65599);
  }

  /** What adding a fragment does to buffer and bitmap. */
  ghost predicate Added(buf: seq<u8>, bitmap: seq<bv8>, f: Fragment, buf': seq<u8>, bitmap': seq<bv8>)
    requires f.Ok()
  {
    var at := IPH_LEN + f.Offset();
    && |buf'| == |buf| && |bitmap'| == |bitmap| && (f.payload != [] ==> at + |f.payload| <= |buf|)
    && (forall k: nat :: Marked(bitmap', k) <==> Marked(bitmap, k) || Covers(f, k))
    && (forall i | at <= i < at + |f.payload| :: buf'[i] == f.payload[i - at])
    && (forall i | 0 <= i < |buf| && !(at <= i < at + |f.payload|) :: buf'[i] == buf[i])
  }

  class Reassembler {
    const buf: array<u8>
    const bitmap: array<bv8>
    var timer: u8
    var lastSeen: bool
    var total: u16

    constructor (size: u16)
      requires IPH_LEN <= size
      ensures buf.Length == size as int && bitmap.Length == size / 64 && timer == 0
      ensures fresh(buf) && fresh(bitmap)
    {
      buf := new u8[size](_ => 0);
      bitmap := new bv8[size / 64](_ => 0);
      timer, lastSeen, total := 0, false, 0;
    }

    ghost predicate Valid() { IPH_LEN <= buf.Length < 0x1_0000 && bitmap.Length == buf.Length / 64 }

    /** Mark the blocks s .. e-1. */
    method Mark(s: nat, e: nat)
      requires s <= e && e / 8 < bitmap.Length
      modifies bitmap
      ensures forall k: nat :: Marked(bitmap[..], k) <==> Marked(old(bitmap[..]), k) || s <= k < e
    {
      hide BitSet;
      hide TailBits;
      hide Or;
      hide AndNot;
      var first, last := s / 8, e / 8;
      if first == last {
        bitmap[first] := Or(bitmap[first], AndNot(TailBits(s % 8), TailBits(e % 8)));
      } else {
        bitmap[first] := Or(bitmap[first], TailBits(s % 8));
        var i := first + 1;
        while i < last
          invariant first < i <= last
          invariant bitmap[first] == Or(old(bitmap[first]), TailBits(s % 8))
          invariant forall j | first < j < i :: bitmap[j] == 0xff
          invariant forall j | 0 <= j < bitmap.Length && !(first <= j < i) :: bitmap[j] == old(bitmap[j])
        {
          bitmap[i] := 0xff;
          i := i + 1;
        }
        bitmap[last] := Or(bitmap[last], AndNot(0xff, TailBits(e % 8)));
      }
      forall k: nat ensures Marked(bitmap[..], k) <==> Marked(old(bitmap[..]), k) || s <= k < e {
        if k / 8 < bitmap.Length {
          ByteMarked(old(bitmap[k / 8]), bitmap[k / 8], s, e, k);
        }
      }
    }

    /** memcpy of a byte string into the buffer. */
    method Copy(at: nat, bytes: seq<u8>)
      requires bytes != [] ==> at + |bytes| <= buf.Length
      modifies buf
      ensures forall i | at <= i < at + |bytes| :: buf[i] == bytes[i - at]
      ensures forall i | 0 <= i < buf.Length && !(at <= i < at + |bytes|) :: buf[i] == old(buf[i])
    {
      var k := 0;
      while k < |bytes|
        invariant 0 <= k <= |bytes|
        invariant forall i | at <= i < at + k :: buf[i] == bytes[i - at]
        invariant forall i | 0 <= i < buf.Length && !(at <= i < at + k) :: buf[i] == old(buf[i])
      {
        buf[at + k] := bytes[k];
        k := k + 1;
      }
    }

    /** The first fragment after the timer has run out: its header is kept and the bitmap cleared. */
    method Begin(f: Fragment)
      requires Valid() && f.Ok()
      modifies this, buf, bitmap
      ensures timer == 40 && !lastSeen
      ensures buf[..IPH_LEN] == f.header && forall k: nat :: !Marked(bitmap[..], k)
    {
      Copy(0, f.header);
      timer, lastSeen := 40, false;
      var i := 0;
      while i < bitmap.Length
        modifies bitmap
        invariant 0 <= i <= bitmap.Length
        invariant forall j | 0 <= j < i :: bitmap[j] == 0
      {
        bitmap[i] := 0;
        i := i + 1;
      }
      forall k: nat ensures !Marked(bitmap[..], k) { FullByte(k % 8); }
    }

    /** The fragment's data copied and its blocks marked. */
    method Place(f: Fragment)
      requires Valid() && f.Ok() && Fits(f, buf.Length)
      modifies buf, bitmap
      ensures Added(old(buf[..]), old(bitmap[..]), f, buf[..], bitmap[..])
    {
      hide Marked;
      hide Fits;
      RangeOfFitting(f, buf.Length);
      Copy(IPH_LEN + f.Offset(), f.payload);
      Mark(f.Offset() / 8, f.End() / 8);
    }

    /**
     * uip_reass up to the completion test: a fragment of the datagram in the buffer is
     * copied and marked, one that reaches beyond the buffer abandons the datagram. `inside`
     * is false if the code would write outside its buffers; nothing is promised from there on.
     */
    method AddFragment(f: Fragment) returns (inside: bool)
      requires Valid() && f.Ok()
      modifies this, buf, bitmap
      ensures inside <==>
                ((old(timer) == 0 || SameDatagram(f.header, old(buf[..]))) && PassesGuard(f, buf.Length) ==> StaysInside(f, buf.Length))
      // a fragment of the datagram being collected
      ensures inside && old(timer) != 0 && SameDatagram(f.header, old(buf[..])) && PassesGuard(f, buf.Length) ==>
                && Added(old(buf[..]), old(bitmap[..]), f, buf[..], bitmap[..]) && timer == old(timer)
                && lastSeen == (old(lastSeen) || !f.MoreFragments())
                && total == (if f.MoreFragments() then old(total) else f.End())
      // the first fragment of a datagram, added to an empty bitmap
      ensures inside && old(timer) == 0 && PassesGuard(f, buf.Length) ==>
                timer == 40 && lastSeen == !f.MoreFragments() && First(f, buf[..], bitmap[..])
      // a fragment of another datagram
      ensures old(timer) != 0 && !SameDatagram(f.header, old(buf[..])) ==>
                buf[..] == old(buf[..]) && bitmap[..] == old(bitmap[..]) && timer == old(timer)
      // a fragment that the guard rejects
      ensures (old(timer) == 0 || SameDatagram(f.header, old(buf[..]))) && !PassesGuard(f, buf.Length) ==>
                timer == 0
    {
      hide Marked;
      hide Added;
      hide First;
      hide SameDatagram;
      hide StaysInside;
      hide Fits;
      inside := true;
      ghost var first := timer == 0;
      if timer == 0 {
        Begin(f);
        SameAsHeader(f, buf[..]);
      }
      ghost var b0, m0 := buf[..], bitmap[..];
      if SameDatagram(f.header, buf[..]) {
        if f.Offset() > buf.Length || f.End() > buf.Length {
          timer := 0;
          return;
        }
        InsideExactlyWhen(f, buf.Length);
        if !Fits(f, buf.Length) {
          return false;
        }
        Place(f);
        if first {
          FirstPlaced(f, b0, m0, buf[..], bitmap[..]);
        }
        if !f.MoreFragments() {
          lastSeen := true;
          total := f.End();
        }
      }
    }
  }

  /** The buffer holds the header of `f`, and nothing but `f` is marked. */
  ghost predicate First(f: Fragment, buf: seq<u8>, bitmap: seq<bv8>)
    requires f.Ok()
  {
    && |buf| >= IPH_LEN && SameDatagram(f.header, buf)
    && exists b, m :: (forall k: nat :: !Marked(m, k)) && Added(b, m, f, buf, bitmap)
  }

  lemma SameAsHeader(f: Fragment, buf: seq<u8>)
    requires f.Ok() && |buf| >= IPH_LEN && buf[..IPH_LEN] == f.header
    ensures SameDatagram(f.header, buf)
  {
    assert buf[..IPH_LEN][12..20] == buf[12..20] && buf[..IPH_LEN][4..6] == buf[4..6];
  }

  lemma FirstPlaced(f: Fragment, b: seq<u8>, m: seq<bv8>, buf: seq<u8>, bitmap: seq<bv8>)
    requires f.Ok() && |b| >= IPH_LEN && b[..IPH_LEN] == f.header
    requires (forall k: nat :: !Marked(m, k)) && Added(b, m, f, buf, bitmap)
    ensures First(f, buf, bitmap)
  {
    hide Marked;
    SameAsHeader(f, b);
    SameHeader(b, buf);
  }

  /** What Mark writes into the byte of block `k`. */
  predicate ByteWritten(before: bv8, after: bv8, s: nat, e: nat, j: nat) {
    var first, last := s / 8, e / 8;
    if first == last then
      after == if j == first then Or(before, AndNot(TailBits(s % 8), TailBits(e % 8))) else before
    else if j == first then after == Or(before, TailBits(s % 8))
    else if j == last then after == Or(before, AndNot(0xff, TailBits(e % 8)))
    else after == if first < j < last then 0xff else before
  }

  lemma ByteMarked(before: bv8, after: bv8, s: nat, e: nat, k: nat)
    requires s <= e && ByteWritten(before, after, s, e, k / 8)
    ensures BitSet(after, k % 8) <==> BitSet(before, k % 8) || s <= k < e
  {
    hide BitSet;
    hide TailBits;
    hide Or;
    hide AndNot;
    RangeBits(s % 8, e % 8, k % 8);
    TailBit(s % 8, k % 8);
    FullByte(k % 8);
    OrBit(before, TailBits(s % 8), k % 8);
    OrBit(before, AndNot(0xff, TailBits(e % 8)), k % 8);
    OrBit(before, AndNot(TailBits(s % 8), TailBits(e % 8)), k % 8);
  }

  // ---------------------------------------------------------------- whole datagrams

  /** `f` carries a stretch of the datagram with data `d`. */
  predicate PartOf(d: seq<u8>, f: Fragment)
    requires f.Ok()
  {
    f.Offset() + |f.payload| <= |d| < 0x1_0000 && f.payload == d[f.Offset()..f.Offset() + |f.payload|]
  }

  /** Block `k` of the buffer holds block `k` of the datagram. */
  predicate BlockIs(buf: seq<u8>, d: seq<u8>, k: nat) {
    && IPH_LEN + 8 * k + 8 <= |buf| && 8 * k + 8 <= |d|
    && forall i | 8 * k <= i < 8 * k + 8 :: buf[IPH_LEN + i] == d[i]
  }

  /** The marks are the union of the fragments' ranges and every marked block is right. */
  ghost predicate Collected(d: seq<u8>, frags: seq<Fragment>, buf: seq<u8>, bitmap: seq<bv8>)
    requires forall j | 0 <= j < |frags| :: frags[j].Ok()
  {
    forall k: nat ::
      && (Marked(bitmap, k) <==> exists j | 0 <= j < |frags| :: Covers(frags[j], k))
      && (Marked(bitmap, k) ==> BlockIs(buf, d, k))
  }

  /** A covered block lies inside the fragment's data. */
  lemma BlockInData(d: seq<u8>, f: Fragment, k: nat)
    requires f.Ok() && PartOf(d, f) && Covers(f, k)
    ensures f.Offset() <= 8 * k && 8 * k + 8 <= f.Offset() + |f.payload|
  {
    hide Fragment.Offset;
    hide Fragment.End;
    OffsetIgnoresFlags(f);
    EndWraps(f);
  }

  lemma BlockAfter(d: seq<u8>, buf: seq<u8>, bitmap: seq<bv8>, f: Fragment, buf': seq<u8>, bitmap': seq<bv8>, k: nat)
    requires f.Ok() && PartOf(d, f) && Added(buf, bitmap, f, buf', bitmap')
    requires Covers(f, k) || BlockIs(buf, d, k)
    ensures BlockIs(buf', d, k)
  {
    hide Covers;
    hide Marked;
    if Covers(f, k) { BlockInData(d, f, k); }
    var at := f.Offset();
    forall i | 8 * k <= i < 8 * k + 8 ensures IPH_LEN + i < |buf'| && buf'[IPH_LEN + i] == d[i] {
      if at <= i < at + |f.payload| {
        assert buf'[IPH_LEN + i] == f.payload[i - at] == d[i];
      } else {
        assert buf'[IPH_LEN + i] == buf[IPH_LEN + i];
      }
    }
  }

  /** One more fragment of the datagram keeps both. */
  lemma CollectOne(d: seq<u8>, frags: seq<Fragment>, f: Fragment, buf: seq<u8>, bitmap: seq<bv8>, buf': seq<u8>, bitmap': seq<bv8>)
    requires (forall j | 0 <= j < |frags| :: frags[j].Ok()) && f.Ok() && PartOf(d, f)
    requires Collected(d, frags, buf, bitmap) && Added(buf, bitmap, f, buf', bitmap')
    ensures Collected(d, frags + [f], buf', bitmap')
  {
    var more := frags + [f];
    hide Marked;
    forall k: nat
      ensures Marked(bitmap', k) <==> exists j | 0 <= j < |more| :: Covers(more[j], k)
      ensures Marked(bitmap', k) ==> BlockIs(buf', d, k)
    {
      assert more[|frags|] == f;
      assert forall j | 0 <= j < |frags| :: more[j] == frags[j];
      assert Marked(bitmap', k) <==> Marked(bitmap, k) || Covers(f, k);
      if Marked(bitmap', k) {
        BlockAfter(d, buf, bitmap, f, buf', bitmap', k);
      }
    }
  }

  /**
   * Any sequence of fragments of one datagram: the marks are exactly the union of the
   * block ranges, and every marked block holds the datagram's bytes.
   */
  lemma {:induction false} CollectAll(d: seq<u8>, frags: seq<Fragment>, bufs: seq<seq<u8>>, bitmaps: seq<seq<bv8>>)
    requires forall j | 0 <= j < |frags| :: frags[j].Ok() && PartOf(d, frags[j])
    requires |bufs| == |frags| + 1 && |bitmaps| == |frags| + 1
    requires forall k: nat :: !Marked(bitmaps[0], k)
    requires forall j | 0 <= j < |frags| :: Added(bufs[j], bitmaps[j], frags[j], bufs[j + 1], bitmaps[j + 1])
    ensures Collected(d, frags, bufs[|frags|], bitmaps[|frags|])
    decreases |frags|
  {
    hide Added;
    if frags != [] {
      var n := |frags| - 1;
      CollectAll(d, frags[..n], bufs[..n + 1], bitmaps[..n + 1]);
      assert frags == frags[..n] + [frags[n]];
      CollectOne(d, frags[..n], frags[n], bufs[n], bitmaps[n], bufs[n + 1], bitmaps[n + 1]);
    }
  }

  /**
   * The fragments of one datagram, in any order and with repetitions, handed to an idle
   * reassembler before its timer runs out.
   */
  method Collect(r: Reassembler, ghost d: seq<u8>, frags: seq<Fragment>)
    requires r.Valid() && r.timer == 0 && frags != []
    requires frags[0].Ok() && forall j | 0 <= j < |frags| :: frags[j].Ok()
    requires forall j | 0 <= j < |frags| ::
               && PartOf(d, frags[j]) && SameDatagram(frags[j].header, frags[0].header)
               && PassesGuard(frags[j], r.buf.Length) && Fits(frags[j], r.buf.Length)
    modifies r, r.buf, r.bitmap
    ensures Collected(d, frags, r.buf[..], r.bitmap[..])
  {
    hide Marked;
    hide Covers;
    InsideExactlyWhen(frags[0], r.buf.Length);
    var inside := r.AddFragment(frags[0]);
    ghost var b0, m0 :| (forall k: nat :: !Marked(m0, k)) && Added(b0, m0, frags[0], r.buf[..], r.bitmap[..]);
    assert Collected(d, [], b0, m0);
    CollectOne(d, [], frags[0], b0, m0, r.buf[..], r.bitmap[..]);
    assert frags[..1] == [] + [frags[0]];
    var j := 1;
    while j < |frags|
      invariant 1 <= j <= |frags| && r.timer != 0 && r.Valid()
      invariant SameDatagram(frags[0].header, r.buf[..])
      invariant Collected(d, frags[..j], r.buf[..], r.bitmap[..])
    {
      ghost var b, m := r.buf[..], r.bitmap[..];
      InsideExactlyWhen(frags[j], r.buf.Length);
      inside := r.AddFragment(frags[j]);
      CollectOne(d, frags[..j], frags[j], b, m, r.buf[..], r.bitmap[..]);
      SameHeader(b, r.buf[..]);
      assert frags[..j + 1] == frags[..j] + [frags[j]];
      j := j + 1;
    }
    assert frags[..|frags|] == frags;
  }

  lemma SameHeader(b: seq<u8>, c: seq<u8>)
    requires |b| == |c| >= IPH_LEN && forall i | 0 <= i < IPH_LEN :: c[i] == b[i]
    ensures SameDatagram(b, c)
  {
  }
}
