/** The packet buffer: header checksums written in place, and what a receiver tests. */
module NetBuffer {
  import opened Words
  import opened Checksum

  const IPH_LEN: nat := 20
  const TCPIP_HLEN: nat := 40
  const PROTO_ICMP: u8 := 1
  const PROTO_TCP: u8 := 6

  // ---------------------------------------------------------------- the tests of uip_process
  // `d` holds a packet whose IP header starts at `b`.

  predicate HasHeader(d: seq<u8>, b: nat) { b + IPH_LEN <= |d| }

  /** The length field of the IP header. */
  function LenField(d: seq<u8>, b: nat): u16
    requires HasHeader(d, b)
  {
    Pair(d[b + 2], d[b + 3])
  }

  /** uip_ipchksum() == 0xffff. */
  predicate IpAccepts(d: seq<u8>, b: nat)
    requires HasHeader(d, b)
  {
    Returned(Fold(WordSum(d, b, b + IPH_LEN))) == 0xffff
  }

  /** The length field covers the IP header and lies inside the buffer. */
  predicate LenOk(d: seq<u8>, b: nat) {
    HasHeader(d, b) && IPH_LEN <= LenField(d, b) && b + LenField(d, b) <= |d|
  }

  /** The length behind the IP header as 16 bits hold it; a length field below a header wraps. */
  function UpperLen(d: seq<u8>, b: nat): u16
    requires HasHeader(d, b)
  {
    (LenField(d, b) - IPH_LEN) % 0x1_0000
  }

  /** The bytes that upper_layer_chksum reads lie inside the buffer. */
  predicate Readable(d: seq<u8>, b: nat) { HasHeader(d, b) && b + IPH_LEN + UpperLen(d, b) <= |d| }

  /** Pseudo-header, TCP header and data. */
  function UpperSum(d: seq<u8>, b: nat, proto: u8): nat
    requires Readable(d, b)
  {
    (UpperLen(d, b) + proto) % 0x1_0000
    + WordSum(d, b + 12, b + 20) + WordSum(d, b + IPH_LEN, b + IPH_LEN + UpperLen(d, b))
  }

  /** A length field below a header makes the sum run on for almost 64K behind the header. */
  lemma ReadableExactlyWhen(d: seq<u8>, b: nat)
    requires HasHeader(d, b)
    ensures Readable(d, b) <==> LenOk(d, b) || (LenField(d, b) < IPH_LEN && b + 0x1_0000 + LenField(d, b) <= |d|)
    ensures LenOk(d, b) ==> IPH_LEN + UpperLen(d, b) == LenField(d, b)
  {
    var n := LenField(d, b);
    if n < IPH_LEN { assert (n - IPH_LEN) % 0x1_0000 == n - IPH_LEN + 0x1_0000; }
  }

  /** uip_tcpchksum() == 0xffff. */
  predicate TcpAccepts(d: seq<u8>, b: nat)
    requires LenOk(d, b)
  {
    Returned(Fold(UpperSum(d, b, PROTO_TCP))) == 0xffff
  }

  /** The pseudo-header of section 3.1 of RFC 9293, and the segment behind it. */
  function Covered(d: seq<u8>, b: nat, proto: u8): (s: seq<u8>)
    requires Readable(d, b)
    ensures |s| == 12 + UpperLen(d, b)
  {
    var n := UpperLen(d, b);
    d[b + 12..b + 16] + d[b + 16..b + 20] + [0, proto, n / 256, n % 256] + d[b + 20..b + 20 + n]
  }

  /** The words of these bytes add up to 0 in one's complement. */
  predicate SumsToZero(s: seq<u8>) { WordSum(s, 0, |s|) % 0xffff == 0 }

  /** The sum over the bytes covered, which one's complement sees as one more if the code's first addition carries. */
  lemma CoveredSum(d: seq<u8>, b: nat, proto: u8)
    requires Readable(d, b)
    ensures var s := Covered(d, b, proto);
            WordSum(s, 0, |s|) == UpperSum(d, b, proto) + (if UpperLen(d, b) + proto >= 0x1_0000 then 0x1_0000 else 0)
  {
    hide WordSum;
    hide UpperLen;
    hide Even;
    var s, n := Covered(d, b, proto), UpperLen(d, b);
    EvenPrefixes();
    WordSumSplit(s, 0, 12, 12 + n);
    WordSumSplit(s, 0, 8, 12);
    OneMoreWord(s, 8, 8);
    OneMoreWord(s, 8, 10);
    EmptySum(s, 8);
    WordSumMoved(d, b + 12, b + 20, s, 0);
    WordSumMoved(d, b + 20, b + 20 + n, s, 12);
    Wraps16(n + proto);
    assert Pair(s[8], s[9]) == proto as int && Pair(s[10], s[11]) == n;
  }

  lemma EmptySum(d: seq<u8>, at: nat)
    requires at <= |d|
    ensures WordSum(d, at, at) == 0
  {
  }

  lemma EvenPrefixes()
    ensures Even(0 - 0) && Even(2) && Even(8 - 0) && Even(12 - 0) && Even(10 - 8) && Even(8 - 8)
  {
  }

  lemma UpperTestMeans(d: seq<u8>, b: nat, proto: u8)
    requires Readable(d, b)
    ensures Returned(Fold(UpperSum(d, b, proto))) == 0xffff <==>
              var s := Covered(d, b, proto);
              WordSum(s, 0, |s|) % 0xffff == if UpperLen(d, b) + proto >= 0x1_0000 then 1 else 0
  {
    hide WordSum;
    hide Fold;
    hide Returned;
    hide Covered;
    CoveredSum(d, b, proto);
    Verifies(UpperSum(d, b, proto));
    OneMore(UpperSum(d, b, proto));
  }

  lemma OneMore(n: nat)
    ensures (n + 0x1_0000) % 0xffff == 1 <==> n % 0xffff == 0
  {
    ModAdd(0x1_0000, 1, n);
    var q, r := n / 0xffff, n % 0xffff;
    assert n == q * 0xffff + r;
    if r + 1 == 0xffff { assert n + 1 == (q + 1) * 0xffff; } else { assert n + 1 == q * 0xffff + (r + 1); }
  }

  /** The test of section 3.1 of RFC 9293. */
  predicate TcpSumsToZero(d: seq<u8>, b: nat)
    requires LenOk(d, b)
  {
    ReadableExactlyWhen(d, b);
    SumsToZero(Covered(d, b, PROTO_TCP))
  }

  /** The TCP test is that one. */
  lemma TcpTestMeans(d: seq<u8>, b: nat)
    requires LenOk(d, b)
    ensures TcpAccepts(d, b) <==> TcpSumsToZero(d, b)
  {
    ReadableExactlyWhen(d, b);
    hide WordSum;
    hide Fold;
    hide Returned;
    hide Covered;
    CoveredSum(d, b, PROTO_TCP);
    Verifies(UpperSum(d, b, PROTO_TCP));
  }

  /** A packet that the input side accepts. */
  predicate Accepted(p: seq<u8>) {
    LenOk(p, 0) && LenField(p, 0) == |p| && IpAccepts(p, 0) && TcpAccepts(p, 0)
  }

  /** A stretch of a packet is a stretch of the buffer it lies in. */
  lemma SubSlice(e: seq<u8>, b: nat, q: seq<u8>, i: nat, j: nat)
    requires b + |q| <= |e| && q == e[b..b + |q|] && i <= j <= |q|
    ensures q[i..j] == e[b + i..b + j]
  {
    var x, y := q[i..j], e[b + i..b + j];
    forall k | 0 <= k < j - i ensures x[k] == y[k] {
      assert q[i + k] == e[b + i + k];
    }
  }

  lemma FoldFold(n: nat, t: nat)
    ensures Fold(Fold(n) + t) == Fold(n + t)
  {
    FoldMeans(n);
    FoldMeans(n + t);
    FoldMeans(Fold(n) + t);
    ModAdd(Fold(n), n, t);
    FoldUnique(n + t, Fold(Fold(n) + t));
  }

  /**
   * "This addition cannot carry": when protocol and length do. A length field of at least a
   * header carries only for protocols above 20 and lengths near 64K, a shorter one as soon
   * as it makes up for the protocol.
   */
  lemma CarriesExactlyWhen(len: u16, proto: u8)
    ensures (len - IPH_LEN) % 0x1_0000 + proto >= 0x1_0000 <==>
              if len < IPH_LEN then len + proto >= IPH_LEN else len + proto >= 0x1_0000 + IPH_LEN
    ensures proto == PROTO_TCP ==> ((len - IPH_LEN) % 0x1_0000 + proto >= 0x1_0000 <==> 14 <= len < 20)
  {
    if len < IPH_LEN { assert (len - IPH_LEN) % 0x1_0000 == len - IPH_LEN + 0x1_0000; }
  }

  /** The tests look only at the packet itself, wherever it lies. */
  lemma TestsMoved(d: seq<u8>, b: nat, e: seq<u8>, c: nat)
    requires LenOk(d, b) && c + LenField(d, b) <= |e|
    requires forall i | b <= i < b + LenField(d, b) :: d[i] == e[c + i - b]
    ensures LenOk(e, c) && LenField(e, c) == LenField(d, b)
    ensures IpAccepts(d, b) == IpAccepts(e, c) && TcpAccepts(d, b) == TcpAccepts(e, c)
  {
    hide WordSum;
    hide Fold;
    hide Returned;
    assert d[b + 2] == e[c + 2] && d[b + 3] == e[c + 3];
    WordSumMoved(d, b, b + 20, e, c);
    WordSumMoved(d, b + 12, b + 20, e, c + 12);
    WordSumMoved(d, b + 20, b + LenField(d, b), e, c + 20);
  }

  /** The TCP test does not look at the IP checksum. */
  lemma TcpTestKept(d: seq<u8>, e: seq<u8>, b: nat)
    requires LenOk(d, b) && |e| == |d|
    requires forall i | b <= i < |d| && i != b + 10 && i != b + 11 :: e[i] == d[i]
    ensures LenOk(e, b) && TcpAccepts(e, b) == TcpAccepts(d, b)
  {
    hide WordSum;
    hide Fold;
    hide Returned;
    WordSumMoved(d, b + 12, b + 20, e, b + 12);
    WordSumMoved(d, b + 20, b + LenField(d, b), e, b + 20);
  }

  /** Writing the complement of the sum into a zeroed aligned word makes the sum verify. */
  lemma FillCompletes(d: seq<u8>, e: seq<u8>, lo: nat, hi: nat, k: nat, rest: nat)
    requires |e| == |d| && lo <= k && k + 2 <= hi <= |d| && Even(k - lo)
    requires d[k] == 0 && d[k + 1] == 0
    requires forall i | lo <= i < hi && i != k && i != k + 1 :: e[i] == d[i]
    requires var v: u16 := 0xffff - Returned(Fold(rest + WordSum(d, lo, hi)));
             e[k] == LowByte(v) && e[k + 1] == HighByte(v)
    ensures Returned(Fold(rest + WordSum(e, lo, hi))) == 0xffff
  {
    hide WordSum;
    hide Fold;
    hide Returned;
    hide LowByte;
    hide HighByte;
    hide Even;
    WordSumPatched(d, e, lo, hi, k);
    ComplementCompletes(rest + WordSum(d, lo, hi));
    assert rest + WordSum(e, lo, hi) == rest + WordSum(d, lo, hi) + Pair(e[k], e[k + 1]);
    Verifies(rest + WordSum(e, lo, hi));
  }

  /** The TCP checksum written into a zeroed field. */
  lemma TcpFilled(d: seq<u8>, e: seq<u8>, b: nat)
    requires LenOk(d, b) && TCPIP_HLEN <= LenField(d, b) && |e| == |d| && d[b + 36] == 0 && d[b + 37] == 0
    requires forall i | b <= i < |d| && i != b + 36 && i != b + 37 :: e[i] == d[i]
    requires var v: u16 := 0xffff - Returned(Fold(UpperSum(d, b, PROTO_TCP))); e[b + 36] == LowByte(v) && e[b + 37] == HighByte(v)
    ensures LenOk(e, b) && LenField(e, b) == LenField(d, b) && TcpAccepts(e, b) && TcpSumsToZero(e, b)
  {
    hide WordSum;
    hide Fold;
    hide Returned;
    hide TcpSumsToZero;
    hide LowByte;
    hide HighByte;
    hide UpperLen;
    var n := LenField(d, b);
    EvenSixteen();
    ReadableExactlyWhen(d, b);
    ReadableExactlyWhen(e, b);
    WordSumMoved(d, b + 12, b + 20, e, b + 12);
    FillCompletes(d, e, b + 20, b + n, b + 36, (UpperLen(d, b) + PROTO_TCP) % 0x1_0000 + WordSum(d, b + 12, b + 20));
    TcpTestMeans(e, b);
  }

  lemma EvenSixteen()
    ensures Even(16)
  {
  }

  /** uip_buf with its link-level header, uip_len, uip_acc32, and what has been transmitted. */
  class Buffer {
    const llh: nat
    const buf: array<u8>
    const acc32: array<u8>
    var len: u16
    var sent: seq<seq<u8>>

    ghost predicate Valid()
      reads this
    {
      llh + 60 <= buf.Length && acc32.Length == 4 && acc32 != buf
    }

    /** The packet in the buffer. */
    function Packet(): seq<u8>
      requires llh + len <= buf.Length
      reads this, buf
    {
      buf[llh..llh + len]
    }

    method Store16(at: nat, v: u16)
      requires at + 2 <= buf.Length
      modifies buf
      ensures buf[at] == LowByte(v) && buf[at + 1] == HighByte(v)
      ensures forall i | 0 <= i < buf.Length && i != at && i != at + 1 :: buf[i] == old(buf[i])
    {
      buf[at] := LowByte(v);
      buf[at + 1] := HighByte(v);
    }

    method IpChksum() returns (r: u16)
      requires Valid()
      ensures r == Returned(Fold(WordSum(buf[..], llh, llh + IPH_LEN)))
    {
      var sum := Chksum(0, buf, llh, 20);
      r := if sum == 0 then 0xffff else Htons(sum);
    }

    method UpperLayerChksum(proto: u8) returns (r: u16)
      requires Valid() && Readable(buf[..], llh)
      // it verifies exactly if pseudo-header and segment add up to zero, or to one if length and protocol carry
      ensures r == 0xffff <==>
                var s := Covered(buf[..], llh, proto);
                WordSum(s, 0, |s|) % 0xffff == if UpperLen(buf[..], llh) + proto >= 0x1_0000 then 1 else 0
      ensures r == Returned(Fold(UpperSum(buf[..], llh, proto)))
    {
      hide WordSum;
      hide Fold;
      hide Covered;
      UpperTestMeans(buf[..], llh, proto);
      var upperLen: u16 := (Pair(buf[llh + 2], buf[llh + 3]) as int - 20) % 0x1_0000;
      var sum: u16 := (upperLen + proto) % 0x1_0000;
      ghost var n0 := sum;
      sum := Chksum(sum, buf, llh + 12, 8);
      FoldFold(n0 + WordSum(buf[..], llh + 12, llh + 20), WordSum(buf[..], llh + 20, llh + 20 + upperLen));
      sum := Chksum(sum, buf, llh + 20, upperLen);
      r := if sum == 0 then 0xffff else Htons(sum);
    }

    /** ipchksum = 0; ipchksum = ~uip_ipchksum(). */
    method FillIpChksum()
      requires Valid()
      modifies buf
      ensures IpAccepts(buf[..], llh)
      ensures forall i | 0 <= i < buf.Length && i != llh + 10 && i != llh + 11 :: buf[i] == old(buf[i])
    {
      hide WordSum;
      hide Fold;
      hide Returned;
      Store16(llh + 10, 0);
      ghost var zeroed := buf[..];
      var r := IpChksum();
      Store16(llh + 10, 0xffff - r);
      FillCompletes(zeroed, buf[..], llh, llh + 20, llh + 10, 0);
    }

    /** tcpchksum = 0; tcpchksum = ~uip_tcpchksum(). */
    method FillTcpChksum()
      requires Valid() && LenOk(buf[..], llh) && TCPIP_HLEN <= LenField(buf[..], llh)
      modifies buf
      ensures LenOk(buf[..], llh) && LenField(buf[..], llh) == old(LenField(buf[..], llh))
      ensures TcpAccepts(buf[..], llh) && TcpSumsToZero(buf[..], llh)
      ensures forall i | 0 <= i < buf.Length && i != llh + 36 && i != llh + 37 :: buf[i] == old(buf[i])
    {
      hide WordSum;
      hide Fold;
      hide Returned;
      hide TcpSumsToZero;
      hide TcpAccepts;
      hide UpperSum;
      Store16(llh + 36, 0);
      ghost var zeroed := buf[..];
      var r := UpperLayerChksum(PROTO_TCP);
      Store16(llh + 36, 0xffff - r);
      TcpFilled(zeroed, buf[..], llh);
    }

    /** Set uip_len and the length field of the IP header. */
    method SetLength(n: u16)
      requires Valid()
      modifies this`len, buf
      ensures len == n && LenField(buf[..], llh) == n
      ensures forall i | 0 <= i < buf.Length && i != llh + 2 && i != llh + 3 :: buf[i] == old(buf[i])
    {
      len := n;
      buf[llh + 2] := n / 256;
      buf[llh + 3] := n % 256;
    }

    /** tcpip_output(): hand the packet to the link. */
    method Transmit()
      requires llh + len <= buf.Length
      modifies this`sent
      ensures sent == old(sent) + [Packet()]
    {
      sent := sent + [buf[llh..llh + len]];
    }

    /** memcpy towards lower addresses, byte by byte in ascending order. */
    method CopyDown(dst: nat, src: nat, n: nat)
      requires dst <= src && src + n <= buf.Length
      modifies buf
      ensures forall i | dst <= i < dst + n :: buf[i] == old(buf[i - dst + src])
      ensures forall i | 0 <= i < buf.Length && !(dst <= i < dst + n) :: buf[i] == old(buf[i])
    {
      var k := 0;
      while k < n
        invariant 0 <= k <= n
        invariant forall i | dst <= i < dst + k :: buf[i] == old(buf[i - dst + src])
        invariant forall i | 0 <= i < buf.Length && !(dst <= i < dst + k) :: buf[i] == old(buf[i])
      {
        buf[dst + k] := buf[src + k];
        k := k + 1;
      }
    }
  }
}
