/** uip_split_output: a full-sized TCP segment leaves as two segments with the same stream. */
module Split {
  import opened Words
  import opened Checksum
  import opened NetBuffer
  import opened Sequence

  /** The header bytes that both halves keep: all but lengths, checksums and sequence number. */
  predicate Kept(i: nat) {
    i < TCPIP_HLEN && i != 2 && i != 3 && i != 10 && i != 11 && i != 36 && i != 37 && !(24 <= i < 28)
  }

  /** `first` and `second` carry the data of `p` on from its sequence number. */
  ghost predicate Halves(p: seq<u8>, first: seq<u8>, second: seq<u8>) {
    && TCPIP_HLEN <= |p| && TCPIP_HLEN <= |first| && TCPIP_HLEN <= |second|
    && first[TCPIP_HLEN..] + second[TCPIP_HLEN..] == p[TCPIP_HLEN..]
    && |first| <= |second| <= |first| + 1
    && Value(first[24..28]) == Value(p[24..28])
    && Value(second[24..28]) == (Value(p[24..28]) + |first| - TCPIP_HLEN) % MOD32
    && (forall i: nat | Kept(i) :: first[i] == p[i] && second[i] == p[i])
    && Accepted(first) && Accepted(second)
  }

  /** Checksums for the packet of length uip_len, then transmission. */
  method FinishAndTransmit(nb: Buffer)
    requires nb.Valid() && TCPIP_HLEN <= nb.len && nb.llh + nb.len <= nb.buf.Length
    requires LenField(nb.buf[..], nb.llh) == nb.len
    modifies nb`sent, nb.buf
    ensures nb.sent == old(nb.sent) + [nb.Packet()] && Accepted(nb.Packet())
    ensures forall i | 0 <= i < nb.buf.Length && i != nb.llh + 10 && i != nb.llh + 11 && i != nb.llh + 36 && i != nb.llh + 37 ::
              nb.buf[i] == old(nb.buf[i])
    ensures nb.len == old(nb.len)
  {
    hide WordSum;
    hide Fold;
    hide Returned;
    nb.FillTcpChksum();
    ghost var d := nb.buf[..];
    nb.FillIpChksum();
    ghost var e := nb.buf[..];
    TcpTestKept(d, e, nb.llh);
    TestsMoved(e, nb.llh, nb.Packet(), 0);
    nb.Transmit();
  }

  /** `q` is `p` with new lengths and checksums, carrying the data p[lo..hi]. */
  ghost predicate PartOf(p: seq<u8>, q: seq<u8>, lo: nat, hi: nat, seqno: int) {
    && TCPIP_HLEN <= lo <= hi <= |p| && |q| == TCPIP_HLEN + (hi - lo)
    && (forall i: nat | Kept(i) :: q[i] == p[i])
    && q[TCPIP_HLEN..] == p[lo..hi]
    && Value(q[24..28]) == seqno
    && Accepted(q)
  }

  /** A packet with new length and checksums over the old bytes is the first part of the old one. */
  lemma FirstPart(d: seq<u8>, b: nat, p: seq<u8>, e: seq<u8>, q: seq<u8>, n: nat)
    requires |d| == |e| && b + |p| <= |d| && p == d[b..b + |p|] && TCPIP_HLEN + n <= |p|
    requires |q| == TCPIP_HLEN + n && q == e[b..b + |q|] && Accepted(q)
    requires forall i: nat | b + i < |e| && (Kept(i) || 24 <= i < 28 || TCPIP_HLEN <= i) :: e[b + i] == d[b + i]
    ensures PartOf(p, q, TCPIP_HLEN, TCPIP_HLEN + n, Value(p[24..28]))
  {
    hide Accepted;
    hide Value;
    forall i: nat | i < |q| && (Kept(i) || 24 <= i < 28 || TCPIP_HLEN <= i) ensures q[i] == p[i] {
      assert q[i] == e[b + i] && p[i] == d[b + i];
    }
    assert q[24..28] == p[24..28];
    assert q[TCPIP_HLEN..] == p[TCPIP_HLEN..TCPIP_HLEN + n];
  }

  /** The first packet: a new length and new checksums. */
  method SendFirst(nb: Buffer, len1: u16)
    requires nb.Valid() && TCPIP_HLEN + len1 <= nb.len && nb.llh + nb.len <= nb.buf.Length
    modifies nb`len, nb`sent, nb.buf
    ensures |nb.sent| == |old(nb.sent)| + 1 && old(nb.sent) <= nb.sent
    ensures var p := old(nb.Packet());
            PartOf(p, nb.sent[|old(nb.sent)|], TCPIP_HLEN, TCPIP_HLEN + len1, Value(p[24..28]))
    ensures forall i: nat | nb.llh + i < nb.buf.Length && (Kept(i) || 24 <= i < 28 || TCPIP_HLEN <= i) ::
              nb.buf[nb.llh + i] == old(nb.buf[nb.llh + i])
  {
    hide Accepted;
    hide Value;
    hide PartOf;
    ghost var d, p := nb.buf[..], nb.Packet();
    nb.SetLength(len1 + 40);
    FinishAndTransmit(nb);
    ghost var e, q := nb.buf[..], nb.Packet();
    forall i: nat | nb.llh + i < |e| && (Kept(i) || 24 <= i < 28 || TCPIP_HLEN <= i) ensures e[nb.llh + i] == d[nb.llh + i] {
      assert e[nb.llh + i] == nb.buf[nb.llh + i];
    }
    FirstPart(d, nb.llh, p, e, q, len1);
  }

  /** uip_add32 on the sequence number of the packet, and the sum back into the header. */
  method AdvanceSequence(nb: Buffer, n: u16)
    requires nb.Valid()
    modifies nb.buf, nb.acc32
    ensures Value(nb.buf[nb.llh + 24..nb.llh + 28]) == (Value(old(nb.buf[nb.llh + 24..nb.llh + 28])) + n) % MOD32
    ensures forall i | 0 <= i < nb.buf.Length && !(nb.llh + 24 <= i < nb.llh + 28) :: nb.buf[i] == old(nb.buf[i])
  {
    hide Value;
    Add32(nb.buf, nb.llh + 24, n, nb.acc32);
    nb.buf[nb.llh + 24] := nb.acc32[0];
    nb.buf[nb.llh + 25] := nb.acc32[1];
    nb.buf[nb.llh + 26] := nb.acc32[2];
    nb.buf[nb.llh + 27] := nb.acc32[3];
    assert nb.buf[nb.llh + 24..nb.llh + 28] == nb.acc32[..];
  }

  lemma NumberKept(e: seq<u8>, b: nat, p: seq<u8>)
    requires b + 28 <= |e| && |p| >= 28 && forall i: nat | 24 <= i < 28 :: e[b + i] == p[i]
    ensures e[b + 24..b + 28] == p[24..28]
  {
    var x, y := e[b + 24..b + 28], p[24..28];
    forall k: nat | k < 4 ensures x[k] == y[k] {
      assert e[b + (24 + k)] == p[24 + k];
    }
  }

  lemma LengthKept(d: seq<u8>, e: seq<u8>, b: nat)
    requires HasHeader(d, b) && |e| == |d| && e[b + 2] == d[b + 2] && e[b + 3] == d[b + 3]
    ensures LenField(e, b) == LenField(d, b)
  {
  }

  /** Length and data of the second packet. */
  method MoveData(nb: Buffer, len1: u16, len2: u16)
    requires nb.Valid() && TCPIP_HLEN + len1 + len2 < 0x1_0000 && nb.llh + TCPIP_HLEN + len1 + len2 <= nb.buf.Length
    modifies nb`len, nb.buf
    ensures nb.len == TCPIP_HLEN + len2 && LenField(nb.buf[..], nb.llh) == nb.len
    ensures forall i | nb.llh + 40 <= i < nb.llh + 40 + len2 :: nb.buf[i] == old(nb.buf[i + len1])
    ensures forall i | nb.llh + 4 <= i < nb.llh + 40 :: nb.buf[i] == old(nb.buf[i])
    ensures nb.buf[nb.llh] == old(nb.buf[nb.llh]) && nb.buf[nb.llh + 1] == old(nb.buf[nb.llh + 1])
  {
    hide LenField;
    nb.SetLength(len2 + 40);
    ghost var d := nb.buf[..];
    nb.CopyDown(nb.llh + 40, nb.llh + 40 + len1, len2);
    LengthKept(d, nb.buf[..], nb.llh);
  }

  /** Length, data and sequence number of the second packet. */
  method RewriteSecond(nb: Buffer, len1: u16, len2: u16, ghost p: seq<u8>)
    requires nb.Valid() && |p| == TCPIP_HLEN + len1 + len2 < 0x1_0000 && nb.llh + |p| <= nb.buf.Length
    requires forall i: nat | i < |p| && (Kept(i) || 24 <= i < 28 || TCPIP_HLEN <= i) :: nb.buf[nb.llh + i] == p[i]
    modifies nb`len, nb.buf, nb.acc32
    ensures nb.len == TCPIP_HLEN + len2 && LenField(nb.buf[..], nb.llh) == nb.len
    ensures nb.llh + nb.len <= nb.buf.Length
    ensures forall i: nat | Kept(i) :: nb.buf[nb.llh + i] == p[i]
    ensures forall i: nat | TCPIP_HLEN + len1 <= i < |p| :: nb.buf[nb.llh + i - len1] == p[i]
    ensures Value(nb.buf[nb.llh + 24..nb.llh + 28]) == (Value(p[24..28]) + len1) % MOD32
  {
    hide Value;
    hide LenField;
    MoveData(nb, len1, len2);
    ghost var d := nb.buf[..];
    NumberKept(d, nb.llh, p);
    assert d[nb.llh + 24..nb.llh + 28] == nb.buf[nb.llh + 24..nb.llh + 28];
    AdvanceSequence(nb, len1);
    LengthKept(d, nb.buf[..], nb.llh);
  }

  /** The second packet: the rest of the data moves up and the sequence number moves on. */
  method SendSecond(nb: Buffer, len1: u16, len2: u16, ghost p: seq<u8>)
    requires nb.Valid() && |p| == TCPIP_HLEN + len1 + len2 < 0x1_0000 && nb.llh + |p| <= nb.buf.Length
    requires forall i: nat | i < |p| && (Kept(i) || 24 <= i < 28 || TCPIP_HLEN <= i) :: nb.buf[nb.llh + i] == p[i]
    modifies nb`len, nb`sent, nb.buf, nb.acc32
    ensures |nb.sent| == |old(nb.sent)| + 1 && old(nb.sent) <= nb.sent
    ensures PartOf(p, nb.sent[|old(nb.sent)|], TCPIP_HLEN + len1, |p|, (Value(p[24..28]) + len1) % MOD32)
  {
    hide Value;
    hide Accepted;
    RewriteSecond(nb, len1, len2, p);
    ghost var d := nb.buf[..];
    FinishAndTransmit(nb);
    ghost var e, q := nb.buf[..], nb.Packet();
    SubSlice(e, nb.llh, q, 24, 28);
    assert e[nb.llh + 24..nb.llh + 28] == d[nb.llh + 24..nb.llh + 28];
    forall i: nat | i < nb.len && (Kept(i) || TCPIP_HLEN <= i)
      ensures q[i] == if Kept(i) then p[i] else p[len1 + i]
    {
      assert q[i] == e[nb.llh + i] && e[nb.llh + i] == d[nb.llh + i];
      if TCPIP_HLEN <= i { assert d[nb.llh + i] == p[len1 + i]; }
    }
    assert q[TCPIP_HLEN..] == p[TCPIP_HLEN + len1..];
  }

  lemma PartsAreHalves(p: seq<u8>, first: seq<u8>, second: seq<u8>, mid: nat)
    requires TCPIP_HLEN <= mid <= |p| && mid - TCPIP_HLEN <= |p| - mid <= mid - TCPIP_HLEN + 1
    requires PartOf(p, first, TCPIP_HLEN, mid, Value(p[24..28]))
    requires PartOf(p, second, mid, |p|, (Value(p[24..28]) + mid - TCPIP_HLEN) % MOD32)
    ensures Halves(p, first, second)
  {
    hide Accepted;
    hide Value;
    assert p[TCPIP_HLEN..] == p[TCPIP_HLEN..mid] + p[mid..];
  }

  /** uip_split_output; uip_appdata points at the data behind the TCP header. */
  method SplitOutput(nb: Buffer, bufsize: u16)
    requires nb.Valid() && nb.llh + TCPIP_HLEN <= bufsize <= nb.buf.Length
    requires nb.llh + nb.len <= nb.buf.Length
    modifies nb`len, nb`sent, nb.buf, nb.acc32
    ensures old(nb.sent) <= nb.sent
    ensures if old(nb.buf[nb.llh + 9] == PROTO_TCP && nb.len as int == bufsize - nb.llh) then
              && |nb.sent| == |old(nb.sent)| + 2
              && Halves(old(nb.Packet()), nb.sent[|old(nb.sent)|], nb.sent[|old(nb.sent)| + 1])
            else nb.sent == old(nb.sent) + [old(nb.Packet())]
  {
    hide PartOf;
    hide Halves;
    if nb.buf[nb.llh + 9] == PROTO_TCP && nb.len as int == bufsize - nb.llh {
      var tcplen: u16 := nb.len - 40;
      var len1: u16, len2: u16 := tcplen / 2, tcplen / 2;
      if len1 + len2 < tcplen {
        len2 := len2 + 1;
      }
      ghost var p := nb.Packet();
      SendFirst(nb, len1);
      forall i: nat | i < |p| && (Kept(i) || 24 <= i < 28 || TCPIP_HLEN <= i) ensures nb.buf[nb.llh + i] == p[i] {
        assert p[i] == old(nb.buf[nb.llh + i]);
      }
      SendSecond(nb, len1, len2, p);
      PartsAreHalves(p, nb.sent[|old(nb.sent)|], nb.sent[|old(nb.sent)| + 1], TCPIP_HLEN + len1);
    } else {
      nb.Transmit();
    }
  }
}
