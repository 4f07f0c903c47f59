/** The last steps of sending a TCP packet (tcp_send_noconn, ip_send_nolen). */
module TcpOutput {
  import opened Words
  import opened Checksum
  import opened NetBuffer

  const UIP_TTL: u8 := 64

  /** What uip_process demands of an incoming TCP packet before it looks at connections. */
  predicate PassesInput(p: seq<u8>) {
    && LenOk(p, 0) && LenField(p, 0) <= |p|
    && p[0] == 0x45 && p[6] == 0 && p[7] == 0
    && IpAccepts(p, 0) && TcpAccepts(p, 0)
  }

  /** The header bytes that the last steps leave alone: protocol, addresses, ports, numbers, window. */
  predicate Untouched(i: nat) { i == 9 || 12 <= i < 36 || TCPIP_HLEN <= i }

  /** The bytes the TCP test reads, TTL and protocol, of a packet at `b`. */
  predicate InTcpTest(i: int, b: nat) { i == b + 2 || i == b + 3 || i == b + 8 || i == b + 9 || b + 12 <= i }

  /**
   * The header fields of section 3.1 of RFC 791 that every packet gets, no urgent data, and the
   * checksum of section 3.1 of RFC 9293.
   */
  predicate SentFields(p: seq<u8>, ipid: u16) {
    && TCPIP_HLEN <= |p| < 0x1_0000 && p[..4] == [0x45, 0, |p| / 256, |p| % 256] && p[4..8] == [ipid / 256, ipid % 256, 0, 0]
    && p[8] == 64 && p[38] == 0 && p[39] == 0 && LenOk(p, 0) && TcpSumsToZero(p, 0)
    && WordSum(p, 0, 20) % 0xffff == 0
  }

  /** TTL, length, urgent pointer and the TCP checksum. */
  method FillTcp(nb: Buffer)
    requires nb.Valid() && TCPIP_HLEN <= nb.len && nb.llh + nb.len <= nb.buf.Length
    modifies nb.buf, nb`len
    ensures nb.len == old(nb.len) && LenOk(nb.buf[..], nb.llh) && LenField(nb.buf[..], nb.llh) == nb.len
    ensures nb.buf[nb.llh + 8] == UIP_TTL && nb.buf[nb.llh + 38] == 0 && nb.buf[nb.llh + 39] == 0
    ensures TcpAccepts(nb.buf[..], nb.llh) && TcpSumsToZero(nb.buf[..], nb.llh)
    ensures forall i: nat | nb.llh + i < nb.buf.Length && Untouched(i) :: nb.buf[nb.llh + i] == old(nb.buf[nb.llh + i])
  {
    hide IpAccepts;
    hide TcpAccepts;
    hide TcpSumsToZero;
    nb.buf[nb.llh + 8] := UIP_TTL;
    nb.SetLength(nb.len);
    nb.buf[nb.llh + 38] := 0;
    nb.buf[nb.llh + 39] := 0;
    nb.FillTcpChksum();
  }

  /** Version, fragment fields, identification and the IP checksum. */
  method FillIp(nb: Buffer, ipid: u16) returns (nextIpid: u16)
    requires nb.Valid() && LenOk(nb.buf[..], nb.llh)
    modifies nb.buf
    ensures nextIpid == (ipid + 1) % 0x1_0000
    ensures nb.buf[nb.llh] == 0x45 && nb.buf[nb.llh + 1] == 0 && nb.buf[nb.llh + 6] == 0 && nb.buf[nb.llh + 7] == 0
    ensures nb.buf[nb.llh + 4] == nextIpid / 256 && nb.buf[nb.llh + 5] == nextIpid % 256
    ensures IpAccepts(nb.buf[..], nb.llh)
    ensures forall i | 0 <= i < nb.buf.Length && InTcpTest(i, nb.llh) :: nb.buf[i] == old(nb.buf[i])
  {
    hide IpAccepts;
    nb.buf[nb.llh] := 0x45;
    nb.buf[nb.llh + 1] := 0;
    nb.buf[nb.llh + 6] := 0;
    nb.buf[nb.llh + 7] := 0;
    nextIpid := (ipid + 1) % 0x1_0000;
    nb.buf[nb.llh + 4] := nextIpid / 256;
    nb.buf[nb.llh + 5] := nextIpid % 256;
    nb.FillIpChksum();
  }

  /**
   * Fill in the remaining header fields and both checksums. Whatever the packet
   * holds otherwise, the result passes the input tests of a receiver.
   */
  method SendNoconn(nb: Buffer, ipid: u16) returns (nextIpid: u16)
    requires nb.Valid() && TCPIP_HLEN <= nb.len && nb.llh + nb.len <= nb.buf.Length
    modifies nb.buf, nb`len
    ensures nb.len == old(nb.len) && PassesInput(nb.Packet())
    ensures nextIpid == (ipid + 1) % 0x1_0000 && SentFields(nb.Packet(), nextIpid)
    ensures forall i: nat | nb.llh + i < nb.buf.Length && Untouched(i) :: nb.buf[nb.llh + i] == old(nb.buf[nb.llh + i])
  {
    hide IpAccepts;
    hide TcpAccepts;
    hide TcpSumsToZero;
    FillTcp(nb);
    ghost var d := nb.buf[..];
    nextIpid := FillIp(nb, ipid);
    ghost var e := nb.buf[..];
    HeaderFieldsKeepTcpTest(d, e, nb.llh);
    ghost var p := nb.Packet();
    TestsMoved(e, nb.llh, p, 0);
    TcpTestMeans(p, 0);
    LengthBytes(p, e, nb.llh);
    IpTestMeans(p);
  }

  lemma IpTestMeans(p: seq<u8>)
    requires HasHeader(p, 0)
    ensures IpAccepts(p, 0) <==> WordSum(p, 0, 20) % 0xffff == 0
  {
    hide WordSum;
    hide Fold;
    hide Returned;
    Verifies(WordSum(p, 0, 20));
  }

  lemma LengthBytes(p: seq<u8>, e: seq<u8>, b: nat)
    requires HasHeader(e, b) && HasHeader(p, 0) && p[2] == e[b + 2] && p[3] == e[b + 3]
    ensures LenField(e, b) / 256 == p[2] && LenField(e, b) % 256 == p[3]
  {
  }

  /** The IP header fields written last do not enter the TCP checksum. */
  lemma HeaderFieldsKeepTcpTest(d: seq<u8>, e: seq<u8>, b: nat)
    requires LenOk(d, b) && |e| == |d|
    requires forall i | 0 <= i < |d| && InTcpTest(i, b) :: e[i] == d[i]
    ensures LenOk(e, b) && LenField(e, b) == LenField(d, b) && TcpAccepts(e, b) == TcpAccepts(d, b)
  {
    hide WordSum;
    hide Fold;
    hide Returned;
    WordSumMoved(d, b + 12, b + 20, e, b + 12);
    WordSumMoved(d, b + 20, b + LenField(d, b), e, b + 20);
  }
}
