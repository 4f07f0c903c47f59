/**
 * Segments as bytes: tcp_send writes the header of the packet in the buffer, and the
 * receiver reads the same segment back. The reset is made from the packet in place.
 */
module TcpWire {
  import opened Words
  import opened Checksum
  import opened NetBuffer
  import opened Sequence
  import opened TcpOutput
  import Icmp
  import T = TcpConn

  const TCP_OPT_MSS: u8 := 2
  const TCP_OPT_MSS_LEN: u8 := 4

  // ---------------------------------------------------------------- reading a packet

  function FlagByte(f: T.Flags): u8 {
    (if f.fin then 1 else 0) + (if f.syn then 2 else 0) + (if f.rst then 4 else 0)
    + (if f.psh then 8 else 0) + (if f.ack then 16 else 0)
  }

  function FlagsOf(b: u8): T.Flags {
    T.Flags(b % 2 == 1, b / 2 % 2 == 1, b / 4 % 2 == 1, b / 8 % 2 == 1, b / 16 % 2 == 1)
  }

  lemma FlagsReadBack(f: T.Flags)
    ensures FlagsOf(FlagByte(f)) == f
  {
  }

  /** A 16-bit field as a little-endian machine loads it. */
  function Load(first: u8, second: u8): u16 { first as int + 256 * (second as int) }

  lemma LoadStored(v: u16)
    ensures Load(LowByte(v), HighByte(v)) == v && Pair(v / 256, v % 256) == v
  {
  }

  /** The four bytes of a sequence number. */
  function Byte(v: u32, k: nat): u8
    requires k < 4
  {
    if k == 0 then v / 256 / 256 / 256 else if k == 1 then v / 256 / 256 % 256 else if k == 2 then v / 256 % 256 else v % 256
  }

  /** The number at `k`. */
  function Number(d: seq<u8>, k: nat): u32
    requires k + 4 <= |d|
  {
    Value([d[k], d[k + 1], d[k + 2], d[k + 3]])
  }

  lemma NumberReadBack(d: seq<u8>, k: nat, v: u32)
    requires k + 4 <= |d|
    requires d[k] == Byte(v, 0) && d[k + 1] == Byte(v, 1) && d[k + 2] == Byte(v, 2) && d[k + 3] == Byte(v, 3)
    ensures Number(d, k) == v
  {
    var v1, v2, v3 := v / 256, v / 256 / 256, v / 256 / 256 / 256;
    assert v == 256 * v1 + v % 256 && v1 == 256 * v2 + v1 % 256 && v2 == 256 * v3 + v2 % 256;
  }

  /** The data offset of a packet, IP header included. */
  function Offset(p: seq<u8>): nat
    requires |p| >= TCPIP_HLEN
  {
    IPH_LEN + 4 * (p[32] / 16)
  }

  /** The data length as the code counts it, in the 16 bits of uip_len. */
  function DataLength(p: seq<u8>): u16
    requires TCPIP_HLEN <= |p|
  {
    (|p| - Offset(p)) % 0x1_0000
  }

  /**
   * The data length counts the bytes behind the data offset exactly when that lies between the
   * end of the fixed header and the end of the packet. Behind the packet it is almost 64K.
   */
  lemma DataLengthExactly(p: seq<u8>)
    requires TCPIP_HLEN <= |p| < 0x1_0000
    ensures DataLength(p) as int == |p| - Offset(p) <==> Offset(p) <= |p|
    ensures TCPIP_HLEN + DataLength(p) <= |p| <==> TCPIP_HLEN <= Offset(p) <= |p|
    ensures Offset(p) > |p| ==> DataLength(p) >= 0x1_0000 - TCPIP_HLEN
    ensures TCPIP_HLEN + DataLength(p) <= |p| <==> |Parse(p).payload| == DataLength(p) as int
  {
    hide Number;
    hide FlagsOf;
    hide Load;
    var n := p[32] / 16;
    assert n < 16;
    Wraps16(|p| - Offset(p));
  }

  /** The data as section 3.1 of RFC 9293 places it. */
  function DataOf(p: seq<u8>): seq<u8>
    requires TCPIP_HLEN <= |p| && TCPIP_HLEN <= Offset(p) <= |p|
  {
    p[Offset(p)..]
  }

  predicate SameHeader(p: seq<u8>, q: seq<u8>) { |p| == |q| >= TCPIP_HLEN && p[..TCPIP_HLEN] == q[..TCPIP_HLEN] }

  /**
   * uip_appdata points behind the fixed header whatever the data offset says. The application gets the
   * data, whatever its bytes are, exactly without options or without data; otherwise the options come first.
   */
  lemma OptionsDelivered(p: seq<u8>)
    requires TCPIP_HLEN <= |p| && TCPIP_HLEN <= Offset(p) <= |p|
    ensures (forall q | SameHeader(p, q) :: Offset(q) == Offset(p) && Parse(q).payload == DataOf(q))
              <==> Offset(p) == TCPIP_HLEN || Offset(p) == |p|
  {
    hide Number;
    hide FlagsOf;
    hide Load;
    forall q | SameHeader(p, q) ensures Offset(q) == Offset(p) {
      assert q[..TCPIP_HLEN][32] == p[..TCPIP_HLEN][32];
    }
    if TCPIP_HLEN < Offset(p) < |p| {
      var q := p[TCPIP_HLEN := (p[Offset(p)] as int + 1) % 256];
      assert SameHeader(p, q);
      assert Parse(q).payload[0] == q[TCPIP_HLEN] != q[Offset(p)] == DataOf(q)[0];
    }
  }

  /**
   * The segment in a packet, the MSS option where this stack puts it and the data where it is handed
   * over; without data if what is handed over would run over the packet.
   */
  function Parse(p: seq<u8>): T.Segment
    requires TCPIP_HLEN <= |p|
  {
    T.Segment(Ip(Load(p[12], p[13]), Load(p[14], p[15])), Ip(Load(p[16], p[17]), Load(p[18], p[19])),
              Load(p[20], p[21]), Load(p[22], p[23]), Number(p, 24), Number(p, 28), FlagsOf(p[33]),
              Pair(p[34], p[35]),
              if Offset(p) == 44 && 44 <= |p| && p[40] == TCP_OPT_MSS && p[41] == TCP_OPT_MSS_LEN then Some(Pair(p[42], p[43])) else None,
              if TCPIP_HLEN <= Offset(p) <= |p| then p[TCPIP_HLEN..TCPIP_HLEN + |p| - Offset(p)] else [])
  }

  // ---------------------------------------------------------------- writing a packet

  /** Byte `i` of the header that carries `seg`. */
  function HeaderByte(seg: T.Segment, i: nat): u8
    requires 12 <= i < 36
  {
    if i == 12 then LowByte(seg.src.hi) else if i == 13 then HighByte(seg.src.hi)
    else if i == 14 then LowByte(seg.src.lo) else if i == 15 then HighByte(seg.src.lo)
    else if i == 16 then LowByte(seg.dest.hi) else if i == 17 then HighByte(seg.dest.hi)
    else if i == 18 then LowByte(seg.dest.lo) else if i == 19 then HighByte(seg.dest.lo)
    else if i == 20 then LowByte(seg.srcport) else if i == 21 then HighByte(seg.srcport)
    else if i == 22 then LowByte(seg.destport) else if i == 23 then HighByte(seg.destport)
    else if i < 28 then Byte(seg.seqno, i - 24)
    else if i < 32 then Byte(seg.ackno, i - 28)
    else if i == 32 then (if seg.mssOpt.Some? then 96 else 80)
    else if i == 33 then FlagByte(seg.flags)
    else if i == 34 then seg.wnd / 256 else seg.wnd % 256
  }

  /** A 16-bit and a 32-bit number in network order. */
  function Net16(n: u16): (s: seq<u8>)
    ensures |s| == 2
  {
    [n / 0x100, n % 0x100]
  }

  function Net32(n: u32): (s: seq<u8>)
    ensures |s| == 4
  {
    [n / 0x100_0000, n / 0x1_0000 % 0x100, n / 0x100 % 0x100, n % 0x100]
  }

  /** Section 3.1 of RFC 9293 up to the checksum, behind the addresses of section 3.1 of RFC 791. */
  function Layout(seg: T.Segment): (s: seq<u8>)
    ensures |s| == 24
  {
    Net16(Htons(seg.src.hi)) + Net16(Htons(seg.src.lo)) + Net16(Htons(seg.dest.hi)) + Net16(Htons(seg.dest.lo))
    + Net16(Htons(seg.srcport)) + Net16(Htons(seg.destport)) + Net32(seg.seqno) + Net32(seg.ackno)
    + [16 * (if seg.mssOpt.Some? then 6 else 5),
       (if seg.flags.ack then 0x10 else 0) + (if seg.flags.psh then 8 else 0) + (if seg.flags.rst then 4 else 0)
       + (if seg.flags.syn then 2 else 0) + (if seg.flags.fin then 1 else 0)]
    + Net16(seg.wnd)
  }

  /** The option of kind 2 and length 4, or the data. */
  function DataBytes(seg: T.Segment): seq<u8> { if seg.mssOpt.Some? then [2, 4] + Net16(seg.mssOpt.value) else seg.payload }

  /** `p` has the header fields and the data of `seg` where the standard puts them. */
  predicate LaidOut(p: seq<u8>, seg: T.Segment) { TCPIP_HLEN <= |p| && p[12..36] == Layout(seg) && p[40..] == DataBytes(seg) }

  lemma HeaderIsLayout(seg: T.Segment, i: nat)
    requires 12 <= i < 36
    ensures HeaderByte(seg, i) == Layout(seg)[i - 12]
  {
    NetStored(seg.src.hi);
    hide Htons;
    hide LowByte;
    hide HighByte;
    hide Net16;
    NetStored(seg.src.hi);
    NetStored(seg.src.lo);
    NetStored(seg.dest.hi);
    NetStored(seg.dest.lo);
    NetStored(seg.srcport);
    NetStored(seg.destport);
    Net16Is(seg.wnd);
  }

  lemma Net16Is(n: u16)
    ensures Net16(n) == [n / 0x100, n % 0x100]
  {
  }

  lemma NetStored(v: u16)
    ensures Net16(Htons(v)) == [LowByte(v), HighByte(v)]
  {
  }

  lemma HeldIsLaidOut(p: seq<u8>, seg: T.Segment)
    requires |p| == seg.PacketLen() && Holds(p, 0, seg)
    ensures LaidOut(p, seg)
  {
    hide HeaderByte;
    hide Layout;
    forall i: nat | 12 <= i < 36 ensures p[i] == Layout(seg)[i - 12] {
      HeaderIsLayout(seg, i);
      assert p[0 + i] == HeaderByte(seg, i);
    }
    assert p[12..36] == Layout(seg);
    if seg.mssOpt.None? { assert p[40..] == p[40..40 + |seg.payload|]; }
  }

  /** The data area holds the MSS option or the payload. */
  predicate Carries(d: seq<u8>, b: nat, seg: T.Segment) {
    && b + seg.PacketLen() <= |d|
    && match seg.mssOpt
       case None => d[b + 40..b + 40 + |seg.payload|] == seg.payload
       case Some(m) => seg.payload == [] && d[b + 40] == TCP_OPT_MSS && d[b + 41] == TCP_OPT_MSS_LEN
                       && d[b + 42] == m / 256 && d[b + 43] == m % 256
  }

  /** The header fields and the data of `seg` at `b`. */
  predicate Holds(d: seq<u8>, b: nat, seg: T.Segment) {
    Carries(d, b, seg) && forall i: nat | 12 <= i < 36 :: d[b + i] == HeaderByte(seg, i)
  }

  lemma AddressesReadBack(p: seq<u8>, seg: T.Segment)
    requires |p| >= TCPIP_HLEN && forall i: nat | 12 <= i < 24 :: p[i] == HeaderByte(seg, i)
    ensures Ip(Load(p[12], p[13]), Load(p[14], p[15])) == seg.src && Ip(Load(p[16], p[17]), Load(p[18], p[19])) == seg.dest
    ensures Load(p[20], p[21]) == seg.srcport && Load(p[22], p[23]) == seg.destport
  {
    hide LowByte;
    hide HighByte;
    hide Load;
    LoadStored(seg.src.hi);
    LoadStored(seg.src.lo);
    LoadStored(seg.dest.hi);
    LoadStored(seg.dest.lo);
    LoadStored(seg.srcport);
    LoadStored(seg.destport);
  }

  lemma NumbersReadBack(p: seq<u8>, seg: T.Segment)
    requires |p| >= TCPIP_HLEN && forall i: nat | 24 <= i < 36 :: p[i] == HeaderByte(seg, i)
    ensures Number(p, 24) == seg.seqno && Number(p, 28) == seg.ackno
    ensures p[32] as int == (if seg.mssOpt.Some? then 96 else 80) && FlagsOf(p[33]) == seg.flags && Pair(p[34], p[35]) == seg.wnd
  {
    hide Number;
    hide FlagByte;
    hide FlagsOf;
    hide Byte;
    FlagsReadBack(seg.flags);
    LoadStored(seg.wnd);
    NumberReadBack(p, 24, seg.seqno);
    NumberReadBack(p, 28, seg.ackno);
  }

  lemma ReadBack(p: seq<u8>, seg: T.Segment)
    requires |p| == seg.PacketLen() && Holds(p, 0, seg)
    ensures TCPIP_HLEN <= Offset(p) <= |p| && Parse(p) == seg
  {
    hide Number;
    hide FlagsOf;
    hide Load;
    hide HeaderByte;
    forall i: nat | 12 <= i < 36 ensures p[i] == HeaderByte(seg, i) {
      assert p[0 + i] == HeaderByte(seg, i);
    }
    AddressesReadBack(p, seg);
    NumbersReadBack(p, seg);
    if seg.mssOpt.Some? {
      LoadStored(seg.mssOpt.value);
      assert p[40..40] == [];
    }
  }

  /** tcp_send_noopts, or the option written for a SYN: lengths and data offset. */
  method WriteOptions(nb: Buffer, seg: T.Segment)
    requires nb.Valid() && seg.PacketLen() < 0x1_0000 && nb.llh + seg.PacketLen() <= nb.buf.Length
    requires if seg.mssOpt.Some? then seg.payload == [] else Carries(nb.buf[..], nb.llh, seg)
    modifies nb.buf, nb`len
    ensures nb.len == seg.PacketLen() && Carries(nb.buf[..], nb.llh, seg)
    ensures nb.buf[nb.llh + 32] == if seg.mssOpt.Some? then 96 else 80
  {
    if seg.mssOpt.Some? {
      nb.buf[nb.llh + 40] := TCP_OPT_MSS;
      nb.buf[nb.llh + 41] := TCP_OPT_MSS_LEN;
      nb.buf[nb.llh + 42] := seg.mssOpt.value / 256;
      nb.buf[nb.llh + 43] := seg.mssOpt.value % 256;
      nb.len := 44;
      nb.buf[nb.llh + 32] := 96;
    } else {
      ghost var d := nb.buf[..];
      nb.len := 40 + |seg.payload|;
      nb.buf[nb.llh + 32] := 80;
      assert nb.buf[nb.llh + 40..nb.llh + 40 + |seg.payload|] == d[nb.llh + 40..nb.llh + 40 + |seg.payload|];
    }
  }

  /** The two numbers. */
  method WriteNumbers(nb: Buffer, seg: T.Segment)
    requires nb.Valid()
    modifies nb.buf
    ensures forall i: nat | 24 <= i < 32 :: nb.buf[nb.llh + i] == HeaderByte(seg, i)
    ensures forall i | 0 <= i < nb.buf.Length && !(nb.llh + 24 <= i < nb.llh + 32) :: nb.buf[i] == old(nb.buf[i])
  {
    hide Byte;
    hide FlagByte;
    nb.buf[nb.llh + 28] := Byte(seg.ackno, 0);
    nb.buf[nb.llh + 29] := Byte(seg.ackno, 1);
    nb.buf[nb.llh + 30] := Byte(seg.ackno, 2);
    nb.buf[nb.llh + 31] := Byte(seg.ackno, 3);
    nb.buf[nb.llh + 24] := Byte(seg.seqno, 0);
    nb.buf[nb.llh + 25] := Byte(seg.seqno, 1);
    nb.buf[nb.llh + 26] := Byte(seg.seqno, 2);
    nb.buf[nb.llh + 27] := Byte(seg.seqno, 3);
  }

  /** Flags, protocol and window. */
  method WriteControl(nb: Buffer, seg: T.Segment)
    requires nb.Valid()
    modifies nb.buf
    ensures nb.buf[nb.llh + 9] == PROTO_TCP
    ensures forall i: nat | 33 <= i < 36 :: nb.buf[nb.llh + i] == HeaderByte(seg, i)
    ensures forall i | 0 <= i < nb.buf.Length && i != nb.llh + 9 && !(nb.llh + 33 <= i < nb.llh + 36) :: nb.buf[i] == old(nb.buf[i])
  {
    hide FlagByte;
    nb.buf[nb.llh + 33] := FlagByte(seg.flags);
    nb.buf[nb.llh + 9] := PROTO_TCP;
    nb.buf[nb.llh + 34] := seg.wnd / 256;
    nb.buf[nb.llh + 35] := seg.wnd % 256;
  }

  method WritePorts(nb: Buffer, seg: T.Segment)
    requires nb.Valid()
    modifies nb.buf
    ensures forall i: nat | 20 <= i < 24 :: nb.buf[nb.llh + i] == HeaderByte(seg, i)
    ensures forall i | 0 <= i < nb.buf.Length && !(nb.llh + 20 <= i < nb.llh + 24) :: nb.buf[i] == old(nb.buf[i])
  {
    hide LowByte;
    hide HighByte;
    nb.buf[nb.llh + 20], nb.buf[nb.llh + 21] := LowByte(seg.srcport), HighByte(seg.srcport);
    nb.buf[nb.llh + 22], nb.buf[nb.llh + 23] := LowByte(seg.destport), HighByte(seg.destport);
  }

  method WriteAddresses(nb: Buffer, seg: T.Segment)
    requires nb.Valid()
    modifies nb.buf
    ensures forall i: nat | 12 <= i < 20 :: nb.buf[nb.llh + i] == HeaderByte(seg, i)
    ensures forall i | 0 <= i < nb.buf.Length && !(nb.llh + 12 <= i < nb.llh + 20) :: nb.buf[i] == old(nb.buf[i])
  {
    hide LowByte;
    hide HighByte;
    nb.buf[nb.llh + 12], nb.buf[nb.llh + 13] := LowByte(seg.src.hi), HighByte(seg.src.hi);
    nb.buf[nb.llh + 14], nb.buf[nb.llh + 15] := LowByte(seg.src.lo), HighByte(seg.src.lo);
    nb.buf[nb.llh + 16], nb.buf[nb.llh + 17] := LowByte(seg.dest.hi), HighByte(seg.dest.hi);
    nb.buf[nb.llh + 18], nb.buf[nb.llh + 19] := LowByte(seg.dest.lo), HighByte(seg.dest.lo);
  }

  /** Ports and addresses, which are adjacent. */
  method WriteEnds(nb: Buffer, seg: T.Segment)
    requires nb.Valid()
    modifies nb.buf
    ensures forall i: nat | 12 <= i < 24 :: nb.buf[nb.llh + i] == HeaderByte(seg, i)
    ensures forall j | 0 <= j < nb.buf.Length && !(nb.llh + 12 <= j < nb.llh + 24) :: nb.buf[j] == old(nb.buf[j])
  {
    hide HeaderByte;
    WritePorts(nb, seg);
    WriteAddresses(nb, seg);
  }

  /** tcp_send up to tcp_send_noconn. */
  method WriteSegment(nb: Buffer, seg: T.Segment)
    requires nb.Valid() && seg.PacketLen() < 0x1_0000 && nb.llh + seg.PacketLen() <= nb.buf.Length
    requires if seg.mssOpt.Some? then seg.payload == [] else Carries(nb.buf[..], nb.llh, seg)
    modifies nb.buf, nb`len
    ensures nb.len == seg.PacketLen() && Holds(nb.buf[..], nb.llh, seg)
  {
    hide HeaderByte;
    hide Carries;
    hide Holds;
    WriteOptions(nb, seg);
    ghost var d := nb.buf[..];
    WriteNumbers(nb, seg);
    WriteControl(nb, seg);
    WriteEnds(nb, seg);
    ghost var e, b := nb.buf[..], nb.llh;
    assert forall i: nat | 33 <= i < 36 :: e[b + i] == HeaderByte(seg, i);
    assert forall i: nat | 24 <= i < 32 :: e[b + i] == HeaderByte(seg, i);
    assert e[b + 32] == d[b + 32];
    PartsHold(d, e, b, seg);
  }

  lemma PartsHold(d: seq<u8>, e: seq<u8>, b: nat, seg: T.Segment)
    requires Carries(d, b, seg) && b + seg.PacketLen() <= |d| == |e|
    requires forall j | b + 40 <= j < |d| :: e[j] == d[j]
    requires forall i: nat | 12 <= i < 24 :: e[b + i] == HeaderByte(seg, i)
    requires forall i: nat | 24 <= i < 32 :: e[b + i] == HeaderByte(seg, i)
    requires forall i: nat | 33 <= i < 36 :: e[b + i] == HeaderByte(seg, i)
    requires e[b + 32] == if seg.mssOpt.Some? then 96 else 80
    ensures Holds(e, b, seg)
  {
    hide Carries;
    hide HeaderByte;
    CarriesMoved(d, b, e, b, seg);
    OffsetByte(seg);
  }

  /**
   * tcp_send and what follows: the packet is as long as the segment needs, passes the
   * input tests, and reads back as the segment.
   */
  method Send(nb: Buffer, seg: T.Segment, ipid: u16) returns (nextIpid: u16)
    requires nb.Valid() && seg.PacketLen() < 0x1_0000 && nb.llh + seg.PacketLen() <= nb.buf.Length
    requires if seg.mssOpt.Some? then seg.payload == [] else Carries(nb.buf[..], nb.llh, seg)
    modifies nb.buf, nb`len
    ensures nb.len == seg.PacketLen() && PassesInput(nb.Packet())
    ensures SentFields(nb.Packet(), nextIpid) && nextIpid == (ipid + 1) % 0x1_0000 && LaidOut(nb.Packet(), seg)
    ensures Offset(nb.Packet()) <= nb.len && Parse(nb.Packet()) == seg
  {
    hide Holds;
    hide Carries;
    hide PassesInput;
    hide SentFields;
    hide LaidOut;
    hide Parse;
    hide Offset;
    WriteSegment(nb, seg);
    ghost var e := nb.buf[..];
    nextIpid := SendNoconn(nb, ipid);
    ghost var p := nb.Packet();
    forall i: nat | 12 <= i < |p| && (i < 36 || 40 <= i) ensures p[i] == e[nb.llh + i] {
      assert p[i] == nb.buf[nb.llh + i] && Untouched(i);
    }
    HoldsMoved(e, nb.llh, p, seg);
    ReadBack(p, seg);
    HeldIsLaidOut(p, seg);
  }

  lemma HoldsMoved(d: seq<u8>, b: nat, p: seq<u8>, seg: T.Segment)
    requires Holds(d, b, seg) && |p| == seg.PacketLen()
    requires forall i: nat | 12 <= i < |p| && (i < 36 || 40 <= i) :: p[i] == d[b + i]
    ensures Holds(p, 0, seg)
  {
    hide HeaderByte;
    hide Carries;
    CarriesMoved(d, b, p, 0, seg);
  }

  lemma OffsetByte(seg: T.Segment)
    ensures HeaderByte(seg, 32) == if seg.mssOpt.Some? then 96 else 80
  {
  }

  lemma CarriesMoved(d: seq<u8>, b: nat, e: seq<u8>, c: nat, seg: T.Segment)
    requires Carries(d, b, seg) && c + seg.PacketLen() <= |e|
    requires forall j | c + 40 <= j < c + seg.PacketLen() :: e[j] == d[j - c + b]
    ensures Carries(e, c, seg)
  {
    if seg.mssOpt.None? {
      var n := |seg.payload|;
      var x, y := e[c + 40..c + 40 + n], d[b + 40..b + 40 + n];
      forall k: nat | k < n ensures x[k] == y[k] {
        assert e[c + 40 + k] == d[b + 40 + k];
      }
      assert x == y;
    } else {
      assert e[c + 40] == d[b + 40] && e[c + 41] == d[b + 41] && e[c + 42] == d[b + 42] && e[c + 43] == d[b + 43];
    }
  }

  // ---------------------------------------------------------------- the reset

  /** What the ++ chain makes of four bytes. */
  lemma Chained(d: seq<u8>, e: seq<u8>, k: nat)
    requires k + 4 <= |d| && k + 4 <= |e|
    requires e[k + 3] as int == (d[k + 3] as int + 1) % 256
    requires e[k + 2] as int == if e[k + 3] == 0 then (d[k + 2] as int + 1) % 256 else d[k + 2]
    requires e[k + 1] as int == if e[k + 3] == 0 && e[k + 2] == 0 then (d[k + 1] as int + 1) % 256 else d[k + 1]
    requires e[k] as int == if e[k + 3] == 0 && e[k + 2] == 0 && e[k + 1] == 0 then (d[k] as int + 1) % 256 else d[k]
    ensures Number(e, k) == (Number(d, k) + 1) % MOD32
  {
    Wraps8(d[k + 3] as int + 1);
    Wraps8(d[k + 2] as int + 1);
    Wraps8(d[k + 1] as int + 1);
    Wraps8(d[k] as int + 1);
    Wraps32(Number(d, k) + 1);
  }

  /** The ++ chain on the acknowledgement number. */
  method BumpAck(nb: Buffer)
    requires nb.Valid()
    modifies nb.buf
    ensures Number(nb.buf[..], nb.llh + 28) == (Number(old(nb.buf[..]), nb.llh + 28) + 1) % MOD32
    ensures forall i | 0 <= i < nb.buf.Length && !(nb.llh + 28 <= i < nb.llh + 32) :: nb.buf[i] == old(nb.buf[i])
  {
    hide Number;
    var at := nb.llh + 28;
    ghost var d := nb.buf[..];
    nb.buf[at + 3] := (nb.buf[at + 3] as int + 1) % 256;
    if nb.buf[at + 3] == 0 {
      nb.buf[at + 2] := (nb.buf[at + 2] as int + 1) % 256;
      if nb.buf[at + 2] == 0 {
        nb.buf[at + 1] := (nb.buf[at + 1] as int + 1) % 256;
        if nb.buf[at + 1] == 0 {
          nb.buf[at] := (nb.buf[at] as int + 1) % 256;
        }
      }
    }
    Chained(d, nb.buf[..], at);
  }

  /** The numbers change places, byte by byte. */
  method FlipNumbers(nb: Buffer)
    requires nb.Valid()
    modifies nb.buf
    ensures Icmp.FourAt(nb.buf[..], nb.llh + 24, old(nb.buf[..]), nb.llh + 28)
    ensures Icmp.FourAt(nb.buf[..], nb.llh + 28, old(nb.buf[..]), nb.llh + 24)
    ensures forall i | 0 <= i < nb.buf.Length && !(nb.llh + 24 <= i < nb.llh + 32) :: nb.buf[i] == old(nb.buf[i])
  {
    nb.buf[nb.llh + 27], nb.buf[nb.llh + 31] := nb.buf[nb.llh + 31], nb.buf[nb.llh + 27];
    nb.buf[nb.llh + 26], nb.buf[nb.llh + 30] := nb.buf[nb.llh + 30], nb.buf[nb.llh + 26];
    nb.buf[nb.llh + 25], nb.buf[nb.llh + 29] := nb.buf[nb.llh + 29], nb.buf[nb.llh + 25];
    nb.buf[nb.llh + 24], nb.buf[nb.llh + 28] := nb.buf[nb.llh + 28], nb.buf[nb.llh + 24];
  }

  method FlipPorts(nb: Buffer)
    requires nb.Valid()
    modifies nb.buf
    ensures nb.buf[nb.llh + 20] == old(nb.buf[nb.llh + 22]) && nb.buf[nb.llh + 21] == old(nb.buf[nb.llh + 23])
    ensures nb.buf[nb.llh + 22] == old(nb.buf[nb.llh + 20]) && nb.buf[nb.llh + 23] == old(nb.buf[nb.llh + 21])
    ensures forall i | 0 <= i < nb.buf.Length && !(nb.llh + 20 <= i < nb.llh + 24) :: nb.buf[i] == old(nb.buf[i])
  {
    nb.buf[nb.llh + 20], nb.buf[nb.llh + 22] := nb.buf[nb.llh + 22], nb.buf[nb.llh + 20];
    nb.buf[nb.llh + 21], nb.buf[nb.llh + 23] := nb.buf[nb.llh + 23], nb.buf[nb.llh + 21];
  }

  /** An address as the four bytes it is stored in. */
  function AddressBytes(a: Ip): (s: seq<u8>)
    ensures |s| == 4 && Load(s[0], s[1]) == a.hi && Load(s[2], s[3]) == a.lo
  {
    LoadStored(a.hi);
    LoadStored(a.lo);
    [LowByte(a.hi), HighByte(a.hi), LowByte(a.lo), HighByte(a.lo)]
  }

  /** The header at `c` in `q` is the one at `b` in `p` turned round into a reset. */
  predicate TurnedRound(p: seq<u8>, b: nat, q: seq<u8>, c: nat, host: Ip) {
    && b + TCPIP_HLEN <= |p| && c + TCPIP_HLEN <= |q|
    && Icmp.FourAt(q, c + 12, AddressBytes(host), 0) && Icmp.FourAt(q, c + 16, p, b + 12)
    && q[c + 20] == p[b + 22] && q[c + 21] == p[b + 23] && q[c + 22] == p[b + 20] && q[c + 23] == p[b + 21]
    && Icmp.FourAt(q, c + 24, p, b + 28) && Number(q, c + 28) == (Number(p, b + 24) + 1) % MOD32
    && q[c + 32] == 80 && q[c + 33] == 20 && q[c + 34] == p[b + 34] && q[c + 35] == p[b + 35]
  }

  lemma TurnedMoved(d: seq<u8>, e: seq<u8>, b: nat, p: seq<u8>, q: seq<u8>, host: Ip)
    requires TurnedRound(d, b, e, b, host) && TCPIP_HLEN <= |p| && TCPIP_HLEN <= |q|
    requires forall i: nat | 12 <= i < 36 :: p[i] == d[b + i] && q[i] == e[b + i]
    ensures TurnedRound(p, 0, q, 0, host)
  {
    hide Number;
    hide AddressBytes;
    SameNumber(q, 28, e, b + 28);
    SameNumber(p, 24, d, b + 24);
  }

  lemma ResetReadBack(cfg: T.Config, p: seq<u8>, q: seq<u8>)
    requires TurnedRound(p, 0, q, 0, cfg.host) && |q| == TCPIP_HLEN
    requires !Parse(p).flags.rst
    ensures Offset(q) == |q| && T.ResetFor(cfg, Parse(p)) == Some(Parse(q))
  {
    hide Number;
    hide AddressBytes;
    assert FlagsOf(20) == T.RST_ACK;
    assert q[40..40] == [];
    SameNumber(q, 24, p, 28);
  }

  lemma SameNumber(d: seq<u8>, k: nat, s: seq<u8>, j: nat)
    requires Icmp.FourAt(d, k, s, j)
    ensures Number(d, k) == Number(s, j)
  {
  }

  /** Numbers, ports and addresses, in the order of the reset label. */
  method TurnRound(nb: Buffer, host: Ip)
    requires nb.Valid()
    modifies nb.buf
    ensures Icmp.FourAt(nb.buf[..], nb.llh + 12, AddressBytes(host), 0)
    ensures Icmp.FourAt(nb.buf[..], nb.llh + 16, old(nb.buf[..]), nb.llh + 12)
    ensures nb.buf[nb.llh + 20] == old(nb.buf[nb.llh + 22]) && nb.buf[nb.llh + 21] == old(nb.buf[nb.llh + 23])
    ensures nb.buf[nb.llh + 22] == old(nb.buf[nb.llh + 20]) && nb.buf[nb.llh + 23] == old(nb.buf[nb.llh + 21])
    ensures Icmp.FourAt(nb.buf[..], nb.llh + 24, old(nb.buf[..]), nb.llh + 28)
    ensures Number(nb.buf[..], nb.llh + 28) == (Number(old(nb.buf[..]), nb.llh + 24) + 1) % MOD32
    ensures forall i | 0 <= i < nb.buf.Length && !(nb.llh + 12 <= i < nb.llh + 32) :: nb.buf[i] == old(nb.buf[i])
  {
    hide Number;
    hide AddressBytes;
    ghost var c, at := nb.buf[..], nb.llh;
    FlipNumbers(nb);
    ghost var d := nb.buf[..];
    SameNumber(d, at + 28, c, at + 24);
    BumpAck(nb);
    ghost var e := nb.buf[..];
    FlipPorts(nb);
    Icmp.SwapAddresses(nb, AddressBytes(host));
    SameNumber(nb.buf[..], at + 28, e, at + 28);
  }

  /** The header fields of the reset. */
  method WriteReset(nb: Buffer, host: Ip)
    requires nb.Valid()
    modifies nb.buf, nb`len
    ensures nb.len == TCPIP_HLEN && TurnedRound(old(nb.buf[..]), nb.llh, nb.buf[..], nb.llh, host)
  {
    hide Number;
    hide AddressBytes;
    ghost var d := nb.buf[..];
    nb.buf[nb.llh + 33] := FlagByte(T.RST_ACK);
    nb.len := 40;
    nb.buf[nb.llh + 32] := 80;
    SameNumber(nb.buf[..], nb.llh + 24, d, nb.llh + 24);
    TurnRound(nb, host);
  }

  lemma FlagsAt(p: seq<u8>)
    requires TCPIP_HLEN <= |p|
    ensures Parse(p).flags == FlagsOf(p[33])
  {
  }

  /** The reset depends on the fixed header alone. */
  lemma HeadDecides(cfg: T.Config, p: seq<u8>)
    requires TCPIP_HLEN <= |p|
    ensures T.ResetFor(cfg, Parse(p)) == T.ResetFor(cfg, Parse(p[..TCPIP_HLEN]))
  {
    hide Number;
    hide FlagsOf;
    hide Load;
    var h := p[..TCPIP_HLEN];
    SameNumber(h, 24, p, 24);
    SameNumber(h, 28, p, 28);
  }

  /** The bytes of the fixed header, whatever the length of the packet. */
  function Head(nb: Buffer): (h: seq<u8>)
    requires nb.Valid()
    reads nb, nb.buf
    ensures |h| == TCPIP_HLEN
  {
    nb.buf[nb.llh..nb.llh + TCPIP_HLEN]
  }

  /** The reset label: a segment that is not a reset is answered in place, a reset is dropped. */
  method SendReset(nb: Buffer, cfg: T.Config, ipid: u16) returns (nextIpid: u16)
    requires nb.Valid()
    modifies nb.buf, nb`len
    ensures T.ResetFor(cfg, Parse(old(Head(nb)))).None? ==> nb.len == 0
    ensures T.ResetFor(cfg, Parse(old(Head(nb)))).Some? ==>
              && nb.len == TCPIP_HLEN && nb.llh + nb.len <= nb.buf.Length && PassesInput(nb.Packet()) && Offset(nb.Packet()) == nb.len
              && T.ResetFor(cfg, Parse(old(Head(nb)))) == Some(Parse(nb.Packet()))
  {
    hide PassesInput;
    hide SentFields;
    hide TurnedRound;
    hide Parse;
    hide Offset;
    hide FlagsOf;
    ghost var b, d, p := nb.llh, nb.buf[..], Head(nb);
    FlagsAt(p);
    assert p[33] == nb.buf[b + 33];
    nextIpid := ipid;
    if FlagsOf(nb.buf[nb.llh + 33]).rst {
      nb.len := 0;
      return;
    }
    WriteReset(nb, cfg.host);
    ghost var e := nb.buf[..];
    nextIpid := SendNoconn(nb, ipid);
    ghost var q := nb.Packet();
    forall i: nat | 12 <= i < 36 ensures p[i] == d[b + i] && q[i] == e[b + i] {
      assert q[i] == nb.buf[b + i] && Untouched(i);
    }
    TurnedMoved(d, e, b, p, q, cfg.host);
    ResetReadBack(cfg, p, q);
  }
}
