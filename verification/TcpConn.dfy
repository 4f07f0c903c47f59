/**
 * One TCP connection of the stack: what a timer tick, a poll request and a
 * matching segment do to it (the per-connection part of uip_process).
 *
 * Sequence numbers are values modulo 2^32; module Sequence shows that the
 * four-byte carry code computes exactly this addition.
 */
module TcpConn {
  import opened Words

  const UIP_RTO: u8 := 3
  const UIP_MAXRTX: u8 := 8
  const UIP_MAXSYNRTX: u8 := 5
  const UIP_TIME_WAIT_TIMEOUT: u8 := 120
  const TCPIP_HLEN: nat := 40
  const MSS_OPTION_LEN: nat := 4

  /** Build-time configuration; buffer sizes stay symbolic. */
  datatype Config = Config(bufsize: u16, llh: u16, window: u16, host: Ip) {
    /** A SYN with its MSS option must fit the packet buffer. */
    predicate Ok() {
      llh as int + TCPIP_HLEN + MSS_OPTION_LEN <= bufsize
    }

    /** UIP_TCP_MSS. */
    function Mss(): (m: u16)
      requires Ok()
    {
      bufsize - llh - TCPIP_HLEN
    }
  }

  datatype State =
    | Closed | SynRcvd | SynSent | Established | FinWait1
    | FinWait2 | Closing | TimeWait | LastAck

  /** struct uip_conn; `state` and `stopped` are the two parts of tcpstateflags. */
  datatype Conn = Conn(
    ripaddr: Ip, lport: u16, rport: u16,
    rcvNxt: u32, sndNxt: u32,
    len: u16, mss: u16, initialmss: u16,
    sa: u8, sv: u8, rto: u8,
    state: State, stopped: bool,
    timer: u8, nrtx: u8)
  {
    predicate Live() { state != Closed || stopped }
    predicate Outstanding() { len > 0 }
    function Enter(s: State): Conn { this.(state := s, stopped := false) }
  }

  datatype Flags = Flags(fin: bool, syn: bool, rst: bool, psh: bool, ack: bool)
  const FIN_ACK := Flags(true, false, false, false, true)
  const RST_ACK := Flags(false, false, true, false, true)
  const SYN_ACK := Flags(false, true, false, false, true)
  const SYN := Flags(false, true, false, false, false)
  const ACK := Flags(false, false, false, false, true)
  const ACK_PSH := Flags(false, false, false, true, true)

  /** A TCP packet; the MSS option is taken as already parsed. */
  datatype Segment = Segment(
    src: Ip, dest: Ip, srcport: u16, destport: u16,
    seqno: u32, ackno: u32, flags: Flags, wnd: u16,
    mssOpt: Option<u16>, payload: seq<u8>)
  {
    /** Length of the IP packet that carries it. */
    function PacketLen(): nat {
      TCPIP_HLEN + (if mssOpt.Some? then MSS_OPTION_LEN else 0) + |payload|
    }

    /** The data length has to fit the 16-bit uip_len next to the headers. */
    predicate Ok() { |payload| + TCPIP_HLEN < 0x1_0000 }
  }

  /** The control call an application may make from its callback. */
  datatype AppOp = Continue | Close | Abort | Stop | Restart

  /**
   * What the application did in one callback: at most one control call, perhaps
   * a uip_send of some length, and the bytes it left in the application area.
   */
  datatype Reply = Reply(op: AppOp, send: Option<u16>, data: seq<u8>) {
    predicate Ok(cfg: Config)
      requires cfg.Ok()
    {
      |data| == cfg.Mss()
    }

    function Slen(slen: u16): u16 { if send.Some? then send.value else slen }
  }

  /** uip_stop() and uip_restart() change the flag part of tcpstateflags. */
  function AfterCall(c: Conn, op: AppOp): Conn {
    if op == Stop then c.(stopped := true)
    else if op == Restart then c.(stopped := false)
    else c
  }

  /**
   * Result of one uip_process call on a connection. `slen` is the global uip_slen;
   * `delivered` is the data handed to the application, `acked` says that the
   * outstanding data was acknowledged and `advance` counts accepted sequence numbers.
   */
  datatype Outcome = Outcome(
    conn: Conn, slen: u16, packet: Option<Segment>,
    delivered: seq<u8>, acked: bool, advance: nat)

  function Add(a: u32, n: nat): u32 { (a + n) % MOD32 }

  lemma AddAdd(x: u32, a: nat, b: nat)
    ensures Add(Add(x, a), b) == Add(x, a + b)
  {
  }

  lemma AddZero(x: u32)
    ensures Add(x, 0) == x
  {
  }

  /** tcp_send: addressing, sequence numbers and window come from the connection. */
  function Packet(cfg: Config, c: Conn, flags: Flags, mssOpt: Option<u16>, payload: seq<u8>): Segment {
    Segment(cfg.host, c.ripaddr, c.lport, c.rport, c.sndNxt, c.rcvNxt, flags,
            if c.stopped then 0 else cfg.window, mssOpt, payload)
  }

  function Bare(cfg: Config, c: Conn, flags: Flags): Option<Segment> {
    Some(Packet(cfg, c, flags, None, []))
  }

  function SynPacket(cfg: Config, c: Conn, flags: Flags): Option<Segment>
    requires cfg.Ok()
  {
    Some(Packet(cfg, c, flags, Some(cfg.Mss()), []))
  }

  /** The reset label: answer with a RST unless the segment is one. */
  function ResetFor(cfg: Config, seg: Segment): Option<Segment> {
    if seg.flags.rst then None
    else Some(Segment(cfg.host, seg.src, seg.destport, seg.srcport,
                      seg.ackno, Add(seg.seqno, 1), RST_ACK, seg.wnd, None, []))
  }

  /** Sizes that every send path relies on. */
  predicate SizesOk(cfg: Config, c: Conn)
    requires cfg.Ok()
  {
    c.len <= cfg.Mss() && c.mss <= c.initialmss <= cfg.Mss()
  }

  /** apprexmit: send the outstanding data, or a bare ACK if there was new data. */
  function AppRexmit(cfg: Config, c: Conn, newdata: bool, slen: u16, reply: Reply,
                     delivered: seq<u8>, acked: bool, advance: nat): Outcome
    requires cfg.Ok() && SizesOk(cfg, c) && reply.Ok(cfg)
  {
    var packet :=
      if slen > 0 && c.len > 0 then Some(Packet(cfg, c, ACK_PSH, None, reply.data[..c.len]))
      else if newdata then Bare(cfg, c, ACK)
      else None;
    Outcome(c, slen, packet, delivered, acked, advance)
  }

  lemma RexmitKeepsConn(cfg: Config, c: Conn, newdata: bool, slen: u16, reply: Reply,
                        delivered: seq<u8>, acked: bool, advance: nat)
    requires cfg.Ok() && SizesOk(cfg, c) && reply.Ok(cfg)
    ensures var o := AppRexmit(cfg, c, newdata, slen, reply, delivered, acked, advance);
            o.conn == c && o.slen == slen
  {
  }

  /** The connection and uip_slen after the send request has been fitted to mss and len. */
  function Fit(c: Conn, ackdata: bool, slen: u16): (Conn, u16) {
    if slen == 0 then (c, 0)
    else
      var c1 := if ackdata then c.(len := 0) else c;
      if c1.len == 0 then
        var n: u16 := if slen > c1.mss then c1.mss else slen;
        (c1.(len := n), n)
      else (c1, c1.len)
  }

  /** appsend: act on what the callback asked for. `c` is the connection after the callback. */
  function AppSend(cfg: Config, c: Conn, ackdata: bool, newdata: bool, slen: u16, reply: Reply,
                   delivered: seq<u8>, acked: bool, advance: nat): Outcome
    requires cfg.Ok() && SizesOk(cfg, c) && reply.Ok(cfg)
  {
    match reply.op
    case Abort =>
      var c1 := c.Enter(Closed);
      Outcome(c1, 0, Bare(cfg, c1, RST_ACK), delivered, acked, advance)
    case Close =>
      var c1 := c.(len := 1, nrtx := 0).Enter(FinWait1);
      Outcome(c1, 0, Bare(cfg, c1, FIN_ACK), delivered, acked, advance)
    case _ =>
      var fit := Fit(c, ackdata, slen);
      AppRexmit(cfg, fit.0.(nrtx := 0), newdata || reply.op == Restart, fit.1, reply,
                delivered, acked, advance)
  }

  /** The callback followed by appsend. */
  function CallAndSend(cfg: Config, c: Conn, ackdata: bool, newdata: bool, slen: u16, reply: Reply,
                       delivered: seq<u8>, acked: bool, advance: nat): Outcome
    requires cfg.Ok() && SizesOk(cfg, c) && reply.Ok(cfg)
  {
    AppSend(cfg, AfterCall(c, reply.op), ackdata, newdata, reply.Slen(slen), reply, delivered, acked, advance)
  }

  /** The last three arguments are only passed through. */
  lemma OnlyBookkeeping(cfg: Config, c: Conn, ackdata: bool, newdata: bool, slen: u16, reply: Reply,
                        delivered: seq<u8>, acked: bool, advance: nat)
    requires cfg.Ok() && SizesOk(cfg, c) && reply.Ok(cfg)
    ensures var o := CallAndSend(cfg, c, ackdata, newdata, slen, reply, delivered, acked, advance);
            var p := CallAndSend(cfg, c, ackdata, newdata, slen, reply, [], false, 0);
            o.conn == p.conn && o.slen == p.slen && o.packet == p.packet
  {
  }

  function Quiet(c: Conn, slen: u16): Outcome { Outcome(c, slen, None, [], false, 0) }

  function Backoff(nrtx: nat): u8 {
    if nrtx == 0 then 3 else if nrtx == 1 then 6 else if nrtx == 2 then 12 else if nrtx == 3 then 24 else 48
  }

  predicate InSyn(c: Conn) { c.state == SynSent || c.state == SynRcvd }

  /** The retransmission limit has been reached. */
  predicate GivesUp(c: Conn) {
    c.nrtx == UIP_MAXRTX || (InSyn(c) && !c.stopped && c.nrtx == UIP_MAXSYNRTX)
  }

  /** The timer has run out: the connection is given up or sends again what is outstanding. */
  function Expired(cfg: Config, c: Conn, reply: Reply): Outcome
    requires cfg.Ok() && SizesOk(cfg, c) && reply.Ok(cfg)
  {
    if GivesUp(c) then
      var c1 := AfterCall(c.(timer := 255).Enter(Closed), reply.op);
      Outcome(c1, reply.Slen(0), Bare(cfg, c1, RST_ACK), [], false, 0)
    else
      var c1 := c.(timer := Backoff(c.nrtx), nrtx := (c.nrtx + 1) % 256);
      match c.state
      case SynRcvd => Outcome(c1, 0, SynPacket(cfg, c1, SYN_ACK), [], false, 0)
      case SynSent => Outcome(c1, 0, SynPacket(cfg, c1, SYN), [], false, 0)
      case Established =>
        AppRexmit(cfg, AfterCall(c1, reply.op), reply.op == Restart, reply.Slen(0), reply, [], false, 0)
      case FinWait1 => Outcome(c1, 0, Bare(cfg, c1, FIN_ACK), [], false, 0)
      case Closing => Outcome(c1, 0, Bare(cfg, c1, FIN_ACK), [], false, 0)
      case LastAck => Outcome(c1, 0, Bare(cfg, c1, FIN_ACK), [], false, 0)
      case _ => Quiet(c1, 0)
  }

  lemma ExpiredAtAnyTime(cfg: Config, c: Conn, reply: Reply)
    requires cfg.Ok() && SizesOk(cfg, c) && reply.Ok(cfg)
    ensures Expired(cfg, c.(timer := 255), reply) == Expired(cfg, c, reply)
  {
    hide AppRexmit;
  }

  /** uip_process(UIP_TIMER) on connection `c`. */
  function Timer(cfg: Config, c: Conn, reply: Reply): Outcome
    requires cfg.Ok() && SizesOk(cfg, c) && reply.Ok(cfg)
  {
    if (c.state == TimeWait || c.state == FinWait2) && !c.stopped then
      var t: u8 := (c.timer + 1) % 256;
      var c1 := c.(timer := t);
      Quiet(if t == UIP_TIME_WAIT_TIMEOUT then c1.Enter(Closed) else c1, 0)
    else if !c.Live() then Quiet(c, 0)
    else if c.Outstanding() then
      if c.timer > 0 then Quiet(c.(timer := c.timer - 1), 0)
      else Expired(cfg, c, reply)
    else if c.state == Established then CallAndSend(cfg, c, false, false, 0, reply, [], false, 0)
    else Quiet(c, 0)
  }

  /** uip_process(UIP_POLL_REQUEST); uip_slen is not reset on this path. */
  function PollRequest(cfg: Config, c: Conn, slen: u16, reply: Reply): Outcome
    requires cfg.Ok() && SizesOk(cfg, c) && reply.Ok(cfg)
  {
    if c.state == Established && !c.Outstanding() then
      CallAndSend(cfg, c, false, false, slen, reply, [], false, 0)
    else Quiet(c, slen)
  }

  /** A value seen through a signed char. */
  function SignedChar(x: int): (m: int)
    ensures -128 <= m < 128
  {
    var y := x % 256;
    if y >= 128 then y - 256 else y
  }

  /** The deviation of a sample from the smoothed time, as the signed char `m`. */
  function Deviation(sa: u8, sample: int): int { SignedChar(SignedChar(sample) - sa / 8) }
  function NextSa(sa: u8, m: int): u8 { (sa + m) % 256 }
  function NextSv(sv: u8, m: int): u8 { (sv + SignedChar(SignedChar(if m < 0 then -m else m) - sv / 4)) % 256 }

  /** Van Jacobson's estimator on u8 and signed char variables. */
  function Estimate(c: Conn): Conn {
    var m := Deviation(c.sa, c.rto - c.timer);
    var sa := NextSa(c.sa, m);
    var sv := NextSv(c.sv, m);
    c.(sa := sa, sv := sv, rto := (sa / 8 + sv) % 256)
  }

  /** Does the segment acknowledge exactly the outstanding data? */
  predicate Acks(c: Conn, seg: Segment) {
    seg.flags.ack && c.Outstanding() && seg.ackno == Add(c.sndNxt, c.len)
  }

  function AfterAck(c: Conn, seg: Segment): Conn {
    if Acks(c, seg) then
      var c1 := if c.nrtx == 0 then Estimate(c) else c;
      c1.(sndNxt := Add(c.sndNxt, c.len), timer := c1.rto, len := 0)
    else c
  }

  /** Data, SYN or FIN that does not start at rcv_nxt: answered by a bare ACK only. */
  predicate OutOfOrder(c: Conn, seg: Segment) {
    && !(c.state == SynSent && seg.flags == SYN_ACK)
    && (|seg.payload| > 0 || seg.flags.syn || seg.flags.fin)
    && seg.seqno != c.rcvNxt
  }

  function ClampMss(cfg: Config, mss: u16): u16
    requires cfg.Ok()
  {
    if mss > cfg.Mss() then cfg.Mss() else mss
  }

  function TakeMssOption(cfg: Config, c: Conn, seg: Segment): Conn
    requires cfg.Ok()
  {
    if seg.mssOpt.Some? then
      c.(mss := ClampMss(cfg, seg.mssOpt.value), initialmss := ClampMss(cfg, seg.mssOpt.value))
    else c
  }

  function WindowMss(c: Conn, wnd: u16): Conn {
    c.(mss := if wnd > c.initialmss || wnd == 0 then c.initialmss else wnd)
  }

  /** uip_process(UIP_DATA) once the segment has been matched with `c`. */
  function Found(cfg: Config, c: Conn, slen: u16, seg: Segment, reply: Reply): Outcome
    requires cfg.Ok() && SizesOk(cfg, c) && reply.Ok(cfg) && seg.Ok()
  {
    if seg.flags.rst then
      Quiet(AfterCall(c.Enter(Closed), reply.op), reply.Slen(slen))
    else if OutOfOrder(c, seg) then
      Outcome(c, slen, Bare(cfg, c, ACK), [], false, 0)
    else
      var acked := Acks(c, seg);
      var c1 := AfterAck(c, seg);
      match c.state
      case SynRcvd => InSynRcvd(cfg, c1, acked, slen, seg, reply)
      case SynSent => InSynSent(cfg, c1, acked, slen, seg, reply)
      case Established => InEstablished(cfg, c1, acked, slen, seg, reply)
      case LastAck =>
        if acked then Outcome(AfterCall(c1.Enter(Closed), reply.op), reply.Slen(slen), None, [], true, 0)
        else Outcome(c1, slen, None, [], false, 0)
      case FinWait1 => InFinWait1(cfg, c1, acked, slen, seg, reply)
      case FinWait2 => InFinWait2(cfg, c1, acked, slen, seg, reply)
      case TimeWait => Outcome(c1, slen, Bare(cfg, c1, ACK), [], acked, 0)
      case Closing =>
        Outcome(if acked then c1.(timer := 0).Enter(TimeWait) else c1, slen, None, [], acked, 0)
      case Closed => Outcome(c1, slen, None, [], acked, 0)
  }

  function InSynRcvd(cfg: Config, c: Conn, acked: bool, slen: u16, seg: Segment, reply: Reply): Outcome
    requires cfg.Ok() && SizesOk(cfg, c) && reply.Ok(cfg)
  {
    if acked then
      CallAndSend(cfg, c.(len := 0, rcvNxt := Add(c.rcvNxt, |seg.payload|)).Enter(Established),
                  false, |seg.payload| > 0, 0, reply, seg.payload, true, |seg.payload|)
    else Outcome(c, slen, None, [], false, 0)
  }

  function InSynSent(cfg: Config, c: Conn, acked: bool, slen: u16, seg: Segment, reply: Reply): Outcome
    requires cfg.Ok() && SizesOk(cfg, c) && reply.Ok(cfg)
  {
    if acked && seg.flags == SYN_ACK then
      var c1 := TakeMssOption(cfg, c, seg).(len := 0, rcvNxt := Add(seg.seqno, 1)).Enter(Established);
      CallAndSend(cfg, c1, false, true, 0, reply, [], true, 0)
    else
      Outcome(c.Enter(Closed), reply.Slen(slen), ResetFor(cfg, seg), [], acked, 0)
  }

  function InEstablished(cfg: Config, c: Conn, acked: bool, slen: u16, seg: Segment, reply: Reply): Outcome
    requires cfg.Ok() && SizesOk(cfg, c) && reply.Ok(cfg)
  {
    var n := |seg.payload|;
    if seg.flags.fin && !c.stopped then
      if c.Outstanding() then Outcome(c, slen, None, [], acked, 0)
      else
        var c1 := c.(rcvNxt := Add(c.rcvNxt, 1 + n), len := 1, nrtx := 0).Enter(LastAck);
        Outcome(c1, reply.Slen(slen), Bare(cfg, c1, FIN_ACK), seg.payload, acked, 1 + n)
    else
      var newdata := n > 0 && !c.stopped;
      var taken := if newdata then seg.payload else [];
      var c1 := WindowMss(c.(rcvNxt := Add(c.rcvNxt, |taken|)), seg.wnd);
      if newdata || acked then CallAndSend(cfg, c1, acked, newdata, 0, reply, taken, acked, |taken|)
      else Outcome(c1, slen, None, [], acked, 0)
  }

  /** FIN_WAIT_1 counts incoming data but does not hand it to the application. */
  function InFinWait1(cfg: Config, c: Conn, acked: bool, slen: u16, seg: Segment, reply: Reply): Outcome
    requires cfg.Ok()
  {
    var n := |seg.payload|;
    if seg.flags.fin then
      var c1 := c.(rcvNxt := Add(c.rcvNxt, n + 1));
      var c2 := if acked then c1.(timer := 0, len := 0).Enter(TimeWait) else c1.Enter(Closing);
      var c3 := AfterCall(c2, reply.op);
      Outcome(c3, reply.Slen(slen), Bare(cfg, c3, ACK), [], acked, n + 1)
    else
      var c1 := c.(rcvNxt := Add(c.rcvNxt, n));
      if acked then Outcome(c1.(len := 0).Enter(FinWait2), slen, None, [], true, n)
      else Outcome(c1, slen, if n > 0 then Bare(cfg, c1, ACK) else None, [], false, n)
  }

  function InFinWait2(cfg: Config, c: Conn, acked: bool, slen: u16, seg: Segment, reply: Reply): Outcome
    requires cfg.Ok()
  {
    var n := |seg.payload|;
    if seg.flags.fin then
      var c1 := c.(timer := 0, rcvNxt := Add(c.rcvNxt, n + 1)).Enter(TimeWait);
      var c2 := AfterCall(c1, reply.op);
      Outcome(c2, reply.Slen(slen), Bare(cfg, c2, ACK), [], acked, n + 1)
    else
      var c1 := c.(rcvNxt := Add(c.rcvNxt, n));
      Outcome(c1, slen, if n > 0 then Bare(cfg, c1, ACK) else None, [], acked, n)
  }
}
