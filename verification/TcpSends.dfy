/**
 * What the engine sends and which state it enters, field by field, against the rules of RFC 9293
 * and with the fields of the connection, the segment and the reply alone.
 */
module TcpSends {
  import opened Words
  import opened TcpConn
  import opened TcpTable
  import opened TcpInvariant

  // ---------------------------------------------------------------- segments

  /** `s` comes from connection `c`: addresses, ports, both numbers, and a window that a stopped connection closes. */
  predicate From(cfg: Config, c: Conn, s: Segment) {
    && s.src == cfg.host && s.dest == c.ripaddr && s.srcport == c.lport && s.destport == c.rport
    && s.seqno == c.sndNxt && s.ackno == c.rcvNxt && s.wnd == if c.stopped then 0 else cfg.window
  }

  /** A segment from `c` with these flags and nothing else. */
  predicate Plain(cfg: Config, c: Conn, s: Segment, fin: bool, syn: bool, rst: bool, ack: bool) {
    From(cfg, c, s) && s.flags == Flags(fin, syn, rst, false, ack) && s.payload == [] && s.mssOpt.None?
  }

  predicate IsAck(cfg: Config, c: Conn, p: Option<Segment>) { p.Some? && Plain(cfg, c, p.value, false, false, false, true) }
  predicate IsFinAck(cfg: Config, c: Conn, p: Option<Segment>) { p.Some? && Plain(cfg, c, p.value, true, false, false, true) }
  predicate IsRstAck(cfg: Config, c: Conn, p: Option<Segment>) { p.Some? && Plain(cfg, c, p.value, false, false, true, true) }

  /** A SYN, with ACK or without, and the largest segment this host takes. */
  predicate IsSyn(cfg: Config, c: Conn, p: Option<Segment>, ack: bool)
    requires cfg.Ok()
  {
    && p.Some? && From(cfg, c, p.value) && p.value.flags == Flags(false, true, false, false, ack)
    && p.value.payload == [] && p.value.mssOpt == Some(cfg.bufsize - cfg.llh - 40)
  }

  /** The first `n` bytes that the application left, pushed and acknowledging. */
  predicate IsData(cfg: Config, c: Conn, p: Option<Segment>, data: seq<u8>, n: nat) {
    && p.Some? && From(cfg, c, p.value) && p.value.flags == Flags(false, false, false, true, true)
    && n <= |data| && p.value.payload == data[..n] && p.value.mssOpt.None?
  }

  /** What the application offers. */
  function Offer(reply: Reply): nat { if reply.send.Some? then reply.send.value else 0 }

  // ---------------------------------------------------------------- the timer

  /** The retransmission limits: 8 in general, 5 for a SYN. */
  function MaxTries(c: Conn): nat { if c.state == SynSent || c.state == SynRcvd then 5 else 8 }

  /** 3 ticks after the first retransmission, twice as many after each of the next four. */
  function NextWait(nrtx: nat): nat { 3 * Pow2(if nrtx > 4 then 4 else nrtx) }

  /**
   * A connection whose timer has run out with something outstanding: `d` and `p` are the connection after
   * the tick and the packet sent. The same sequence numbers are sent again, for data with the bytes that the
   * application offers again.
   */
  predicate Resent(cfg: Config, c: Conn, reply: Reply, d: Conn, p: Option<Segment>)
    requires cfg.Ok()
  {
    if c.nrtx >= MaxTries(c) then d.state == Closed && IsRstAck(cfg, d, p)
    else
      && d.sndNxt == c.sndNxt && d.rcvNxt == c.rcvNxt && d.len == c.len && d.state == c.state
      && d.nrtx == c.nrtx + 1 && d.timer == NextWait(c.nrtx)
      && match c.state
         case SynSent => IsSyn(cfg, c, p, false)
         case SynRcvd => IsSyn(cfg, c, p, true)
         case Established =>
           if Offer(reply) > 0 then IsData(cfg, d, p, reply.data, c.len)
           else if reply.op == Restart then IsAck(cfg, d, p) else p.None?
         case FinWait1 => IsFinAck(cfg, c, p)
         case Closing => IsFinAck(cfg, c, p)
         case LastAck => IsFinAck(cfg, c, p)
         case _ => p.None?
  }

  lemma ExpiredResends(cfg: Config, c: Conn, reply: Reply)
    requires cfg.Ok() && ConnOk(cfg, c) && reply.Ok(cfg) && c.Live() && c.len > 0
    ensures var o := Expired(cfg, c, reply); Resent(cfg, c, reply, o.conn, o.packet)
  {
    hide Backoff;
    hide NextWait;
    WaitIsBackoff(c.nrtx);
  }

  lemma TimerResends(cfg: Config, c: Conn, reply: Reply)
    requires cfg.Ok() && ConnOk(cfg, c) && reply.Ok(cfg) && c.Live() && c.len > 0 && c.timer == 0
    ensures var o := Timer(cfg, c, reply); Resent(cfg, c, reply, o.conn, o.packet)
  {
    hide Expired;
    hide Resent;
    ExpiredResends(cfg, c, reply);
  }

  lemma WaitIsBackoff(n: nat)
    ensures Backoff(n) as int == NextWait(n)
  {
    assert Pow2(1) == 2 && Pow2(2) == 4 && Pow2(3) == 8 && Pow2(4) == 16;
  }

  /** While the timer runs it only counts down; TIME_WAIT and FIN_WAIT_2 are silent. */
  lemma TimerWaits(cfg: Config, c: Conn, reply: Reply)
    requires cfg.Ok() && ConnOk(cfg, c) && reply.Ok(cfg)
    ensures var o := Timer(cfg, c, reply);
            && (c.len > 0 && c.timer > 0 && c.Live() ==> o.packet.None? && o.conn == c.(timer := c.timer - 1))
            && (c.state == TimeWait || c.state == FinWait2 || !c.Live() ==> o.packet.None?)
  {
  }

  // ---------------------------------------------------------------- the callback

  /**
   * What follows a callback on connection `c`: an abort resets, a close sends the FIN, and otherwise what the
   * application offers is cut to the segment size, or is what is still outstanding; `news` asks for an ACK at least.
   * `offered` is the length offered.
   */
  predicate Answered(cfg: Config, c: Conn, reply: Reply, offered: nat, news: bool, d: Conn, p: Option<Segment>) {
    && SameKey(c, d) && d.sndNxt == c.sndNxt && d.rcvNxt == c.rcvNxt && d.mss == c.mss && d.initialmss == c.initialmss
    && match reply.op
       case Abort => d.state == Closed && !d.stopped && IsRstAck(cfg, d, p)
       case Close => d.state == FinWait1 && !d.stopped && d.len == 1 && IsFinAck(cfg, d, p)
       case _ =>
         && d.state == c.state && d.stopped == (reply.op == Stop || (c.stopped && reply.op != Restart))
         && d.len as int == (if c.len > 0 then c.len else if offered > c.mss as int then c.mss else offered)
         && if offered > 0 && d.len > 0 then IsData(cfg, d, p, reply.data, d.len)
            else if news || reply.op == Restart then IsAck(cfg, d, p)
            else p.None?
  }

  lemma FitIs(c: Conn, ackdata: bool, n: u16)
    requires ackdata ==> c.len == 0
    ensures var len := if c.len > 0 then c.len else if n > c.mss then c.mss else n;
            Fit(c, ackdata, n) == (c.(len := len), if n > 0 then len else 0)
  {
  }

  lemma RexmitSends(cfg: Config, c: Conn, newdata: bool, slen: u16, reply: Reply, delivered: seq<u8>, acked: bool, advance: nat)
    requires cfg.Ok() && SizesOk(cfg, c) && reply.Ok(cfg)
    ensures var o := AppRexmit(cfg, c, newdata, slen, reply, delivered, acked, advance);
            && o.conn == c && o.delivered == delivered
            && if slen > 0 && c.len > 0 then IsData(cfg, c, o.packet, reply.data, c.len)
               else if newdata then IsAck(cfg, c, o.packet) else o.packet.None?
  {
  }

  /** `ackdata` is set only when nothing is outstanding any more. */
  lemma CallAnswers(cfg: Config, c: Conn, ackdata: bool, newdata: bool, slen: u16, reply: Reply,
                    delivered: seq<u8>, acked: bool, advance: nat)
    requires cfg.Ok() && SizesOk(cfg, c) && reply.Ok(cfg) && (ackdata ==> c.len == 0)
    ensures var o := CallAndSend(cfg, c, ackdata, newdata, slen, reply, delivered, acked, advance);
            && o.delivered == delivered
            && Answered(cfg, c, reply, if reply.send.Some? then reply.send.value else slen, newdata, o.conn, o.packet)
  {
    hide AppRexmit;
    hide Fit;
    hide IsData;
    if reply.op != Abort && reply.op != Close {
      OfferAnswers(cfg, AfterCall(c, reply.op), ackdata, newdata, reply.Slen(slen), reply, delivered, acked, advance);
    }
  }

  lemma OfferAnswers(cfg: Config, c: Conn, ackdata: bool, newdata: bool, n: u16, reply: Reply,
                     delivered: seq<u8>, acked: bool, advance: nat)
    requires cfg.Ok() && SizesOk(cfg, c) && reply.Ok(cfg) && (ackdata ==> c.len == 0) && reply.op != Abort && reply.op != Close
    ensures var o := AppSend(cfg, c, ackdata, newdata, n, reply, delivered, acked, advance);
            var len: u16 := if c.len > 0 then c.len else if n > c.mss then c.mss else n;
            && o.delivered == delivered && o.conn == c.(len := len, nrtx := 0)
            && if n > 0 && len > 0 then IsData(cfg, o.conn, o.packet, reply.data, len)
               else if newdata || reply.op == Restart then IsAck(cfg, o.conn, o.packet)
               else o.packet.None?
  {
    hide AppRexmit;
    hide Fit;
    hide IsData;
    hide IsAck;
    FitIs(c, ackdata, n);
    var fit := Fit(c, ackdata, n);
    RexmitSends(cfg, fit.0.(nrtx := 0), newdata || reply.op == Restart, fit.1, reply, delivered, acked, advance);
  }

  /** An idle open connection asks its application on every tick. */
  lemma TimerAsks(cfg: Config, c: Conn, reply: Reply)
    requires cfg.Ok() && ConnOk(cfg, c) && reply.Ok(cfg) && c.state == Established && c.len == 0
    ensures var o := Timer(cfg, c, reply); Answered(cfg, c, reply, Offer(reply), false, o.conn, o.packet)
  {
    hide CallAndSend;
    CallAnswers(cfg, c, false, false, 0, reply, [], false, 0);
  }

  /** And on every poll request, where the length offered is stale. */
  lemma PollAsks(cfg: Config, c: Conn, slen: u16, reply: Reply)
    requires cfg.Ok() && ConnOk(cfg, c) && reply.Ok(cfg)
    ensures var o := PollRequest(cfg, c, slen, reply);
            if c.state == Established && c.len == 0 then
              Answered(cfg, c, reply, if reply.send.Some? then reply.send.value else slen, false, o.conn, o.packet)
            else o.conn == c && o.packet.None?
  {
    hide CallAndSend;
    CallAnswers(cfg, c, false, false, slen, reply, [], false, 0);
  }

  // ---------------------------------------------------------------- segments that arrive

  /** A reset closes the connection in every state, without an answer. */
  lemma ResetCloses(cfg: Config, c: Conn, slen: u16, seg: Segment, reply: Reply)
    requires cfg.Ok() && SizesOk(cfg, c) && reply.Ok(cfg) && seg.Ok() && seg.flags.rst
    ensures var o := Found(cfg, c, slen, seg, reply);
            && o.conn.state == Closed && (reply.op != Stop ==> !o.conn.Live()) && o.packet.None?
            && o.delivered == [] && o.conn.sndNxt == c.sndNxt && o.conn.rcvNxt == c.rcvNxt
  {
  }

  /** Data, a SYN or a FIN with another number than the one expected is answered by the number expected. */
  lemma UnexpectedAcked(cfg: Config, c: Conn, slen: u16, seg: Segment, reply: Reply)
    requires cfg.Ok() && SizesOk(cfg, c) && reply.Ok(cfg) && seg.Ok() && !seg.flags.rst && seg.seqno != c.rcvNxt
    requires seg.payload != [] || seg.flags.syn || seg.flags.fin
    requires !(c.state == SynSent && seg.flags == Flags(false, true, false, false, true))
    ensures var o := Found(cfg, c, slen, seg, reply); o.conn == c && IsAck(cfg, c, o.packet) && o.delivered == []
  {
  }

  /** The segment acknowledges all that is outstanding. */
  predicate AcksAll(c: Conn, seg: Segment) { seg.flags.ack && c.len > 0 && seg.ackno == Add(c.sndNxt, c.len) }

  /** The states of section 3.3.2 of RFC 9293 after ESTABLISHED: by the ACK of our FIN and by the peer's FIN. */
  function Diagram(s: State, finAcked: bool, fin: bool): State {
    match s
    case FinWait1 => if fin then (if finAcked then TimeWait else Closing) else if finAcked then FinWait2 else FinWait1
    case FinWait2 => if fin then TimeWait else FinWait2
    case Closing => if finAcked then TimeWait else Closing
    case LastAck => if finAcked then Closed else LastAck
    case _ => s
  }

  /**
   * Past ESTABLISHED the connection follows the diagram, counts what arrives in order in FIN_WAIT_1 and FIN_WAIT_2,
   * and acknowledges it; TIME_WAIT acknowledges everything.
   */
  lemma ClosingFollowsDiagram(cfg: Config, c: Conn, slen: u16, seg: Segment, reply: Reply)
    requires cfg.Ok() && ConnOk(cfg, c) && reply.Ok(cfg) && seg.Ok() && !seg.flags.rst && reply.op == Continue
    requires c.state == FinWait1 || c.state == FinWait2 || c.state == Closing || c.state == LastAck || c.state == TimeWait
    requires (seg.payload != [] || seg.flags.syn || seg.flags.fin) ==> seg.seqno == c.rcvNxt
    ensures var o := Found(cfg, c, slen, seg, reply);
            var counts := c.state == FinWait1 || c.state == FinWait2;
            var taken := if counts then |seg.payload| + (if seg.flags.fin then 1 else 0) else 0;
            && o.conn.state == Diagram(c.state, AcksAll(c, seg), seg.flags.fin) && o.delivered == []
            && o.conn.rcvNxt == Add(c.rcvNxt, taken)
            && o.conn.sndNxt == (if AcksAll(c, seg) then Add(c.sndNxt, c.len) else c.sndNxt)
            && (if c.state == TimeWait || (counts && seg.flags.fin) then IsAck(cfg, o.conn, o.packet)
                else if counts && seg.payload != [] && !AcksAll(c, seg) then IsAck(cfg, o.conn, o.packet)
                else o.packet.None?)
  {
    hide Deviation;
    hide NextSa;
    hide NextSv;
    hide Add;
    hide InEstablished;
    hide InSynRcvd;
    hide InSynSent;
    AfterAckKeeps(cfg, c, seg);
    AddZero(c.rcvNxt);
    AddAdd(c.rcvNxt, |seg.payload|, 1);
  }

  /** The connection after an acknowledgement and `n` bytes taken, all but timer and estimator. */
  function Advanced(c: Conn, seg: Segment, n: nat): Conn {
    c.(sndNxt := if AcksAll(c, seg) then Add(c.sndNxt, c.len) else c.sndNxt, rcvNxt := Add(c.rcvNxt, n),
       len := if AcksAll(c, seg) then 0 else c.len)
  }

  /** The segment size that a window leaves; a zero window is probed with full segments. */
  function Usable(c: Conn, wnd: u16): u16 { if 0 < wnd && wnd < c.initialmss then wnd else c.initialmss }

  /**
   * ESTABLISHED, and no FIN is taken: the data in order is delivered unless the connection is stopped, the
   * window bounds what is sent, and the application is asked if there is data or an acknowledgement.
   */
  lemma OpenTakesData(cfg: Config, c: Conn, slen: u16, seg: Segment, reply: Reply)
    requires cfg.Ok() && ConnOk(cfg, c) && reply.Ok(cfg) && seg.Ok() && c.state == Established
    requires !seg.flags.rst && (seg.payload != [] || seg.flags.syn || seg.flags.fin ==> seg.seqno == c.rcvNxt)
    requires !seg.flags.fin || c.stopped
    ensures var o := Found(cfg, c, slen, seg, reply);
            var taken := if c.stopped then [] else seg.payload;
            var c1 := Advanced(c, seg, |taken|).(mss := Usable(c, seg.wnd));
            && o.delivered == taken
            && if taken != [] || AcksAll(c, seg) then Answered(cfg, c1, reply, Offer(reply), taken != [], o.conn, o.packet)
               else o.conn == c1 && o.packet.None?
  {
    hide CallAndSend;
    hide Estimate;
    hide Add;
    hide AppRexmit;
    AfterAckKeeps(cfg, c, seg);
    AckIs(c, seg);
    AddZero(c.rcvNxt);
    var taken := if c.stopped then [] else seg.payload;
    var d := WindowMss(AfterAck(c, seg).(rcvNxt := Add(c.rcvNxt, |taken|)), seg.wnd);
    CallAnswers(cfg, d, Acks(c, seg), taken != [], 0, reply, taken, Acks(c, seg), |taken|);
  }

  lemma AckIs(c: Conn, seg: Segment)
    ensures Acks(c, seg) == AcksAll(c, seg)
    ensures var c1 := AfterAck(c, seg); c1 == Advanced(c, seg, 0).(rcvNxt := c.rcvNxt, sa := c1.sa, sv := c1.sv, rto := c1.rto, timer := c1.timer)
    ensures !AcksAll(c, seg) ==> AfterAck(c, seg) == c
  {
  }

  /** The FIN of the peer is taken, with the data before it, once nothing is outstanding; ours goes back with the ACK. */
  lemma OpenTakesFin(cfg: Config, c: Conn, slen: u16, seg: Segment, reply: Reply)
    requires cfg.Ok() && ConnOk(cfg, c) && reply.Ok(cfg) && seg.Ok() && c.state == Established && !c.stopped
    requires !seg.flags.rst && seg.flags.fin && seg.seqno == c.rcvNxt
    ensures var o := Found(cfg, c, slen, seg, reply);
            if c.len > 0 && !AcksAll(c, seg) then o.conn == c && o.packet.None? && o.delivered == []
            else
              && o.conn.state == LastAck && o.conn.len == 1 && o.conn.rcvNxt == Add(c.rcvNxt, |seg.payload| + 1)
              && o.conn.sndNxt == Advanced(c, seg, 0).sndNxt && SameKey(c, o.conn)
              && o.delivered == seg.payload && IsFinAck(cfg, o.conn, o.packet)
  {
    hide Estimate;
    hide Add;
    AfterAckKeeps(cfg, c, seg);
    AckIs(c, seg);
  }

  /** SYN_RCVD: the ACK of the SYN opens, with the data that comes with it. */
  lemma PassiveOpens(cfg: Config, c: Conn, slen: u16, seg: Segment, reply: Reply)
    requires cfg.Ok() && ConnOk(cfg, c) && reply.Ok(cfg) && seg.Ok() && c.state == SynRcvd
    requires !seg.flags.rst && (seg.payload != [] || seg.flags.syn || seg.flags.fin ==> seg.seqno == c.rcvNxt)
    ensures var o := Found(cfg, c, slen, seg, reply);
            if AcksAll(c, seg) then
              && o.delivered == seg.payload
              && Answered(cfg, Advanced(c, seg, |seg.payload|).(state := Established), reply, Offer(reply), seg.payload != [], o.conn, o.packet)
            else o.conn == c && o.packet.None? && o.delivered == []
  {
    hide CallAndSend;
    hide Estimate;
    hide Add;
    hide AppRexmit;
    AfterAckKeeps(cfg, c, seg);
    AckIs(c, seg);
    var n := |seg.payload|;
    if AcksAll(c, seg) {
      var d := AfterAck(c, seg).(len := 0, rcvNxt := Add(c.rcvNxt, n)).Enter(Established);
      CallAnswers(cfg, d, false, n > 0, 0, reply, seg.payload, true, n);
    }
  }

  /** `p` answers `seg` with a reset: turned round, numbered by its acknowledgement, acknowledging one more than its number. */
  predicate IsReset(cfg: Config, seg: Segment, p: Option<Segment>) {
    if seg.flags.rst then p.None?
    else
      && p.Some? && p.value.src == cfg.host && p.value.dest == seg.src
      && p.value.srcport == seg.destport && p.value.destport == seg.srcport
      && p.value.seqno == seg.ackno && p.value.ackno as int == (seg.seqno + 1) % MOD32
      && p.value.flags == Flags(false, false, true, false, true) && p.value.payload == [] && p.value.mssOpt.None?
  }

  /** SYN_SENT: a SYN-ACK for the SYN opens with its segment size and is acknowledged; anything else ends in a reset. */
  lemma ActiveOpens(cfg: Config, c: Conn, slen: u16, seg: Segment, reply: Reply)
    requires cfg.Ok() && ConnOk(cfg, c) && reply.Ok(cfg) && seg.Ok() && c.state == SynSent && !seg.flags.rst
    requires seg.flags == SYN_ACK || (seg.payload == [] && !seg.flags.syn && !seg.flags.fin) || seg.seqno == c.rcvNxt
    ensures var o := Found(cfg, c, slen, seg, reply);
            && o.delivered == []
            && if AcksAll(c, seg) && seg.flags == SYN_ACK then
                 var size := if seg.mssOpt.Some? then Min(seg.mssOpt.value, cfg.Mss()) else c.initialmss;
                 var c1 := Advanced(c, seg, 0).(state := Established, rcvNxt := Add(seg.seqno, 1), initialmss := size);
                 Answered(cfg, c1.(mss := if seg.mssOpt.Some? then size else c.mss), reply, Offer(reply), true, o.conn, o.packet)
               else o.conn.state == Closed && !o.conn.Live() && IsReset(cfg, seg, o.packet)
  {
    hide CallAndSend;
    hide Estimate;
    hide AppRexmit;
    AfterAckKeeps(cfg, c, seg);
    AckIs(c, seg);
    if AcksAll(c, seg) && seg.flags == SYN_ACK {
      var d := TakeMssOption(cfg, AfterAck(c, seg), seg).(len := 0, rcvNxt := Add(seg.seqno, 1)).Enter(Established);
      CallAnswers(cfg, d, false, true, 0, reply, [], true, 0);
    }
  }

  // ---------------------------------------------------------------- the table

  /** A tick of a slot that waits for an acknowledgement sends again what the connection has outstanding. */
  lemma TickResends(cfg: Config, t: Table, i: nat, reply: Reply)
    requires cfg.Ok() && TableOk(cfg, t) && i < |t.conns| && reply.Ok(cfg)
    requires t.conns[i].Live() && t.conns[i].len > 0 && t.conns[i].timer == 0
    ensures var (t1, packet) := Step(cfg, t, Tick(i, reply));
            && |t1.conns| == |t.conns| && Resent(cfg, t.conns[i], reply, t1.conns[i], packet)
            && (forall k | 0 <= k < |t.conns| && k != i :: t1.conns[k] == t.conns[k])
            && t1.iss as int == (t.iss + 1) % MOD32 && t1.listen == t.listen && t1.lastport == t.lastport
  {
    hide Timer;
    TimerResends(cfg, t.conns[i], reply);
  }

  /** A connection just opened by a SYN: half open, with the peer's number, waiting three ticks. */
  predicate HalfOpen(cfg: Config, was: Conn, syn: Segment, iss: u32, c: Conn)
    requires cfg.Ok()
  {
    && c.state == SynRcvd && !c.stopped && c.lport == syn.destport && c.rport == syn.srcport && c.ripaddr == syn.src
    && c.rcvNxt as int == (syn.seqno + 1) % MOD32 && c.sndNxt == iss && c.len == 1
    && c.timer == 3 && c.rto == 3 && c.nrtx == 0 && c.sa == 0 && c.sv == 4
    && (if syn.mssOpt.Some? then c.mss == c.initialmss && c.mss as int == Min(syn.mssOpt.value, cfg.bufsize - cfg.llh - 40)
        else c.mss == was.mss && c.initialmss == was.initialmss)
  }

  /**
   * A segment that belongs to no live connection: a SYN for a listening port opens a slot that may be taken, and is
   * dropped if there is none; everything else is answered by a reset.
   */
  lemma StrangerAnswered(cfg: Config, t: Table, seg: Segment, reply: Reply)
    requires cfg.Ok() && TableOk(cfg, t) && seg.Ok() && reply.Ok(cfg)
    requires forall k | 0 <= k < |t.conns| && t.conns[k].Live() ::
               !(t.conns[k].lport == seg.destport && t.conns[k].rport == seg.srcport && t.conns[k].ripaddr == seg.src)
    ensures var (t1, packet) := Step(cfg, t, Input(seg, reply));
            if seg.flags == Flags(false, true, false, false, false) && seg.destport in t.listen then
              if forall k | 0 <= k < |t.conns| :: !Reusable(t.conns, k) then t1 == t && packet.None?
              else exists k: nat :: Opened(cfg, t, seg, k, t1, packet)
            else t1 == t && IsReset(cfg, seg, packet)
  {
    hide Reusable;
    hide Opened;
    hide PassiveOpen;
    hide SynPacket;
    FreeSlotMeaning(t.conns, 0, None);
    var r := FreeSlot(t.conns);
    if r.None? {
      NothingReusable(t.conns);
    } else if seg.flags == SYN && seg.destport in t.listen {
      SynOpens(cfg, t, seg, reply, r.value);
    }
  }

  /** The SYN has opened slot `k` and is answered from it. */
  predicate Opened(cfg: Config, t: Table, seg: Segment, k: nat, t1: Table, packet: Option<Segment>)
    requires cfg.Ok()
  {
    && Reusable(t.conns, k) && |t1.conns| == |t.conns| && t1 == t.(conns := t.conns[k := t1.conns[k]])
    && HalfOpen(cfg, t.conns[k], seg, t.iss, t1.conns[k]) && IsSyn(cfg, t1.conns[k], packet, true)
  }

  lemma SynOpens(cfg: Config, t: Table, seg: Segment, reply: Reply, k: nat)
    requires cfg.Ok() && TableOk(cfg, t) && seg.Ok() && reply.Ok(cfg)
    requires Demux(t.conns, seg) == |t.conns| && seg.flags == SYN && seg.destport in t.listen
    requires FreeSlot(t.conns) == Some(k) && Reusable(t.conns, k)
    ensures var (t1, packet) := Step(cfg, t, Input(seg, reply)); Opened(cfg, t, seg, k, t1, packet)
  {
    hide Reusable;
    hide FreeSlot;
  }

  lemma NothingReusable(conns: seq<Conn>)
    requires forall k | 0 <= k < |conns| :: !Unused(conns[k]) && !Lingers(conns[k])
    ensures forall k | 0 <= k < |conns| :: !Reusable(conns, k)
  {
  }

  /** A connection called by this host: its SYN leaves with the second tick, and it takes full segments. */
  predicate Calling(cfg: Config, was: Conn, peer: Ip, rport: u16, port: u16, iss: u32, c: Conn)
    requires cfg.Ok()
  {
    && c.state == SynSent && !c.stopped && c.lport == Htons(port) && c.rport == rport && c.ripaddr == peer
    && c.sndNxt == iss && c.rcvNxt == was.rcvNxt && c.len == 1 && c.mss == c.initialmss && c.mss as int == cfg.bufsize - cfg.llh - 40
    && c.timer == 1 && c.rto == 3 && c.nrtx == 0 && c.sa == 0 && c.sv == 16
  }

  /**
   * uip_connect takes the first port between 4096 and 31999, in turn from the last one, that no live connection
   * uses, and a slot that may be taken; without such a slot nothing but the last port changes.
   */
  lemma ConnectCalls(cfg: Config, t: Table, peer: Ip, rport: u16) returns (k: nat)
    requires cfg.Ok() && TableOk(cfg, t)
    ensures 0 < k <= |t.conns| + 1 && forall j | 0 < j < k :: PortInUse(t.conns, Candidate(t.lastport, j))
    ensures var t1, port := Step(cfg, t, Connect(peer, rport)).0, Candidate(t.lastport, k);
            && t1.lastport == port && (forall i | 0 <= i < |t.conns| && t.conns[i].Live() :: t.conns[i].lport != Htons(port))
            && |t1.conns| == |t.conns| && t1.iss == t.iss && t1.listen == t.listen
            && if forall i | 0 <= i < |t.conns| :: !Reusable(t.conns, i) then t1.conns == t.conns
               else exists i :: Reusable(t.conns, i) && Called(cfg, t, i, peer, rport, port, t1)
    ensures Step(cfg, t, Connect(peer, rport)).1.None?
  {
    hide Reusable;
    hide PortSearch;
    hide Candidate;
    hide PortInUse;
    hide Called;
    hide ActiveOpen;
    FreeSlotMeaning(t.conns, 0, None);
    PortFound(t.conns, t.lastport);
    StartsAtLast(t.lastport);
    k := FirstPort(t.conns, t.lastport, 0, |t.conns| + 1);
    var port, r := Candidate(t.lastport, k), FreeSlot(t.conns);
    UnusedMeans(t.conns, port);
    if r.None? {
      NothingReusable(t.conns);
    } else {
      ConnectTakes(cfg, t, peer, rport, port, r.value);
    }
  }

  lemma UnusedMeans(conns: seq<Conn>, port: u16)
    requires !PortInUse(conns, port)
    ensures forall i | 0 <= i < |conns| && conns[i].Live() :: conns[i].lport != Htons(port)
  {
  }

  lemma ConnectTakes(cfg: Config, t: Table, peer: Ip, rport: u16, port: u16, i: nat)
    requires cfg.Ok() && TableOk(cfg, t) && FreeSlot(t.conns) == Some(i) && PortSearch(t.conns, t.lastport, |t.conns| + 1) == Some(port)
    ensures Called(cfg, t, i, peer, rport, port, Step(cfg, t, Connect(peer, rport)).0)
  {
    hide PortSearch;
    hide PortInUse;
    hide FreeSlot;
    hide Htons;
    PortFound(t.conns, t.lastport);
  }

  /** Slot `i` and no other holds a connection just called. */
  predicate Called(cfg: Config, t: Table, i: nat, peer: Ip, rport: u16, port: u16, t1: Table)
    requires cfg.Ok()
  {
    && i < |t.conns| == |t1.conns| && t1.conns == t.conns[i := t1.conns[i]]
    && Calling(cfg, t.conns[i], peer, rport, port, t.iss, t1.conns[i])
  }

  /** The initial number counts the timer calls of the stack. */
  function Ticks(events: seq<Event>): nat
    decreases |events|
  {
    if events == [] then 0 else Ticks(events[..|events| - 1]) + (if events[|events| - 1].Tick? then 1 else 0)
  }

  lemma {:induction false} IssCountsTicks(cfg: Config, tables: seq<Table>, events: seq<Event>, k: nat)
    requires cfg.Ok() && IsRun(cfg, tables, events) && k <= |events|
    ensures tables[k].iss == Add(tables[0].iss, Ticks(events[..k]))
  {
    hide TableOk;
    hide Step;
    hide Add;
    if k == 0 {
      AddZero(tables[0].iss);
    } else {
      IssCountsTicks(cfg, tables, events, k - 1);
      StepOfRun(cfg, tables, events, k - 1);
      StepIss(cfg, tables[k - 1], events[k - 1]);
      assert events[..k][..k - 1] == events[..k - 1];
      AddAdd(tables[0].iss, Ticks(events[..k - 1]), 1);
    }
  }

  lemma StepIss(cfg: Config, t: Table, e: Event)
    requires cfg.Ok() && TableShape(cfg, t) && EventOk(cfg, t, e)
    ensures Step(cfg, t, e).0.iss == if e.Tick? then Add(t.iss, 1) else t.iss
  {
    hide Timer;
    hide PollRequest;
    hide Found;
    hide Add;
  }

  /** A port is listened to after the call if there was a free place for it, and no other port is affected. */
  lemma ListenMeans(cfg: Config, t: Table, port: u16)
    requires cfg.Ok() && TableOk(cfg, t) && port != 0
    ensures var t1 := Step(cfg, t, Listen(port)).0;
            && t1 == t.(listen := t1.listen) && (port in t1.listen <==> port in t.listen || 0 in t.listen)
            && (forall p: u16 | p != port && p != 0 :: p in t1.listen <==> p in t.listen)
    ensures var t1 := Step(cfg, t, Unlisten(port)).0;
            && t1 == t.(listen := t1.listen) && (forall p: u16 | p != port && p != 0 :: p in t1.listen <==> p in t.listen)
            && multiset(t1.listen)[port] == if port in t.listen then multiset(t.listen)[port] - 1 else 0
  {
    var k, j := IndexOf(t.listen, 0), IndexOf(t.listen, port);
    if k < |t.listen| { PutMeans(t.listen, k, port); }
    if j < |t.listen| { PutMeans(t.listen, j, 0); }
  }

  lemma PutMeans(s: seq<u16>, k: nat, v: u16)
    requires k < |s|
    ensures var r := s[k := v];
            && multiset(r) == multiset(s) - multiset{s[k]} + multiset{v}
            && v in r && forall p: u16 | p != v && p != s[k] :: p in r <==> p in s
  {
    var r := s[k := v];
    assert r[k] == v;
    forall p: u16 | p != v && p != s[k] ensures p in r <==> p in s {
      if p in s { var i :| 0 <= i < |s| && s[i] == p; assert r[i] == p; }
    }
  }
}
