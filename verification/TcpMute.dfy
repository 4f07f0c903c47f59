/** Connections that can send no data: their maximum segment size is zero. */
module TcpMute {
  import opened Words
  import opened TcpConn
  import opened TcpTable
  import opened TcpInvariant

  /** Nothing can be sent, and no SYN-ACK is awaited that could still bring an MSS option. */
  predicate Mute(c: Conn) {
    c.initialmss == 0 && c.mss == 0 && c.state != SynSent && (c.state == Established ==> c.len == 0)
  }

  predicate StaysMute(o: Outcome) {
    Mute(o.conn) && (o.packet.Some? ==> o.packet.value.payload == [])
  }

  lemma CallStaysMute(cfg: Config, c: Conn, ackdata: bool, newdata: bool, slen: u16, reply: Reply,
                      delivered: seq<u8>, acked: bool, advance: nat)
    requires cfg.Ok() && SizesOk(cfg, c) && reply.Ok(cfg) && Mute(c) && c.state == Established
    ensures StaysMute(CallAndSend(cfg, c, ackdata, newdata, slen, reply, delivered, acked, advance))
  {
    var c1 := AfterCall(c, reply.op);
    assert Fit(c1, ackdata, reply.Slen(slen)).0.len == 0;
  }

  lemma TimerStaysMute(cfg: Config, c: Conn, reply: Reply)
    requires cfg.Ok() && SizesOk(cfg, c) && reply.Ok(cfg) && Mute(c)
    requires reply.op == Stop ==> c.state == Established && !GivesUp(c)
    ensures StaysMute(Timer(cfg, c, reply))
  {
    if c.state == Established {
      CallStaysMute(cfg, c, false, false, 0, reply, [], false, 0);
    }
  }

  /** Not even what another connection left in uip_slen leaves on a poll. */
  lemma PollStaysMute(cfg: Config, c: Conn, slen: u16, reply: Reply)
    requires cfg.Ok() && SizesOk(cfg, c) && reply.Ok(cfg) && Mute(c)
    ensures StaysMute(PollRequest(cfg, c, slen, reply))
  {
    if c.state == Established {
      CallStaysMute(cfg, c, false, false, slen, reply, [], false, 0);
    }
  }

  lemma FoundStaysMute(cfg: Config, c: Conn, slen: u16, seg: Segment, reply: Reply)
    requires cfg.Ok() && ConnOk(cfg, c) && reply.Ok(cfg) && seg.Ok() && Mute(c)
    requires reply.op == Stop ==> CallbackState(c, seg) == Established
    ensures StaysMute(Found(cfg, c, slen, seg, reply))
  {
    hide CallAndSend;
    AfterAckKeeps(cfg, c, seg);
    var c1 := AfterAck(c, seg);
    var n := |seg.payload|;
    if c.state == Established && !(seg.flags.fin && !c.stopped) {
      var newdata := n > 0 && !c.stopped;
      var taken := if newdata then seg.payload else [];
      var c2 := WindowMss(c.(rcvNxt := Add(c.rcvNxt, |taken|)), seg.wnd);
      CallStaysMute(cfg, c2, false, newdata, 0, reply, taken, false, |taken|);
    } else if c.state == SynRcvd && Acks(c, seg) {
      var c2 := c1.(len := 0, rcvNxt := Add(c1.rcvNxt, n)).Enter(Established);
      CallStaysMute(cfg, c2, false, n > 0, 0, reply, seg.payload, true, n);
    }
  }

  /**
   * A SYN without an MSS option leaves the slot's previous value in place (section 3.7.1 of
   * RFC 9293 asks for 536). The connection it opens is mute exactly when that value, or the
   * value of the option, is zero.
   */
  lemma MuteExactlyWhen(cfg: Config, c: Conn, syn: Segment, iss: u32)
    requires cfg.Ok() && SizesOk(cfg, c)
    ensures var c1 := PassiveOpen(cfg, c, syn, iss);
            && c1.initialmss == (if syn.mssOpt.Some? then ClampMss(cfg, syn.mssOpt.value) else c.initialmss)
            && (Mute(c1) <==> if syn.mssOpt.Some? then syn.mssOpt.value == 0 else c.initialmss == 0)
  {
  }

  /**
   * The SYN-ACK that opens a connection called by this host, whatever the application does in
   * the callback: mute exactly when its option, or without one the value so far, is zero.
   */
  lemma MuteByAnswer(cfg: Config, c: Conn, slen: u16, seg: Segment, reply: Reply)
    requires cfg.Ok() && ConnOk(cfg, c) && reply.Ok(cfg) && seg.Ok() && c.state == SynSent
    requires seg.flags == SYN_ACK && Acks(c, seg)
    ensures var o := Found(cfg, c, slen, seg, reply);
            && (Mute(o.conn) <==> if seg.mssOpt.Some? then seg.mssOpt.value == 0 else c.initialmss == 0)
            && (Mute(o.conn) && o.packet.Some? ==> o.packet.value.payload == [])
  {
    hide Deviation;
    hide NextSa;
    hide NextSv;
    hide Add;
    AfterAckKeeps(cfg, c, seg);
  }

  /** Every connection in SYN_SENT still has the segment size that uip_connect gave it. */
  predicate CallsFull(cfg: Config, t: Table)
    requires cfg.Ok()
  {
    forall i | 0 <= i < |t.conns| && t.conns[i].state == SynSent :: t.conns[i].initialmss == cfg.Mss()
  }

  predicate StaysFull(c: Conn, c1: Conn) { c1.state == SynSent ==> c.state == SynSent && c1.initialmss == c.initialmss }

  lemma TimerStaysFull(cfg: Config, c: Conn, slen: u16, reply: Reply)
    requires cfg.Ok() && SizesOk(cfg, c) && reply.Ok(cfg)
    ensures StaysFull(c, Timer(cfg, c, reply).conn) && StaysFull(c, PollRequest(cfg, c, slen, reply).conn)
  {
  }

  lemma FoundStaysFull(cfg: Config, c: Conn, slen: u16, seg: Segment, reply: Reply)
    requires cfg.Ok() && ConnOk(cfg, c) && reply.Ok(cfg) && seg.Ok()
    ensures StaysFull(c, Found(cfg, c, slen, seg, reply).conn)
  {
    hide Add;
    hide Bare;
    hide Deviation;
    hide NextSa;
    hide NextSv;
    AfterAckKeeps(cfg, c, seg);
  }

  lemma StepStaysFull(cfg: Config, t: Table, e: Event)
    requires cfg.Ok() && TableOk(cfg, t) && CallsFull(cfg, t) && EventOk(cfg, t, e)
    ensures CallsFull(cfg, Step(cfg, t, e).0)
  {
    hide Timer;
    hide PollRequest;
    hide Found;
    match e
    case Tick(i, reply) => TimerStaysFull(cfg, t.conns[i], t.slen, reply);
    case Poll(i, reply) => TimerStaysFull(cfg, t.conns[i], t.slen, reply);
    case Input(seg, reply) =>
      var k := Demux(t.conns, seg);
      if k < |t.conns| {
        FoundStaysFull(cfg, t.conns[k], t.slen, seg, reply);
      }
    case Connect(_, _) =>
      PortFound(t.conns, t.lastport);
    case _ =>
  }

  lemma {:induction false} RunStaysFull(cfg: Config, tables: seq<Table>, events: seq<Event>, k: nat)
    requires cfg.Ok() && IsRun(cfg, tables, events) && k <= |events|
    ensures CallsFull(cfg, tables[k])
  {
    hide CallsFull;
    hide Step;
    hide TableOk;
    if k == 0 {
      NothingCalled(cfg, tables[0]);
    } else {
      RunStaysFull(cfg, tables, events, k - 1);
      StepOfRun(cfg, tables, events, k - 1);
      StepStaysFull(cfg, tables[k - 1], events[k - 1]);
    }
  }

  lemma NothingCalled(cfg: Config, t: Table)
    requires cfg.Ok() && exists n: nat, m: nat, iss: u32 :: n < 256 && m < 256 && t == Init(n, m, iss)
    ensures CallsFull(cfg, t)
  {
  }

  /** In every run, a connection called by this host becomes mute exactly by a SYN-ACK whose option is zero. */
  lemma CalledIsMute(cfg: Config, tables: seq<Table>, events: seq<Event>, i: nat, k: nat)
    requires cfg.Ok() && IsRun(cfg, tables, events) && k < |events| && events[k].Input? && Demux(tables[k].conns, events[k].seg) == i
    requires i < |tables[k].conns| && tables[k].conns[i].state == SynSent
    requires events[k].seg.flags == SYN_ACK && Acks(tables[k].conns[i], events[k].seg)
    ensures i < |tables[k + 1].conns| && (Mute(tables[k + 1].conns[i]) <==> events[k].seg.mssOpt == Some(0))
  {
    hide Found;
    hide Mute;
    hide Acks;
    StepOfRun(cfg, tables, events, k);
    RunStaysFull(cfg, tables, events, k);
    MuteByAnswer(cfg, tables[k].conns[i], tables[k].slen, events[k].seg, events[k].reply);
  }

  /** A slot that was never used is such a slot. */
  lemma NeverUsedIsMute(cfg: Config, syn: Segment, iss: u32)
    requires cfg.Ok()
    ensures Mute(PassiveOpen(cfg, EMPTY, syn, iss)) <==> syn.mssOpt.None? || syn.mssOpt.value == 0
  {
    MuteExactlyWhen(cfg, EMPTY, syn, iss);
  }

  /**
   * The acknowledgement that establishes the connection: what the application offers in that
   * very callback leaves, up to the segment size, and something leaves exactly if it is not mute.
   */
  lemma FirstData(cfg: Config, c: Conn, slen: u16, seg: Segment, reply: Reply, n: u16)
    requires cfg.Ok() && ConnOk(cfg, c) && reply.Ok(cfg) && seg.Ok() && c.state == SynRcvd
    requires !seg.flags.rst && !OutOfOrder(c, seg) && Acks(c, seg)
    requires reply.op == Continue && reply.send == Some(n) && n > 0
    ensures var o := Found(cfg, c, slen, seg, reply);
            var sent := if o.packet.Some? then o.packet.value.payload else [];
            && o.conn.state == Established && sent == reply.data[..Min(n, c.mss)]
            && (sent != [] <==> !Mute(c))
  {
    AfterAckKeeps(cfg, c, seg);
  }

  /** One step of the table. */
  lemma StepStaysMute(cfg: Config, t: Table, e: Event, i: nat)
    requires cfg.Ok() && TableOk(cfg, t) && EventOk(cfg, t, e) && StopsInEstablished(t, e)
    requires i < |t.conns| && Mute(t.conns[i]) && !Reopens(t, e, i)
    ensures var (t1, packet) := Step(cfg, t, e);
            && |t1.conns| == |t.conns| && Mute(t1.conns[i])
            && (Touches(t, e, i) && packet.Some? ==> packet.value.payload == [])
  {
    hide Timer;
    hide PollRequest;
    hide Found;
    hide PassiveOpen;
    hide ActiveOpen;
    SlotUntouched(cfg, t, e, i);
    if Touches(t, e, i) {
      match e
      case Tick(_, reply) => TimerStaysMute(cfg, t.conns[i], reply);
      case Poll(_, reply) => PollStaysMute(cfg, t.conns[i], t.slen, reply);
      case Input(seg, reply) => FoundStaysMute(cfg, t.conns[i], t.slen, seg, reply);
      case _ =>
    }
  }

  /** In every run, a mute connection sends no data until its slot is opened again. */
  lemma {:induction false} MuteUntilReopened(cfg: Config, tables: seq<Table>, events: seq<Event>, i: nat, j: nat, k: nat)
    requires cfg.Ok() && IsRun(cfg, tables, events) && j <= k <= |events|
    requires i < |tables[j].conns| && Mute(tables[j].conns[i])
    requires forall m | j <= m < k :: !Reopens(tables[m], events[m], i)
    ensures |tables[k].conns| == |tables[j].conns| && Mute(tables[k].conns[i])
    ensures forall m | j <= m < k ::
              && Follows(cfg, tables[m], events[m], tables[m + 1])
              && (Touches(tables[m], events[m], i) && Step(cfg, tables[m], events[m]).1.Some? ==>
                    Step(cfg, tables[m], events[m]).1.value.payload == [])
    decreases k
  {
    hide Mute;
    hide Touches;
    hide Reopens;
    hide Step;
    hide TableOk;
    hide TableShape;
    hide EventOk;
    hide StopsInEstablished;
    if j < k {
      MuteUntilReopened(cfg, tables, events, i, j, k - 1);
      ReachableTables(cfg, tables, events, k - 1);
      assert Follows(cfg, tables[k - 1], events[k - 1], tables[k]);
      StepStaysMute(cfg, tables[k - 1], events[k - 1], i);
    }
  }
}
