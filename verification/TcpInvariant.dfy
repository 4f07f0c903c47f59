/** The invariant of all reachable connection tables, over every run of events. */
module TcpInvariant {
  import opened Words
  import opened TcpConn
  import opened TcpTable

  // ---------------------------------------------------------------- the invariant

  /** The states in which the FIN sent is outstanding. */
  predicate AwaitsFinAck(c: Conn) { c.state == FinWait1 || c.state == Closing || c.state == LastAck }

  /** Every state's outstanding length, the mss bounds and the retransmission bounds. */
  predicate ConnOk(cfg: Config, c: Conn)
    requires cfg.Ok()
  {
    && SizesOk(cfg, c) && (c.mss == 0 <==> c.initialmss == 0)
    && (InSyn(c) || AwaitsFinAck(c) ==> c.len == 1)
    && (c.state == FinWait2 || c.state == TimeWait ==> c.len == 0)
    && c.nrtx <= UIP_MAXRTX
    && (InSyn(c) ==> c.nrtx <= UIP_MAXSYNRTX)
    && (c.stopped ==> c.state == Established)
  }

  predicate SameKey(a: Conn, b: Conn) {
    a.lport == b.lport && a.rport == b.rport && a.ripaddr == b.ripaddr
  }

  /** No two live connections share ports and remote address. */
  predicate KeysUnique(conns: seq<Conn>) {
    forall i, j | 0 <= i < j < |conns| :: conns[i].Live() && conns[j].Live() ==> !SameKey(conns[i], conns[j])
  }

  predicate TableOk(cfg: Config, t: Table)
    requires cfg.Ok()
  {
    && |t.conns| < 256 && |t.listen| < 256 && t.lastport < 32000
    && (forall i | 0 <= i < |t.conns| :: ConnOk(cfg, t.conns[i]))
    && KeysUnique(t.conns)
  }

  predicate PacketFits(cfg: Config, p: Option<Segment>) {
    p.Some? ==> p.value.PacketLen() + cfg.llh <= cfg.bufsize
  }

  /** What every per-connection event keeps. */
  predicate Keeps(cfg: Config, c: Conn, o: Outcome)
    requires cfg.Ok()
  {
    && ConnOk(cfg, o.conn)
    && SameKey(c, o.conn)
    && (o.conn.Live() ==> c.Live())
    && PacketFits(cfg, o.packet)
  }

  lemma FitKeeps(cfg: Config, c: Conn, ackdata: bool, slen: u16)
    requires cfg.Ok() && ConnOk(cfg, c) && c.state == Established
    ensures var c1 := Fit(c, ackdata, slen).0.(nrtx := 0);
            ConnOk(cfg, c1) && SameKey(c, c1) && c1.state == Established
  {
  }

  lemma AppRexmitKeeps(cfg: Config, c: Conn, newdata: bool, slen: u16, reply: Reply,
                       delivered: seq<u8>, acked: bool, advance: nat)
    requires cfg.Ok() && ConnOk(cfg, c) && c.Live() && reply.Ok(cfg)
    ensures Keeps(cfg, c, AppRexmit(cfg, c, newdata, slen, reply, delivered, acked, advance))
  {
  }

  lemma AppSendKeeps(cfg: Config, c: Conn, ackdata: bool, newdata: bool, slen: u16, reply: Reply,
                     delivered: seq<u8>, acked: bool, advance: nat)
    requires cfg.Ok() && ConnOk(cfg, c) && c.state == Established && reply.Ok(cfg)
    ensures Keeps(cfg, c, AppSend(cfg, c, ackdata, newdata, slen, reply, delivered, acked, advance))
  {
    if reply.op != Abort && reply.op != Close {
      FitKeeps(cfg, c, ackdata, slen);
      var fit := Fit(c, ackdata, slen);
      AppRexmitKeeps(cfg, fit.0.(nrtx := 0), newdata || reply.op == Restart, fit.1, reply, delivered, acked, advance);
    }
  }

  lemma CallKeeps(cfg: Config, c: Conn, ackdata: bool, newdata: bool, slen: u16, reply: Reply,
                  delivered: seq<u8>, acked: bool, advance: nat)
    requires cfg.Ok() && ConnOk(cfg, c) && c.state == Established && reply.Ok(cfg)
    ensures Keeps(cfg, c, CallAndSend(cfg, c, ackdata, newdata, slen, reply, delivered, acked, advance))
  {
    AppSendKeeps(cfg, AfterCall(c, reply.op), ackdata, newdata, reply.Slen(slen), reply, delivered, acked, advance);
  }

  /** A tick outside ESTABLISHED. */
  lemma TimerKeepsOthers(cfg: Config, c: Conn, reply: Reply)
    requires cfg.Ok() && ConnOk(cfg, c) && reply.Ok(cfg) && c.state != Established && reply.op != Stop
    ensures Keeps(cfg, c, Timer(cfg, c, reply))
  {
    hide CallAndSend;
    hide AppRexmit;
  }

  lemma TimerKeeps(cfg: Config, c: Conn, reply: Reply)
    requires cfg.Ok() && ConnOk(cfg, c) && reply.Ok(cfg)
    requires reply.op == Stop ==> c.state == Established && !GivesUp(c)
    ensures Keeps(cfg, c, Timer(cfg, c, reply))
  {
    hide CallAndSend;
    hide AppRexmit;
    hide SynPacket;
    if c.state != Established {
      TimerKeepsOthers(cfg, c, reply);
    } else if !c.Outstanding() {
      CallKeeps(cfg, c, false, false, 0, reply, [], false, 0);
    } else if c.timer == 0 && !GivesUp(c) {
      var c1 := AfterCall(c.(timer := Backoff(c.nrtx), nrtx := c.nrtx + 1), reply.op);
      AppRexmitKeeps(cfg, c1, reply.op == Restart, reply.Slen(0), reply, [], false, 0);
    }
  }

  lemma PollKeeps(cfg: Config, c: Conn, slen: u16, reply: Reply)
    requires cfg.Ok() && ConnOk(cfg, c) && reply.Ok(cfg)
    requires reply.op == Stop ==> c.state == Established
    ensures Keeps(cfg, c, PollRequest(cfg, c, slen, reply))
  {
    if c.state == Established && !c.Outstanding() {
      CallKeeps(cfg, c, false, false, slen, reply, [], false, 0);
    }
  }

  /** After ACK processing: unchanged, or nothing outstanding any more. */
  predicate AckedOk(cfg: Config, c: Conn, c1: Conn, acked: bool)
    requires cfg.Ok()
  {
    && SizesOk(cfg, c1) && SameKey(c, c1)
    && c1.state == c.state && c1.stopped == c.stopped && c1.nrtx == c.nrtx
    && c1.len == (if acked then 0 else c.len) && c1.mss == c.mss && c1.initialmss == c.initialmss
  }

  lemma AfterAckKeeps(cfg: Config, c: Conn, seg: Segment)
    requires cfg.Ok() && ConnOk(cfg, c)
    ensures AckedOk(cfg, c, AfterAck(c, seg), Acks(c, seg))
  {
  }

  lemma EstablishedKeeps(cfg: Config, c: Conn, acked: bool, slen: u16, seg: Segment, reply: Reply)
    requires cfg.Ok() && ConnOk(cfg, c) && c.state == Established && reply.Ok(cfg)
    ensures Keeps(cfg, c, InEstablished(cfg, c, acked, slen, seg, reply))
  {
    if !(seg.flags.fin && !c.stopped) {
      var newdata := |seg.payload| > 0 && !c.stopped;
      var taken := if newdata then seg.payload else [];
      var c1 := WindowMss(c.(rcvNxt := Add(c.rcvNxt, |taken|)), seg.wnd);
      CallKeeps(cfg, c1, acked, newdata, 0, reply, taken, acked, |taken|);
    }
  }

  lemma SynRcvdKeeps(cfg: Config, c: Conn, acked: bool, slen: u16, seg: Segment, reply: Reply)
    requires cfg.Ok() && SizesOk(cfg, c) && reply.Ok(cfg) && c.state == SynRcvd && !c.stopped
    requires c.nrtx <= UIP_MAXSYNRTX && c.len == (if acked then 0 else 1) && (c.mss == 0 <==> c.initialmss == 0)
    ensures Keeps(cfg, c, InSynRcvd(cfg, c, acked, slen, seg, reply))
  {
    if acked {
      var c1 := c.(len := 0, rcvNxt := Add(c.rcvNxt, |seg.payload|)).Enter(Established);
      CallKeeps(cfg, c1, false, |seg.payload| > 0, 0, reply, seg.payload, true, |seg.payload|);
    }
  }

  lemma SynSentKeeps(cfg: Config, c: Conn, acked: bool, slen: u16, seg: Segment, reply: Reply)
    requires cfg.Ok() && SizesOk(cfg, c) && reply.Ok(cfg) && c.state == SynSent && !c.stopped
    requires c.nrtx <= UIP_MAXSYNRTX && c.len == (if acked then 0 else 1) && (c.mss == 0 <==> c.initialmss == 0)
    ensures Keeps(cfg, c, InSynSent(cfg, c, acked, slen, seg, reply))
  {
    if acked && seg.flags == SYN_ACK {
      var c1 := TakeMssOption(cfg, c, seg).(len := 0, rcvNxt := Add(seg.seqno, 1)).Enter(Established);
      CallKeeps(cfg, c1, false, true, 0, reply, [], true, 0);
    }
  }

  lemma FoundKeeps(cfg: Config, c: Conn, slen: u16, seg: Segment, reply: Reply)
    requires cfg.Ok() && ConnOk(cfg, c) && c.Live() && reply.Ok(cfg) && seg.Ok()
    requires reply.op == Stop ==> CallbackState(c, seg) == Established
    ensures Keeps(cfg, c, Found(cfg, c, slen, seg, reply))
  {
    hide InEstablished;
    hide InSynRcvd;
    hide InSynSent;
    var acked, c1 := Acks(c, seg), AfterAck(c, seg);
    AfterAckKeeps(cfg, c, seg);
    if !seg.flags.rst && !OutOfOrder(c, seg) {
      match c.state
      case Established => EstablishedKeeps(cfg, c1, acked, slen, seg, reply);
      case SynRcvd => SynRcvdKeeps(cfg, c1, acked, slen, seg, reply);
      case SynSent => SynSentKeeps(cfg, c1, acked, slen, seg, reply);
      case _ =>
    }
  }

  /** Replacing one slot keeps the table invariant when the key stays or is new. */
  lemma PutKeeps(cfg: Config, t: Table, i: nat, c: Conn)
    requires cfg.Ok() && TableOk(cfg, t) && i < |t.conns| && ConnOk(cfg, c)
    requires || (SameKey(t.conns[i], c) && (c.Live() ==> t.conns[i].Live()))
             || forall k | 0 <= k < |t.conns| && k != i && t.conns[k].Live() :: !SameKey(t.conns[k], c)
    ensures TableOk(cfg, t.(conns := t.conns[i := c]))
  {
  }

  /** One event keeps the invariant, and what it sends fits the packet buffer. */
  lemma StepKeeps(cfg: Config, t: Table, e: Event)
    requires cfg.Ok() && TableOk(cfg, t) && EventOk(cfg, t, e) && StopsInEstablished(t, e)
    ensures TableOk(cfg, Step(cfg, t, e).0)
    ensures PacketFits(cfg, Step(cfg, t, e).1)
  {
    match e
    case Tick(i, reply) =>
      TimerKeeps(cfg, t.conns[i], reply);
      PutKeeps(cfg, t, i, Timer(cfg, t.conns[i], reply).conn);
    case Poll(i, reply) =>
      PollKeeps(cfg, t.conns[i], t.slen, reply);
      PutKeeps(cfg, t, i, PollRequest(cfg, t.conns[i], t.slen, reply).conn);
    case Input(seg, reply) =>
      var k := Demux(t.conns, seg);
      if k < |t.conns| {
        FoundKeeps(cfg, t.conns[k], t.slen, seg, reply);
        PutKeeps(cfg, t, k, Found(cfg, t.conns[k], t.slen, seg, reply).conn);
      } else if seg.flags == SYN && seg.destport in t.listen && FreeSlot(t.conns).Some? {
        var i := FreeSlot(t.conns).value;
        PutKeeps(cfg, t, i, PassiveOpen(cfg, t.conns[i], seg, t.iss));
      }
    case Connect(ripaddr, rport) =>
      PortFound(t.conns, t.lastport);
      var port := PortSearch(t.conns, t.lastport, |t.conns| + 1).value;
      if FreeSlot(t.conns).Some? {
        var i := FreeSlot(t.conns).value;
        PutKeeps(cfg, t, i, ActiveOpen(cfg, t.conns[i], t.iss, port, ripaddr, rport));
      }
    case Listen(port) =>
    case Unlisten(port) =>
  }

  // ---------------------------------------------------------------- whole runs

  /** `t1` follows `t` by an event the environment may produce. */
  predicate Follows(cfg: Config, t: Table, e: Event, t1: Table)
    requires cfg.Ok()
  {
    TableShape(cfg, t) && EventOk(cfg, t, e) && StopsInEstablished(t, e) && t1 == Step(cfg, t, e).0
  }

  /** The tables of a run: each event applied to the table before it. */
  ghost predicate IsRun(cfg: Config, tables: seq<Table>, events: seq<Event>)
    requires cfg.Ok()
  {
    && |tables| == |events| + 1
    && (exists n: nat, m: nat, iss: u32 :: n < 256 && m < 256 && tables[0] == Init(n, m, iss))
    && forall k | 0 <= k < |events| :: Follows(cfg, tables[k], events[k], tables[k + 1])
  }

  /** Every table of every run satisfies the invariant. */
  lemma {:induction false} ReachableTables(cfg: Config, tables: seq<Table>, events: seq<Event>, k: nat)
    requires cfg.Ok() && IsRun(cfg, tables, events) && k <= |events|
    ensures TableOk(cfg, tables[k])
  {
    if k > 0 {
      ReachableTables(cfg, tables, events, k - 1);
      assert Follows(cfg, tables[k - 1], events[k - 1], tables[k]);
      StepKeeps(cfg, tables[k - 1], events[k - 1]);
    }
  }

  lemma StepOfRun(cfg: Config, tables: seq<Table>, events: seq<Event>, k: nat)
    requires cfg.Ok() && IsRun(cfg, tables, events) && k < |events|
    ensures |tables| == |events| + 1 && TableOk(cfg, tables[k]) && Follows(cfg, tables[k], events[k], tables[k + 1])
  {
    ReachableTables(cfg, tables, events, k);
  }

  /** Every packet sent in a run fits the packet buffer. */
  lemma ReachablePackets(cfg: Config, tables: seq<Table>, events: seq<Event>, k: nat)
    requires cfg.Ok() && IsRun(cfg, tables, events) && k < |events|
    ensures Follows(cfg, tables[k], events[k], tables[k + 1])
    ensures PacketFits(cfg, Step(cfg, tables[k], events[k]).1)
  {
    ReachableTables(cfg, tables, events, k);
    assert Follows(cfg, tables[k], events[k], tables[k + 1]);
    StepKeeps(cfg, tables[k], events[k]);
  }

  /** In a reachable table the linear search meets the only connection that matches. */
  lemma DemuxUnique(cfg: Config, t: Table, seg: Segment, k: nat)
    requires cfg.Ok() && TableOk(cfg, t) && k < |t.conns| && Matches(t.conns[k], seg)
    ensures Demux(t.conns, seg) == k
  {
    var r := Demux(t.conns, seg);
    assert SameKey(t.conns[r], t.conns[k]);
  }

  /**
   * Opening a connection changes at most one slot, and only a closed one or, if
   * there is none, a TIME_WAIT slot with maximal timer.
   */
  lemma OpeningOverwrites(cfg: Config, t: Table, e: Event, i: nat)
    requires cfg.Ok() && TableOk(cfg, t) && EventOk(cfg, t, e) && i < |t.conns|
    requires e.Connect? || (e.Input? && Demux(t.conns, e.seg) == |t.conns|)
    requires Step(cfg, t, e).0.conns[i] != t.conns[i]
    ensures Reusable(t.conns, i)
    ensures forall j | 0 <= j < |t.conns| && j != i :: Step(cfg, t, e).0.conns[j] == t.conns[j]
    ensures |Step(cfg, t, e).0.conns| == |t.conns|
  {
    FreeSlotMeaning(t.conns, 0, None);
  }

  // ---------------------------------------------------------------- the maximum segment size

  /**
   * New data sent in answer to a segment fits the window it advertises; only a zero
   * window is answered by up to a full segment, to probe the peer.
   */
  lemma WindowRespected(cfg: Config, c: Conn, slen: u16, seg: Segment, reply: Reply)
    requires cfg.Ok() && ConnOk(cfg, c) && reply.Ok(cfg) && seg.Ok() && c.state == Established
    requires !seg.flags.rst && !OutOfOrder(c, seg) && (c.Outstanding() ==> Acks(c, seg))
    ensures var o := Found(cfg, c, slen, seg, reply);
            o.packet.Some? ==>
              |o.packet.value.payload| <= if seg.wnd == 0 || seg.wnd > c.initialmss then c.initialmss else seg.wnd
  {
    AfterAckKeeps(cfg, c, seg);
    if !(seg.flags.fin && !c.stopped) {
      var newdata := |seg.payload| > 0 && !c.stopped;
      var taken := if newdata then seg.payload else [];
      var c1 := AfterAck(c, seg);
      var c2 := WindowMss(c1.(rcvNxt := Add(c1.rcvNxt, |taken|)), seg.wnd);
      CallSendsAtMost(cfg, c2, Acks(c, seg), newdata, 0, reply, taken, Acks(c, seg), |taken|);
    }
  }

  lemma CallSendsAtMost(cfg: Config, c: Conn, ackdata: bool, newdata: bool, slen: u16, reply: Reply,
                        delivered: seq<u8>, acked: bool, advance: nat)
    requires cfg.Ok() && SizesOk(cfg, c) && reply.Ok(cfg) && c.len == 0
    ensures var o := CallAndSend(cfg, c, ackdata, newdata, slen, reply, delivered, acked, advance);
            o.packet.Some? ==> |o.packet.value.payload| <= c.mss
  {
    var c1 := AfterCall(c, reply.op);
    assert Fit(c1, ackdata, reply.Slen(slen)).0.len <= c.mss;
  }
}
