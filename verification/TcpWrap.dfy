/** A run of the engine whose samples never exceed 32 ticks and that wraps the smoothed time. */
module TcpWrap {
  import opened Words
  import opened TcpConn
  import opened TcpTable
  import opened TcpInvariant
  import opened TcpRtt

  const PEER: Ip := Ip(10, 1)
  const PORT: u16 := 80

  predicate TickOrAck(e: Event) { e.Tick? || (e.Input? && e.seg.flags == ACK) }

  /** Nothing is being retransmitted. */
  predicate Calm(t: Table) { forall i | 0 <= i < |t.conns| :: t.conns[i].nrtx == 0 }

  /** Samples of at most 32 ticks, no retransmission, and ticks and acknowledgements only after the first two events. */
  ghost predicate Regular(cfg: Config, tables: seq<Table>, events: seq<Event>)
    requires cfg.Ok()
  {
    && |tables| == |events| + 1 && IsRun(cfg, tables, events)
    && (forall j | 0 <= j < |events| :: SampleIn(tables[j], events[j], 32))
    && (forall j | 0 <= j < |tables| :: Calm(tables[j]))
    && (forall j | 2 <= j < |events| :: TickOrAck(events[j]))
  }

  /** A run as a value: the tables and the events between them. */
  datatype Trace = Trace(tables: seq<Table>, events: seq<Event>) {
    ghost predicate Ok(cfg: Config)
      requires cfg.Ok()
    {
      Regular(cfg, tables, events)
    }

    function Last(): Table
      requires tables != []
    {
      tables[|tables| - 1]
    }

    function Then(cfg: Config, e: Event): Trace
      requires tables != [] && cfg.Ok() && TableShape(cfg, Last()) && EventOk(cfg, Last(), e)
    {
      Trace(tables + [Step(cfg, Last(), e).0], events + [e])
    }
  }

  lemma Extend(cfg: Config, r: Trace, e: Event)
    requires cfg.Ok() && r.Ok(cfg) && EventOk(cfg, r.Last(), e) && StopsInEstablished(r.Last(), e) && SampleIn(r.Last(), e, 32)
    requires TableShape(cfg, r.Last()) ==> Calm(Step(cfg, r.Last(), e).0)
    requires |r.events| >= 2 ==> TickOrAck(e)
    ensures TableOk(cfg, r.Last()) && r.Then(cfg, e).Ok(cfg)
    ensures r.Then(cfg, e).Last() == Step(cfg, r.Last(), e).0
  {
    hide TableOk;
    hide EventOk;
    hide StopsInEstablished;
    hide SampleIn;
    hide Step;
    hide Calm;
    hide TickOrAck;
    ReachableTables(cfg, r.tables, r.events, |r.events|);
    OkIsShaped(cfg, r.Last());
    var s := r.Then(cfg, e);
    forall k | 0 <= k < |s.events| ensures Follows(cfg, s.tables[k], s.events[k], s.tables[k + 1]) && SampleIn(s.tables[k], s.events[k], 32) {
      if k < |r.events| {
        assert Follows(cfg, r.tables[k], r.events[k], r.tables[k + 1]) && SampleIn(r.tables[k], r.events[k], 32);
      }
    }
    assert s.tables[0] == r.tables[0];
  }

  lemma OkIsShaped(cfg: Config, t: Table)
    requires cfg.Ok() && TableOk(cfg, t)
    ensures TableShape(cfg, t)
  {
  }

  function Quiet(cfg: Config): Reply
    requires cfg.Ok()
  {
    Reply(Continue, None, seq(cfg.Mss(), _ => 0))
  }

  /** The application sends one byte whenever the last one has been acknowledged. */
  function SendOne(cfg: Config): Reply
    requires cfg.Ok()
  {
    Reply(Continue, Some(1), seq(cfg.Mss(), _ => 0))
  }

  /** One connection with a byte outstanding that has not been retransmitted. */
  predicate Busy(t: Table, est: Conn) {
    && |t.conns| == 1
    && var c := t.conns[0];
    && (c.state == SynRcvd || c.state == Established) && !c.stopped
    && c.ripaddr == PEER && c.rport == PORT && c.lport == PORT
    && c.len == 1 && c.nrtx == 0 && c.initialmss > 0 && c.mss > 0
    && SameEstimate(c, est)
  }

  /** `n` ticks while the timer runs. */
  lemma {:induction false} TickMany(cfg: Config, r: Trace, est: Conn, n: nat) returns (s: Trace)
    requires cfg.Ok() && r.Ok(cfg) && Busy(r.Last(), est) && n <= r.Last().conns[0].timer
    ensures s.Ok(cfg) && Busy(s.Last(), est) && s.Last().conns[0].timer as int == r.Last().conns[0].timer - n
    decreases n
  {
    if n == 0 {
      s := r;
    } else {
      var q := TickMany(cfg, r, est, n - 1);
      var e := Tick(0, Quiet(cfg));
      Extend(cfg, q, e);
      TickBusy(cfg, q.Last(), est);
      s := q.Then(cfg, e);
    }
  }

  lemma TickBusy(cfg: Config, t: Table, est: Conn)
    requires cfg.Ok() && TableOk(cfg, t) && Busy(t, est) && t.conns[0].timer > 0
    ensures var t1 := Step(cfg, t, Tick(0, Quiet(cfg))).0;
            Busy(t1, est) && t1.conns[0].timer as int == t.conns[0].timer - 1
  {
    hide CallAndSend;
    hide SynPacket;
    hide Bare;
  }

  /** The acknowledgement of what is outstanding; its window leaves the segment size alone. */
  function AckOf(cfg: Config, c: Conn): Segment {
    Segment(PEER, cfg.host, PORT, PORT, 0, Add(c.sndNxt, 1), ACK, 0, None, [])
  }

  /** It is a sample, and the next byte leaves in the answer. */
  lemma AckBusy(cfg: Config, t: Table, est: Conn)
    requires cfg.Ok() && TableOk(cfg, t) && Busy(t, est)
    ensures var e := Input(AckOf(cfg, t.conns[0]), SendOne(cfg));
            && EventOk(cfg, t, e) && Demux(t.conns, e.seg) == 0 && Samples(t.conns[0], e.seg)
            && var t1 := Step(cfg, t, e).0;
            && Busy(t1, Estimate(t.conns[0])) && t1.conns[0].timer == t1.conns[0].rto
  {
    hide Deviation;
    hide NextSa;
    hide NextSv;
    hide Packet;
    hide Bare;
    hide Add;
    var seg, c := AckOf(cfg, t.conns[0]), t.conns[0];
    assert Matches(c, seg);
    AfterAckKeeps(cfg, c, seg);
    AddZero(c.rcvNxt);
  }

  lemma EstimateDepends(c: Conn, d: Conn)
    requires SameEstimate(c, d) && c.timer == d.timer
    ensures SameEstimate(Estimate(c), Estimate(d))
  {
  }

  /** The last event is an acknowledgement that ends a sample on a connection with the estimate of `est`. */
  ghost predicate EndsInSample(s: Trace, est: Conn) {
    var k := |s.events| - 1;
    && 0 <= k < |s.tables| && s.events[k].Input? && |s.tables[k].conns| == 1 && Demux(s.tables[k].conns, s.events[k].seg) == 0
    && Samples(s.tables[k].conns[0], s.events[k].seg)
    && SameEstimate(s.tables[k].conns[0], est) && s.tables[k].conns[0].timer == Waited(est).timer
  }

  /** One sample: the whole timeout or 32 ticks, then the acknowledgement. */
  lemma OneSample(cfg: Config, r: Trace, est: Conn) returns (s: Trace)
    requires cfg.Ok() && r.Ok(cfg) && Busy(r.Last(), est) && r.Last().conns[0].timer == est.rto
    ensures s.Ok(cfg) && Busy(s.Last(), Estimate(Waited(est))) && s.Last().conns[0].timer == Estimate(Waited(est)).rto
    ensures EndsInSample(s, est)
  {
    hide Estimate;
    hide Samples;
    var q := TickMany(cfg, r, est, Min(est.rto, 32));
    ReachableTables(cfg, q.tables, q.events, |q.events|);
    var t := q.Last();
    var e := Input(AckOf(cfg, t.conns[0]), SendOne(cfg));
    AckBusy(cfg, t, est);
    Extend(cfg, q, e);
    EstimateDepends(t.conns[0], Waited(est));
    s := q.Then(cfg, e);
    assert s.tables[|q.events|] == t;
  }

  function SynOf(cfg: Config): Segment { Segment(PEER, cfg.host, PORT, PORT, 0, 0, SYN, 0, Some(536), []) }

  /** The connection that the SYN opens in a slot never used. */
  function Fresh(cfg: Config, iss: u32): Conn
    requires cfg.Ok()
  {
    PassiveOpen(cfg, EMPTY, SynOf(cfg), iss)
  }

  /** A table with one slot, a listener and a SYN. */
  lemma Opening(cfg: Config, iss: u32) returns (r: Trace)
    requires cfg.Ok()
    ensures r.Ok(cfg) && Busy(r.Last(), Fresh(cfg, iss)) && r.Last().conns[0].timer == Fresh(cfg, iss).rto
  {
    var t0 := Init(1, 1, iss);
    var r0 := Trace([t0], []);
    var e1, e2 := Listen(PORT), Input(SynOf(cfg), Quiet(cfg));
    Extend(cfg, r0, e1);
    var r1 := r0.Then(cfg, e1);
    assert IndexOf(t0.listen, 0) == 0;
    assert r1.Last().listen[0] == PORT && r1.Last().conns == [EMPTY];
    assert Demux(r1.Last().conns, SynOf(cfg)) == 1;
    assert FreeSlot(r1.Last().conns) == Some(0);
    Extend(cfg, r1, e2);
    r := r1.Then(cfg, e2);
  }

  lemma {:induction false} SamplesRun(cfg: Config, iss: u32, n: nat) returns (r: Trace)
    requires cfg.Ok()
    ensures r.Ok(cfg) && Busy(r.Last(), Slow(Fresh(cfg, iss), n)) && r.Last().conns[0].timer == Slow(Fresh(cfg, iss), n).rto
    decreases n
  {
    hide Slow;
    hide Fresh;
    hide Busy;
    hide IsRun;
    hide SampleIn;
    hide Calm;
    hide TickOrAck;
    hide Estimate;
    hide Waited;
    hide Samples;
    hide Demux;
    hide SameEstimate;
    if n == 0 {
      SlowStart(Fresh(cfg, iss));
      r := Opening(cfg, iss);
    } else {
      var q := SamplesRun(cfg, iss, n - 1);
      SlowNext(Fresh(cfg, iss), n - 1);
      BusyEstimate(q.Last(), Slow(Fresh(cfg, iss), n - 1));
      r := OneSample(cfg, q, Slow(Fresh(cfg, iss), n - 1));
    }
  }

  /**
   * From an empty table: a peer acknowledges every byte within 32 ticks and before any
   * retransmission, and after its 34th acknowledgement the smoothed time, 256, reads zero.
   */
  lemma EngineWraps(cfg: Config, iss: u32) returns (r: Trace, k: nat)
    requires cfg.Ok()
    ensures Regular(cfg, r.tables, r.events)
    ensures k < |r.events| && r.events[k].Input? && |r.tables[k].conns| == 1 == |r.tables[k + 1].conns|
    ensures var c := r.tables[k].conns[0];
            && Demux(r.tables[k].conns, r.events[k].seg) == 0 && Samples(c, r.events[k].seg)
            && IdealSa(c.sa, c.rto - c.timer) == 256 && r.tables[k + 1].conns[0].sa == 0
  {
    hide Slow;
    hide Fresh;
    hide Busy;
    hide Follows;
    hide SampleIn;
    hide Calm;
    hide TickOrAck;
    hide Samples;
    hide Demux;
    hide IdealSa;
    hide Estimate;
    var q := SamplesRun(cfg, iss, 33);
    ThirtyFourth(cfg, iss);
    var est := Slow(Fresh(cfg, iss), 33);
    BusyEstimate(q.Last(), est);
    r := OneSample(cfg, q, est);
    BusyEstimate(r.Last(), Estimate(Waited(est)));
    k := |r.events| - 1;
  }

  lemma ThirtyFourth(cfg: Config, iss: u32)
    requires cfg.Ok()
    ensures var d := Waited(Slow(Fresh(cfg, iss), 33));
            IdealSa(d.sa, d.rto - d.timer) == 256 && Estimate(d).sa == 0
  {
    hide Slow;
    hide Estimate;
    hide IdealSa;
    hide Waited;
    WrapsAtThirtyTwo(cfg, EMPTY, SynOf(cfg), iss);
  }

  lemma BusyEstimate(t: Table, est: Conn)
    requires Busy(t, est)
    ensures |t.conns| == 1 && SameEstimate(t.conns[0], est)
  {
  }
}
