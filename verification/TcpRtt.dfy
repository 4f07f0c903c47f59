/** The round-trip estimator: bounds over every run of bounded samples. */
module TcpRtt {
  import opened Words
  import opened TcpConn
  import opened TcpTable
  import opened TcpInvariant

  /** The estimator with unbounded integers: Van Jacobson's formulas without a word width. */
  function Dev(sa: int, sample: int): int { sample - sa / 8 }
  function Abs(x: int): int { if x < 0 then -x else x }
  function IdealSa(sa: int, sample: int): int { sa + Dev(sa, sample) }
  function IdealSv(sa: int, sv: int, sample: int): int { sv + (Abs(Dev(sa, sample)) - sv / 4) }

  predicate Bounded(c: Conn, r: int) {
    c.sa <= 8 * r && 3 <= c.sv <= 4 * r && UIP_RTO <= c.rto <= 5 * r
  }

  lemma SmallSigned(x: int)
    requires -128 <= x < 128
    ensures SignedChar(x) == x
  {
  }

  lemma DevSmall(sa: u8, sample: int)
    requires 0 <= sample <= 32
    ensures -31 <= Dev(sa, sample) <= 32 && 0 <= IdealSa(sa, sample)
  {
  }

  /** The smoothed time of a sample of at most 32 ticks, while the sum fits a byte. */
  lemma SaUnwrapped(sa: u8, sample: int)
    requires 0 <= sample <= 32 && IdealSa(sa, sample) < 256
    ensures Deviation(sa, sample) == Dev(sa, sample) && NextSa(sa, Dev(sa, sample)) as int == IdealSa(sa, sample)
  {
    hide SignedChar;
    DevSmall(sa, sample);
    SmallSigned(sample);
    SmallSigned(Dev(sa, sample));
    Wraps8(IdealSa(sa, sample));
  }

  lemma SvSmall(sv: u8, m: int)
    requires -31 <= m <= 32 && sv <= 124
    ensures -31 <= Abs(m) - sv / 4 <= 32 && 0 <= sv + (Abs(m) - sv / 4) < 128
  {
  }

  lemma SvUnwrapped(sa: u8, sv: u8, sample: int)
    requires 0 <= sample <= 32 && sv <= 124
    ensures 0 <= IdealSv(sa, sv, sample) < 128 && NextSv(sv, Dev(sa, sample)) as int == IdealSv(sa, sv, sample)
  {
    hide SignedChar;
    hide Dev;
    DevSmall(sa, sample);
    var m := Dev(sa, sample);
    SvSmall(sv, m);
    SmallSigned(Abs(m));
    SmallSigned(Abs(m) - sv / 4);
    Wraps8(sv + (Abs(m) - sv / 4));
  }

  lemma TimeoutUnwrapped(sa: int, sv: int)
    requires 0 <= sa < 256 && 0 <= sv < 128
    ensures 0 <= sa / 8 + sv < 256 && (sa / 8 + sv) % 256 == sa / 8 + sv
  {
    Wraps8(sa / 8 + sv);
  }

  /** One sample of at most 32 ticks, while nothing wraps: the bytes hold the integers. */
  lemma EstimateUnwrapped(c: Conn)
    requires 0 <= c.rto - c.timer <= 32 && c.sv <= 124 && IdealSa(c.sa, c.rto - c.timer) < 256
    ensures var c1, sample := Estimate(c), c.rto - c.timer;
            && c1.sa as int == IdealSa(c.sa, sample) && c1.sv as int == IdealSv(c.sa, c.sv, sample)
            && c1.rto == c1.sa / 8 + c1.sv
  {
    hide Deviation;
    hide NextSa;
    hide NextSv;
    hide Dev;
    hide IdealSa;
    hide IdealSv;
    var sample := c.rto - c.timer;
    DevSmall(c.sa, sample);
    SaUnwrapped(c.sa, sample);
    SvUnwrapped(c.sa, c.sv, sample);
    TimeoutUnwrapped(IdealSa(c.sa, sample), IdealSv(c.sa, c.sv, sample));
  }

  /** The integer formulas keep the bounds. */
  lemma IdealBounded(sa: int, sv: int, sample: int, r: int)
    requires 4 <= r <= 31 && 0 <= sa <= 8 * r && 3 <= sv <= 4 * r && 0 <= sample <= r
    ensures 0 <= IdealSa(sa, sample) <= 8 * r && 3 <= IdealSv(sa, sv, sample) <= 4 * r
  {
    assert sa - sa / 8 <= 7 * r && -r <= Dev(sa, sample) <= r;
    assert sv - sv / 4 <= 3 * r;
  }

  lemma TimeoutBounded(sa: int, sv: int, r: int)
    requires 0 <= sa <= 8 * r && 3 <= sv <= 4 * r
    ensures 3 <= sa / 8 + sv <= 5 * r
  {
  }

  /** One sample in [0, r]: bounds are kept and no 8-bit operation wraps. */
  lemma EstimateBounded(c: Conn, r: int)
    requires 4 <= r <= 31 && Bounded(c, r) && 0 <= c.rto - c.timer <= r
    ensures Bounded(Estimate(c), r)
    ensures var c1, m := Estimate(c), c.rto - c.timer;
            && c1.sa == IdealSa(c.sa, m) && c1.sv == IdealSv(c.sa, c.sv, m)
            && c1.rto == c1.sa / 8 + c1.sv
  {
    hide Estimate;
    hide IdealSa;
    hide IdealSv;
    IdealBounded(c.sa, c.sv, c.rto - c.timer, r);
    EstimateUnwrapped(c);
    TimeoutBounded(Estimate(c).sa, Estimate(c).sv, r);
  }

  /** Does this segment make the connection take a sample? */
  predicate Samples(c: Conn, seg: Segment) {
    !seg.flags.rst && !OutOfOrder(c, seg) && Acks(c, seg) && c.nrtx == 0
  }

  predicate SameEstimate(c: Conn, d: Conn) { c.sa == d.sa && c.sv == d.sv && c.rto == d.rto }

  lemma CallSame(cfg: Config, c: Conn, ackdata: bool, newdata: bool, slen: u16, reply: Reply,
                 delivered: seq<u8>, acked: bool, advance: nat)
    requires cfg.Ok() && SizesOk(cfg, c) && reply.Ok(cfg)
    ensures SameEstimate(CallAndSend(cfg, c, ackdata, newdata, slen, reply, delivered, acked, advance).conn, c)
  {
  }

  lemma TimerSame(cfg: Config, c: Conn, slen: u16, reply: Reply)
    requires cfg.Ok() && SizesOk(cfg, c) && reply.Ok(cfg)
    ensures SameEstimate(Timer(cfg, c, reply).conn, c) && SameEstimate(PollRequest(cfg, c, slen, reply).conn, c)
  {
    hide CallAndSend;
    hide SynPacket;
    hide Bare;
    CallSame(cfg, c, false, false, 0, reply, [], false, 0);
    CallSame(cfg, c, false, false, slen, reply, [], false, 0);
  }

  lemma EstablishedSame(cfg: Config, c: Conn, acked: bool, slen: u16, seg: Segment, reply: Reply)
    requires cfg.Ok() && SizesOk(cfg, c) && reply.Ok(cfg)
    ensures SameEstimate(InEstablished(cfg, c, acked, slen, seg, reply).conn, c)
    ensures SameEstimate(InSynRcvd(cfg, c, acked, slen, seg, reply).conn, c)
    ensures SameEstimate(InSynSent(cfg, c, acked, slen, seg, reply).conn, c)
  {
    hide CallAndSend;
    hide Bare;
    hide ResetFor;
    forall d: Conn, ackdata: bool, newdata: bool, delivered: seq<u8>, acked: bool, advance: nat | SizesOk(cfg, d)
      ensures SameEstimate(CallAndSend(cfg, d, ackdata, newdata, 0, reply, delivered, acked, advance).conn, d)
    {
      CallSame(cfg, d, ackdata, newdata, 0, reply, delivered, acked, advance);
    }
  }

  /** Only a sample changes the estimator of a connection, and exactly as Estimate does. */
  lemma FoundSame(cfg: Config, c: Conn, slen: u16, seg: Segment, reply: Reply)
    requires cfg.Ok() && ConnOk(cfg, c) && reply.Ok(cfg) && seg.Ok()
    ensures SameEstimate(Found(cfg, c, slen, seg, reply).conn, if Samples(c, seg) then Estimate(c) else c)
    // no sample is taken of what was retransmitted, nor unless all that is outstanding is acknowledged
    ensures Samples(c, seg) ==> c.nrtx == 0 && seg.flags.ack && c.len > 0 && seg.ackno as int == (c.sndNxt + c.len) % MOD32
  {
    hide Estimate;
    hide Bare;
    hide InEstablished;
    hide InSynSent;
    hide InSynRcvd;
    AfterAckKeeps(cfg, c, seg);
    var c1 := AfterAck(c, seg);
    EstablishedSame(cfg, c1, Acks(c, seg), slen, seg, reply);
  }

  lemma FoundBounded(cfg: Config, c: Conn, slen: u16, seg: Segment, reply: Reply, r: int)
    requires cfg.Ok() && ConnOk(cfg, c) && reply.Ok(cfg) && seg.Ok()
    requires 4 <= r <= 31 && Bounded(c, r) && (Samples(c, seg) ==> 0 <= c.rto - c.timer <= r)
    ensures Bounded(Found(cfg, c, slen, seg, reply).conn, r)
  {
    hide Estimate;
    hide Found;
    FoundSame(cfg, c, slen, seg, reply);
    if Samples(c, seg) {
      EstimateBounded(c, r);
    }
  }

  /** Both ways of opening a connection start inside the bounds. */
  lemma OpenBounded(cfg: Config, c: Conn, seg: Segment, iss: u32, port: u16, ripaddr: Ip, rport: u16, r: int)
    requires cfg.Ok() && 4 <= r
    ensures Bounded(PassiveOpen(cfg, c, seg, iss), r) && Bounded(ActiveOpen(cfg, c, iss, port, ripaddr, rport), r)
  {
  }

  predicate AllBounded(t: Table, r: int) { forall i | 0 <= i < |t.conns| && t.conns[i].Live() :: Bounded(t.conns[i], r) }

  /** A sample that this event takes lies in [0, r]. */
  predicate SampleIn(t: Table, e: Event, r: int) {
    e.Input? ==>
      var k := Demux(t.conns, e.seg);
      k < |t.conns| && Samples(t.conns[k], e.seg) ==> 0 <= t.conns[k].rto - t.conns[k].timer <= r
  }

  lemma PutBounded(t: Table, i: nat, c: Conn, r: int)
    requires AllBounded(t, r) && i < |t.conns| && (c.Live() ==> Bounded(c, r))
    ensures AllBounded(t.(conns := t.conns[i := c]), r)
  {
  }

  lemma StepBounded(cfg: Config, t: Table, e: Event, r: int)
    requires cfg.Ok() && TableOk(cfg, t) && EventOk(cfg, t, e) && StopsInEstablished(t, e)
    requires 4 <= r <= 31 && AllBounded(t, r) && SampleIn(t, e, r)
    ensures AllBounded(Step(cfg, t, e).0, r)
  {
    hide Timer;
    hide PollRequest;
    hide Found;
    hide PassiveOpen;
    hide ActiveOpen;
    match e
    case Tick(i, reply) =>
      TimerSame(cfg, t.conns[i], t.slen, reply);
      TimerKeeps(cfg, t.conns[i], reply);
      PutBounded(t, i, Timer(cfg, t.conns[i], reply).conn, r);
    case Poll(i, reply) =>
      TimerSame(cfg, t.conns[i], t.slen, reply);
      PollKeeps(cfg, t.conns[i], t.slen, reply);
      PutBounded(t, i, PollRequest(cfg, t.conns[i], t.slen, reply).conn, r);
    case Input(seg, reply) =>
      var k := Demux(t.conns, seg);
      if k < |t.conns| {
        FoundBounded(cfg, t.conns[k], t.slen, seg, reply, r);
        PutBounded(t, k, Found(cfg, t.conns[k], t.slen, seg, reply).conn, r);
      } else if FreeSlot(t.conns).Some? {
        var i := FreeSlot(t.conns).value;
        OpenBounded(cfg, t.conns[i], seg, t.iss, 0, seg.src, 0, r);
        PutBounded(t, i, PassiveOpen(cfg, t.conns[i], seg, t.iss), r);
      }
    case Connect(ripaddr, rport) =>
      PortFound(t.conns, t.lastport);
      var port := PortSearch(t.conns, t.lastport, |t.conns| + 1).value;
      if FreeSlot(t.conns).Some? {
        var i := FreeSlot(t.conns).value;
        OpenBounded(cfg, t.conns[i], Bare(cfg, EMPTY, ACK).value, t.iss, port, ripaddr, rport, r);
        PutBounded(t, i, ActiveOpen(cfg, t.conns[i], t.iss, port, ripaddr, rport), r);
      }
    case Listen(port) =>
    case Unlisten(port) =>
  }

  /** Over every run of the engine whose samples lie in [0, r], every live connection is in bounds. */
  lemma {:induction false} RunBounded(cfg: Config, tables: seq<Table>, events: seq<Event>, r: int, k: nat)
    requires cfg.Ok() && IsRun(cfg, tables, events) && k <= |events| && 4 <= r <= 31
    requires forall j | 0 <= j < |events| :: SampleIn(tables[j], events[j], r)
    ensures AllBounded(tables[k], r)
  {
    if k > 0 {
      RunBounded(cfg, tables, events, r, k - 1);
      ReachableTables(cfg, tables, events, k - 1);
      assert Follows(cfg, tables[k - 1], events[k - 1], tables[k]);
      StepBounded(cfg, tables[k - 1], events[k - 1], r);
    }
  }

  /**
   * A peer that is as slow as the estimate allows: `n` samples, each of them the whole
   * timeout but at most 32 ticks.
   */
  function Slow(c: Conn, n: nat): Conn {
    if n == 0 then c else Estimate(Waited(Slow(c, n - 1)))
  }

  /** The connection when the acknowledgement arrives. */
  function Waited(c: Conn): Conn { c.(timer := if c.rto > 32 then c.rto - 32 else 0) }

  lemma SlowSample(c: Conn)
    ensures 0 <= Waited(c).rto - Waited(c).timer <= 32
  {
  }

  predicate At(c: Conn, sa: u8, sv: u8, rto: u8) { c.sa == sa && c.sv == sv && c.rto == rto }

  lemma SlowStart(c: Conn)
    ensures Slow(c, 0) == c
  {
  }

  lemma SlowNext(c: Conn, n: nat)
    ensures Slow(c, n + 1) == Estimate(Waited(Slow(c, n)))
  {
  }

  /** One such sample while nothing wraps. */
  lemma SlowStep(c: Conn, n: nat, sa: u8, sv: u8, rto: u8)
    requires At(Slow(c, n), sa, sv, rto) && sv <= 124
    requires IdealSa(sa, Min(rto, 32)) < 256
    ensures var sa1, sv1 := IdealSa(sa, Min(rto, 32)), IdealSv(sa, sv, Min(rto, 32));
            0 <= sa1 < 256 && 0 <= sv1 < 256 && sa1 / 8 + sv1 < 256 && At(Slow(c, n + 1), sa1, sv1, sa1 / 8 + sv1)
  {
    hide Estimate;
    hide IdealSa;
    hide IdealSv;
    hide Slow;
    SlowNext(c, n);
    EstimateUnwrapped(Waited(Slow(c, n)));
  }

  lemma SlowUntil7(c: Conn)
    requires At(c, 0, 4, 3)
    ensures At(Slow(c, 7), 112, 70, 84)
  {
    hide At;
    hide Slow;
    SlowStart(c);
    SlowStep(c, 0, 0, 4, 3);
    SlowStep(c, 1, 3, 6, 6);
    SlowStep(c, 2, 9, 11, 12);
    SlowStep(c, 3, 20, 20, 22);
    SlowStep(c, 4, 40, 35, 40);
    SlowStep(c, 5, 67, 54, 62);
    SlowStep(c, 6, 91, 65, 76);
  }

  lemma SlowUntil14(c: Conn)
    requires At(Slow(c, 7), 112, 70, 84)
    ensures At(Slow(c, 14), 201, 50, 75)
  {
    hide At;
    hide Slow;
    SlowStep(c, 7, 112, 70, 84);
    SlowStep(c, 8, 130, 71, 87);
    SlowStep(c, 9, 146, 70, 88);
    SlowStep(c, 10, 160, 67, 87);
    SlowStep(c, 11, 172, 63, 84);
    SlowStep(c, 12, 183, 59, 81);
    SlowStep(c, 13, 193, 55, 79);
  }

  lemma SlowUntil21(c: Conn)
    requires At(Slow(c, 14), 201, 50, 75)
    ensures At(Slow(c, 21), 236, 22, 51)
  {
    hide At;
    hide Slow;
    SlowStep(c, 14, 201, 50, 75);
    SlowStep(c, 15, 208, 45, 71);
    SlowStep(c, 16, 214, 40, 66);
    SlowStep(c, 17, 220, 36, 63);
    SlowStep(c, 18, 225, 32, 60);
    SlowStep(c, 19, 229, 28, 56);
    SlowStep(c, 20, 233, 25, 54);
  }

  lemma SlowUntil28(c: Conn)
    requires At(Slow(c, 21), 236, 22, 51)
    ensures At(Slow(c, 28), 250, 10, 41)
  {
    hide At;
    hide Slow;
    SlowStep(c, 21, 236, 22, 51);
    SlowStep(c, 22, 239, 20, 49);
    SlowStep(c, 23, 242, 18, 48);
    SlowStep(c, 24, 244, 16, 46);
    SlowStep(c, 25, 246, 14, 44);
    SlowStep(c, 26, 248, 13, 44);
    SlowStep(c, 27, 249, 11, 42);
  }

  lemma SlowUntil33(c: Conn)
    requires At(Slow(c, 28), 250, 10, 41)
    ensures At(Slow(c, 33), 255, 7, 38)
  {
    hide At;
    hide Slow;
    SlowStep(c, 28, 250, 10, 41);
    SlowStep(c, 29, 251, 9, 40);
    SlowStep(c, 30, 252, 8, 39);
    SlowStep(c, 31, 253, 7, 38);
    SlowStep(c, 32, 254, 7, 38);
  }

  /**
   * 31 is the largest bound: on a connection opened by a SYN, 34 samples of at most 32 ticks
   * make the smoothed time wrap from 256 to zero.
   */
  lemma WrapsAtThirtyTwo(cfg: Config, slot: Conn, syn: Segment, iss: u32)
    requires cfg.Ok()
    ensures var c := PassiveOpen(cfg, slot, syn, iss);
            var d := Waited(Slow(c, 33));
            && (forall k: nat | k < 34 :: 0 <= Waited(Slow(c, k)).rto - Waited(Slow(c, k)).timer <= 32)
            && Slow(c, 34) == Estimate(d) && Bounded(d, 32)
            && IdealSa(d.sa, d.rto - d.timer) == 256 && Slow(c, 34).sa == 0
  {
    hide Slow;
    var c := PassiveOpen(cfg, slot, syn, iss);
    SlowUntil7(c);
    SlowUntil14(c);
    SlowUntil21(c);
    SlowUntil28(c);
    SlowUntil33(c);
    forall k: nat | k < 34 ensures 0 <= Waited(Slow(c, k)).rto - Waited(Slow(c, k)).timer <= 32 {
      SlowSample(Slow(c, k));
    }
    LastSlow(c);
  }

  lemma LastSlow(c: Conn)
    requires At(Slow(c, 33), 255, 7, 38)
    ensures var d := Waited(Slow(c, 33));
            && Slow(c, 34) == Estimate(d) && Bounded(d, 32)
            && IdealSa(d.sa, d.rto - d.timer) == 256 && Slow(c, 34).sa == 0
  {
    SmallSigned(32);
    SmallSigned(1);
  }
}
