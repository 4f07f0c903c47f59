/** Progress: what one end has sent is delivered once every segment it emitted has been received. */
module TcpProgress {
  import opened Words
  import opened TcpConn
  import TcpInvariant
  import TcpSends
  import opened TcpStream

  /** A segment with data of `p`. */
  predicate CarriesData(w: Wire) { w.seg.payload != [] && !w.seg.flags.rst }

  /** The data outstanding in ESTABLISHED is in a segment that has been sent. */
  ghost predicate IsEmitted(p: Peer, channel: set<Wire>) {
    p.conn.state == Established && p.conn.len > 0 ==>
      exists w :: w in channel && CarriesData(w) && w.offset == p.acked && |w.seg.payload| == p.conn.len as int
  }

  /** A reaction keeps it: data that stays outstanding has been sent, new data is sent at once. */
  lemma EmittedKept(p: Peer, q: Peer, pq: set<Wire>, qp: set<Wire>, e: PeerEvent)
    requires BothOk(p, q, pq, qp) && Allowed(p, q, e, qp) && IsEmitted(p, pq)
    ensures var o, v := React(p, e), View(p, q); IsEmitted(Evolve(v, o), pq + Emitted(v, o))
  {
    hide React;
    hide SendsOk;
    hide Behaves;
    hide PeerOk;
    hide LinkOk;
    hide WireOk;
    hide SynPhase;
    StepFacts(p, q, pq, qp, e);
    var o, v := React(p, e), View(p, q);
    var p1 := Evolve(v, o);
    if p1.conn.state == Established && p1.conn.len > 0 {
      if o.acked || v.conn.len == 0 {
        var w := Wire(o.packet.value, AckedAfter(v, o), v.rcvd + o.advance);
        assert w in Emitted(v, o) && CarriesData(w) && w.offset == p1.acked;
      } else {
        var w :| w in pq && CarriesData(w) && w.offset == p.acked && |w.seg.payload| == p.conn.len as int;
        assert w in pq + Emitted(v, o);
      }
    }
  }

  lemma {:induction false} OutstandingIsEmitted(worlds: seq<World>, moves: seq<Move>, k: nat)
    requires IsRun(worlds, moves) && k <= |moves|
    ensures IsEmitted(worlds[k].a, worlds[k].ab) && IsEmitted(worlds[k].b, worlds[k].ba)
  {
    hide WorldOk;
    hide Possible;
    hide IsEmitted;
    hide Start;
    hide Advance;
    if k == 0 {
      NothingOutstanding(worlds[0]);
    } else {
      OutstandingIsEmitted(worlds, moves, k - 1);
      RunOk(worlds, moves, k - 1);
      assert Moves(worlds[k - 1], moves[k - 1], worlds[k]);
      MoveEmits(worlds[k - 1], moves[k - 1]);
    }
  }

  lemma NothingOutstanding(w: World)
    requires Start(w)
    ensures IsEmitted(w.a, w.ab) && IsEmitted(w.b, w.ba)
  {
  }

  lemma MoveEmits(w: World, m: Move)
    requires WorldOk(w) && Possible(w, m) && IsEmitted(w.a, w.ab) && IsEmitted(w.b, w.ba)
    ensures var w1 := Advance(w, m); IsEmitted(w1.a, w1.ab) && IsEmitted(w1.b, w1.ba)
  {
    hide IsEmitted;
    hide Allowed;
    hide BothOk;
    hide React;
    match m
    case AtA(e) => EmittedKept(w.a, w.b, w.ab, w.ba, e);
    case AtB(e) =>
      BothSwapped(w.a, w.b, w.ab, w.ba);
      EmittedKept(w.b, w.a, w.ba, w.ab, e);
    case Elsewhere =>
  }

  /** The end takes data: it is open, or the data completes its handshake. */
  predicate Takes(q: Peer) { (q.conn.state == Established && !q.conn.stopped) || q.conn.state == SynRcvd }

  /** Data with the first number opens an end in SYN_RCVD and is delivered. */
  lemma OpensWithData(cfg: Config, c: Conn, slen: u16, seg: Segment, reply: Reply)
    requires cfg.Ok() && TcpInvariant.ConnOk(cfg, c) && c.state == SynRcvd && reply.Ok(cfg) && seg.Ok()
    requires !seg.flags.rst && seg.seqno == c.rcvNxt && seg.flags.ack && seg.ackno == Add(c.sndNxt, 1)
    ensures Found(cfg, c, slen, seg, reply).delivered == seg.payload
  {
    hide Add;
    TcpInvariant.AfterAckKeeps(cfg, c, seg);
    var c1 := AfterAck(c, seg);
    var n := |seg.payload|;
    CallFacts(cfg, c1.(len := 0, rcvNxt := Add(c1.rcvNxt, n)).Enter(Established),
              false, n > 0, 0, reply, seg.payload, true, n);
  }

  lemma OpeningReceipt(p: Peer, q: Peer, pq: set<Wire>, qp: set<Wire>, w: Wire)
    requires BothOk(p, q, pq, qp) && w in pq && q.conn.state == SynRcvd && CarriesData(w)
    ensures w.seg.seqno == q.conn.rcvNxt && w.seg.flags.ack && w.seg.ackno == Add(q.conn.sndNxt, 1)
    ensures q.delivered == [] && w.offset == 0
  {
    hide Add;
    assert WireOk(View(p, q), View(q, p), w);
    AddZero(p.isn);
    AddZero(q.isn);
    assert p.acked == 0 && p.rcvd == 0;
  }

  /** Receiving a segment with data, in time or late, leaves all its data delivered. */
  lemma ReceiptDelivers(p: Peer, q: Peer, pq: set<Wire>, qp: set<Wire>, w: Wire, slen: u16, reply: Reply)
    requires BothOk(p, q, pq, qp) && Allowed(q, p, Recv(w, slen, reply), pq) && Takes(q) && CarriesData(w)
    ensures w.offset + |w.seg.payload| <= |Evolve(View(q, p), React(q, Recv(w, slen, reply))).delivered|
  {
    hide Behaves;
    hide SynPhase;
    hide Found;
    assert w in pq;
    assert WireOk(View(p, q), View(q, p), w);
    if q.conn.state == SynRcvd {
      SynCfg(p, q, pq, qp);
      OpeningReceipt(p, q, pq, qp, w);
      OpensWithData(q.cfg, q.conn, slen, w.seg, reply);
    } else if w.offset == q.rcvd {
      assert View(q, p) == q;
      DeliveryExtends(View(p, q), q, pq, w, slen, reply);
    } else {
      assert w.offset + |w.seg.payload| <= q.rcvd;
    }
  }

  lemma SynCfg(p: Peer, q: Peer, pq: set<Wire>, qp: set<Wire>)
    requires BothOk(p, q, pq, qp) && q.conn.state == SynRcvd
    ensures q.cfg.Ok() && TcpInvariant.ConnOk(q.cfg, q.conn)
  {
  }

  // ---------------------------------------------------------------- whole runs

  /** Move `m` is the receipt of `w` by b. */
  predicate Receives(moves: seq<Move>, m: nat, w: Wire) {
    m < |moves| && moves[m].AtB? && moves[m].e.Recv? && moves[m].e.wire == w
  }

  lemma {:induction false} DeliveredGrows(worlds: seq<World>, moves: seq<Move>, j: nat, k: nat)
    requires IsRun(worlds, moves) && j <= k <= |moves|
    ensures worlds[j].b.delivered <= worlds[k].b.delivered
    decreases k
  {
    hide WorldOk;
    hide Possible;
    hide Advance;
    hide Left;
    if j < k {
      DeliveredGrows(worlds, moves, j, k - 1);
      RunOk(worlds, moves, k - 1);
      assert Moves(worlds[k - 1], moves[k - 1], worlds[k]);
      MoveGrows(worlds[k - 1], moves[k - 1]);
    }
  }

  lemma ReceivedIsDelivered(worlds: seq<World>, moves: seq<Move>, m: nat, k: nat, w: Wire)
    requires IsRun(worlds, moves) && m < k <= |moves| && Receives(moves, m, w) && CarriesData(w) && Takes(worlds[m].b)
    ensures w.offset + |w.seg.payload| <= |worlds[k].b.delivered|
  {
    hide React;
    hide BothOk;
    hide Allowed;
    RunOk(worlds, moves, m);
    assert Moves(worlds[m], moves[m], worlds[m + 1]);
    ReceiptDelivers(worlds[m].a, worlds[m].b, worlds[m].ab, worlds[m].ba, w, moves[m].e.slen, moves[m].e.reply);
    DeliveredGrows(worlds, moves, m + 1, k);
  }

  /** `w` is received before `k`, by an end that takes data. */
  ghost predicate Received(worlds: seq<World>, moves: seq<Move>, k: nat, w: Wire)
    requires k <= |moves| < |worlds|
  {
    exists m: nat :: m < k && Receives(moves, m, w) && Takes(worlds[m].b)
  }

  /** What `b` has accepted by `j` is all it was given, unless it has closed. */
  lemma AcceptedIsDelivered(p: Peer, q: Peer, pq: set<Wire>, qp: set<Wire>)
    requires BothOk(p, q, pq, qp) && p.conn.state == Established
    ensures p.sent == p.acked + p.conn.len && p.sent <= |p.stream| && q.delivered <= p.stream
    ensures !Left(q) ==> p.acked <= |q.delivered|
  {
    hide WireOk;
  }

  /**
   * Let b be open at `j`, or still in its handshake. If the data segments that a has outstanding
   * then have each been received once by `k`, sooner or later than `j` and in any order, all that a
   * had sent by `j` has been delivered by `k`.
   */
  lemma EventuallyDelivered(worlds: seq<World>, moves: seq<Move>, j: nat, k: nat)
    requires IsRun(worlds, moves) && j <= k <= |moves| && worlds[j].a.conn.state == Established && !Left(worlds[j].b)
    requires forall w | w in worlds[j].ab && CarriesData(w) && w.offset == worlds[j].a.acked :: Received(worlds, moves, k, w)
    ensures worlds[j].a.sent <= |worlds[j].a.stream|
    ensures worlds[j].a.stream[..worlds[j].a.sent] <= worlds[k].b.delivered
  {
    hide BothOk;
    hide Advance;
    hide Possible;
    hide Left;
    var a := worlds[j].a;
    RunOk(worlds, moves, j);
    RunOk(worlds, moves, k);
    AcceptedIsDelivered(a, worlds[j].b, worlds[j].ab, worlds[j].ba);
    OutstandingIsEmitted(worlds, moves, j);
    DeliveredGrows(worlds, moves, j, k);
    if a.conn.len > 0 {
      var w :| w in worlds[j].ab && CarriesData(w) && w.offset == a.acked && |w.seg.payload| == a.conn.len as int;
      assert Received(worlds, moves, k, w);
      var m: nat :| m < k && Receives(moves, m, w) && Takes(worlds[m].b);
      ReceivedIsDelivered(worlds, moves, m, k, w);
    }
    OkIsFaithful(worlds[k]);
    SameStream(worlds, moves, j, k);
  }

  /** The streams offered are part of the world and never change. */
  lemma {:induction false} SameStream(worlds: seq<World>, moves: seq<Move>, j: nat, k: nat)
    requires IsRun(worlds, moves) && j <= k <= |moves|
    ensures worlds[k].a.stream == worlds[j].a.stream
    decreases k
  {
    hide React;
    hide Possible;
    if j < k {
      SameStream(worlds, moves, j, k - 1);
      assert Moves(worlds[k - 1], moves[k - 1], worlds[k]);
    }
  }

  /** A tick of a when its data has waited long enough, for an application that offers it again. */
  predicate Resends(w: World, m: Move) {
    && m.AtA? && m.e.Tick? && w.a.conn.state == Established && w.a.conn.len > 0 && w.a.conn.timer == 0 && w.a.conn.nrtx < 8
    && m.e.reply.send.Some? && m.e.reply.send.value > 0
  }

  /**
   * Such a tick puts all that is outstanding into the channel once more: a segment of its own at that
   * moment, with the first unacknowledged number, the bytes of the stream, and the number b is to send next.
   */
  lemma OutstandingIsResent(worlds: seq<World>, moves: seq<Move>, k: nat)
    requires IsRun(worlds, moves) && k < |moves| && Resends(worlds[k], moves[k])
    ensures k + 1 < |worlds| && Possible(worlds[k], moves[k])
    ensures var a, o := worlds[k].a, React(worlds[k].a, moves[k].e);
            && o.packet.Some? && a.acked < a.sent <= |a.stream|
            && var s := o.packet.value;
            && s.payload == a.stream[a.acked..a.sent] && s.seqno == Add(a.isn, a.acked) && s.ackno == Add(worlds[k].b.isn, a.rcvd)
            && s.flags == Flags(false, false, false, true, true)
            && Wire(s, a.acked, a.rcvd) in worlds[k + 1].ab
  {
    hide Allowed;
    hide Facts;
    hide WireOk;
    RunOk(worlds, moves, k);
    assert Moves(worlds[k], moves[k], worlds[k + 1]);
    ResentData(worlds[k].a, worlds[k].b, worlds[k].ab, worlds[k].ba, moves[k].e);
  }

  lemma ResentData(p: Peer, q: Peer, pq: set<Wire>, qp: set<Wire>, e: PeerEvent)
    requires BothOk(p, q, pq, qp) && Allowed(p, q, e, qp)
    requires e.Tick? && p.conn.state == Established && p.conn.len > 0 && p.conn.timer == 0 && p.conn.nrtx < 8
    requires e.reply.send.Some? && e.reply.send.value > 0
    ensures View(p, q) == p
    ensures var o := React(p, e);
            && p.acked < p.sent <= |p.stream| && !o.acked && o.advance == 0
            && o.packet.Some? && o.packet.value.payload == p.stream[p.acked..p.sent]
            && o.packet.value.seqno == Add(p.isn, p.acked) && o.packet.value.ackno == Add(q.isn, p.rcvd)
            && o.packet.value.flags == Flags(false, false, false, true, true)
  {
    hide WireOk;
    hide Timer;
    assert View(p, q) == p;
    TcpSends.TimerResends(p.cfg, p.conn, e.reply);
    ReactFacts(p, q, e, qp);
    SentWithinStream(p, e, React(p, e));
  }

  // ---------------------------------------------------------------- the other direction

  /** The same world and the same move with the ends exchanged. */
  function Mirror(w: World): World { World(w.b, w.a, w.ba, w.ab) }
  function MirrorMove(m: Move): Move { if m.AtA? then AtB(m.e) else if m.AtB? then AtA(m.e) else Elsewhere }

  function Mirrored(worlds: seq<World>): seq<World> { seq(|worlds|, k requires 0 <= k < |worlds| => Mirror(worlds[k])) }
  function MirroredMoves(moves: seq<Move>): seq<Move> { seq(|moves|, k requires 0 <= k < |moves| => MirrorMove(moves[k])) }

  /** What is proved of one direction holds of the other: a run seen from the other end is a run. */
  lemma MirrorRun(worlds: seq<World>, moves: seq<Move>)
    requires IsRun(worlds, moves)
    ensures IsRun(Mirrored(worlds), MirroredMoves(moves))
  {
    hide React;
    hide Allowed;
    hide Fresh;
    hide Calling;
    var ws, ms := Mirrored(worlds), MirroredMoves(moves);
    forall k | 0 <= k < |ms| ensures Moves(ws[k], ms[k], ws[k + 1]) {
      assert Moves(worlds[k], moves[k], worlds[k + 1]);
    }
  }

  /** The same for what b sends. */
  lemma EventuallyDeliveredBack(worlds: seq<World>, moves: seq<Move>, j: nat, k: nat)
    requires IsRun(worlds, moves) && j <= k <= |moves| && worlds[j].b.conn.state == Established && !Left(worlds[j].a)
    requires forall w | w in worlds[j].ba && CarriesData(w) && w.offset == worlds[j].b.acked ::
               Received(Mirrored(worlds), MirroredMoves(moves), k, w)
    ensures worlds[j].b.sent <= |worlds[j].b.stream|
    ensures worlds[j].b.stream[..worlds[j].b.sent] <= worlds[k].a.delivered
  {
    hide IsRun;
    hide Received;
    hide Left;
    RunLength(worlds, moves);
    MirrorRun(worlds, moves);
    assert Mirrored(worlds)[j] == Mirror(worlds[j]) && Mirrored(worlds)[k] == Mirror(worlds[k]);
    EventuallyDelivered(Mirrored(worlds), MirroredMoves(moves), j, k);
  }

  lemma RunLength(worlds: seq<World>, moves: seq<Move>)
    requires IsRun(worlds, moves)
    ensures |worlds| == |moves| + 1
  {
  }
}
