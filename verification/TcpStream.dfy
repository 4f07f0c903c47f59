/**
 * Two ends over a channel that may lose, duplicate, delay and reorder, from the SYN on:
 * what is delivered is always a prefix of what the other application offered.
 */
module TcpStream {
  import opened Words
  import opened TcpConn
  import TcpTable
  import opened TcpInvariant

  // ---------------------------------------------------------------- the system

  /**
   * One end. `stream` is all the application will ever offer; `acked` and `sent` count the
   * sequence numbers acknowledged and used so far (the FIN counts one), `finAt` is the
   * position of the FIN, `rcvd` counts accepted sequence numbers of the peer, `delivered`
   * is what the application was given, `told` that it was told of the peer's close and
   * `closedAt` the value of `rcvd` when the application itself closed.
   */
  datatype Peer = Peer(
    cfg: Config, conn: Conn, stream: seq<u8>, isn: u32,
    acked: nat, sent: nat, finAt: Option<nat>,
    rcvd: nat, delivered: seq<u8>, told: bool, closedAt: Option<nat>)

  /** A segment in the channel with the sender's positions when it was sent. */
  datatype Wire = Wire(seg: Segment, offset: nat, upto: nat)

  /** `slen` is uip_slen when the event starts; the stack's other connections may have left anything in it. */
  datatype PeerEvent = Tick(reply: Reply) | Poll(slen: u16, reply: Reply) | Recv(wire: Wire, slen: u16, reply: Reply)

  predicate Ready(p: Peer) { p.cfg.Ok() && SizesOk(p.cfg, p.conn) }

  /** The connection's reaction; a closed end answers a segment with a reset, and the SYN is no data to be acknowledged. */
  function React(p: Peer, e: PeerEvent): Outcome
    requires Ready(p) && e.reply.Ok(p.cfg) && (e.Recv? ==> e.wire.seg.Ok())
  {
    var o := match e
      case Tick(reply) => Timer(p.cfg, p.conn, reply)
      case Poll(slen, reply) => PollRequest(p.cfg, p.conn, slen, reply)
      case Recv(w, slen, reply) =>
        if p.conn.Live() then Found(p.cfg, p.conn, slen, w.seg, reply)
        else Outcome(p.conn, slen, ResetFor(p.cfg, w.seg), [], false, 0);
    if InSyn(p.conn) then o.(acked := false) else o
  }

  /** A connection whose handshake is under way, as it is once it opens. */
  function Opened(c: Conn, isn: u32, peerIsn: u32): Conn {
    if InSyn(c) then c.(state := Established, len := 0, sndNxt := isn, rcvNxt := peerIsn) else c
  }

  function View(p: Peer, q: Peer): Peer { p.(conn := Opened(p.conn, p.isn, q.isn)) }

  function AckedAfter(p: Peer, o: Outcome): nat { if o.acked then p.acked + p.conn.len else p.acked }

  /** The end after a reaction, from its view before. */
  function Evolve(p: Peer, o: Outcome): Peer {
    var acked := AckedAfter(p, o);
    p.(conn := o.conn, acked := acked,
       sent := if o.conn.Live() && !InSyn(o.conn) then acked + o.conn.len else p.sent,
       finAt := if p.conn.state == Established && (o.conn.state == FinWait1 || o.conn.state == LastAck)
                then Some(acked) else p.finAt,
       rcvd := p.rcvd + o.advance,
       delivered := p.delivered + o.delivered,
       told := p.told || (p.conn.state == Established && o.conn.state == LastAck),
       closedAt := if p.conn.state == Established && o.conn.state == FinWait1 then Some(p.rcvd + o.advance)
                   else p.closedAt)
  }

  /** What the reaction puts into the channel; it stays available for ever. */
  function Emitted(p: Peer, o: Outcome): set<Wire> {
    if o.packet.Some? then {Wire(o.packet.value, AckedAfter(p, o), p.rcvd + o.advance)} else {}
  }

  /** The outstanding length the application sees in its callback. */
  function LenSeen(p: Peer, e: PeerEvent): nat {
    if e.Recv? && Acks(p.conn, e.wire.seg) then 0 else p.conn.len
  }

  /** The length offered: uip_slen is stale on a poll request, zero before any other callback. */
  function Offered(e: PeerEvent): nat { e.reply.Slen(if e.Poll? then e.slen else 0) }

  /** Whenever the application offers data, it offers its stream from the first unacknowledged byte. */
  predicate OffersStream(p: Peer, e: PeerEvent) {
    var base := p.acked + p.conn.len - LenSeen(p, e);
    Offered(e) > 0 ==>
      forall k | 0 <= k < |e.reply.data| && (k < Offered(e) || k < LenSeen(p, e)) ::
        base + k < |p.stream| && e.reply.data[k] == p.stream[base + k]
  }

  /** The application's contract: offer the stream, close only with nothing outstanding. */
  predicate Behaves(p: Peer, e: PeerEvent) {
    && (e.reply.op == Close ==> LenSeen(p, e) == 0)
    && (p.conn.state == Established ==> OffersStream(p, e))
  }

  /** And stop only in ESTABLISHED. */
  predicate StopsOpen(c: Conn, e: PeerEvent) {
    e.reply.op == Stop ==>
      if e.Recv? then TcpTable.CallbackState(c, e.wire.seg) == Established
      else c.state == Established && !(e.Tick? && GivesUp(c))
  }

  /** Segments come from the peer `q`, except that anybody may send a reset. */
  predicate Allowed(p: Peer, q: Peer, e: PeerEvent, incoming: set<Wire>) {
    && Ready(p) && e.reply.Ok(p.cfg)
    && (e.Recv? ==> (e.wire in incoming || e.wire.seg.flags.rst) && e.wire.seg.Ok())
    && StopsOpen(p.conn, e) && Behaves(View(p, q), e)
  }

  /** Both ends and the segments sent in each direction so far. */
  datatype World = World(a: Peer, b: Peer, ab: set<Wire>, ba: set<Wire>)

  /** An event at one of the ends, or something else that happens in their stacks. */
  datatype Move = AtA(e: PeerEvent) | AtB(e: PeerEvent) | Elsewhere

  predicate Possible(w: World, m: Move) {
    match m
    case AtA(e) => Allowed(w.a, w.b, e, w.ba)
    case AtB(e) => Allowed(w.b, w.a, e, w.ab)
    case Elsewhere => true
  }

  function Advance(w: World, m: Move): World
    requires Possible(w, m)
  {
    match m
    case AtA(e) =>
      var o, v := React(w.a, e), View(w.a, w.b);
      w.(a := Evolve(v, o), ab := w.ab + Emitted(v, o))
    case AtB(e) =>
      var o, v := React(w.b, e), View(w.b, w.a);
      w.(b := Evolve(v, o), ba := w.ba + Emitted(v, o))
    case Elsewhere => w
  }

  // ---------------------------------------------------------------- the invariant

  predicate StreamState(c: Conn) { !InSyn(c) }

  /** The states after a close by the application itself. */
  predicate OwnClose(c: Conn) {
    c.state == FinWait1 || c.state == FinWait2 || c.state == Closing || c.state == TimeWait
  }

  /** One end seen as a sender. */
  predicate PeerOk(p: Peer) {
    && p.cfg.Ok() && ConnOk(p.cfg, p.conn) && StreamState(p.conn)
    && |p.stream| + 1 < MOD32
    && p.acked <= p.sent
    && (p.conn.Live() ==> p.conn.sndNxt == Add(p.isn, p.acked) && p.sent == p.acked + p.conn.len)
    && (p.conn.state == Established ==> p.finAt.None?)
    && (p.conn.Live() && p.conn.state != Established ==> p.finAt.Some?)
    && (match p.finAt
        case None => p.sent <= |p.stream|
        case Some(f) => f <= |p.stream| && f <= p.acked && p.sent == f + 1)
  }

  /** A late duplicate of the SYN or SYN-ACK that opened the connection. */
  predicate LateSyn(p: Peer, w: Wire) {
    && w.seg.flags.syn && !w.seg.flags.rst && w.seg.payload == []
    && Add(w.seg.seqno, 1) == p.isn && |p.stream| + 2 < MOD32
  }

  /** A segment that `p` has sent to `q`. */
  predicate WireOk(p: Peer, q: Peer, w: Wire) {
    var n := |w.seg.payload|;
    w.seg.flags.rst || LateSyn(p, w) ||
    (&& !w.seg.flags.syn
     && (n > 0 || w.seg.flags.fin ==> w.seg.seqno == Add(p.isn, w.offset) && w.seg.flags.ack)
     && w.upto <= p.rcvd
     && w.seg.ackno == Add(q.isn, w.upto)
     && w.offset <= p.sent
     && (w.seg.flags.fin ==> n == 0 && p.finAt == Some(w.offset))
     && (n > 0 ==>
           && w.offset + n <= |p.stream|
           && w.seg.payload == p.stream[w.offset..w.offset + n]
           && (w.offset + n <= p.acked
               || (p.finAt.None? && w.offset == p.acked && w.offset + n == p.sent))))
  }

  /** How far `q` is in the sequence space of `p`. */
  predicate LinkOk(p: Peer, q: Peer) {
    && (q.rcvd == p.acked || q.rcvd == p.sent)
    && (q.conn.Live() ==> q.conn.rcvNxt == Add(p.isn, q.rcvd))
    && q.delivered <= p.stream
    && |q.delivered| <= q.rcvd
    && (q.conn.state == Established ==> |q.delivered| == q.rcvd && !q.told)
    && (q.conn.state == Established && p.finAt.Some? ==> q.rcvd <= p.finAt.value)
    && (q.told ==> p.finAt == Some(|q.delivered|))
    && (q.conn.state == Established ==> q.closedAt.None?) && (OwnClose(q.conn) ==> q.closedAt.Some?)
    && (match q.closedAt
        case Some(n) => |q.delivered| == n
        case None => |q.delivered| + (if q.told then 1 else 0) == q.rcvd)
  }

  predicate HalfOk(p: Peer, q: Peer, channel: set<Wire>) {
    && PeerOk(p)
    && LinkOk(p, q)
    && forall w | w in channel :: WireOk(p, q, w)
  }

  /** Nothing but SYNs has been sent and nothing has been received. */
  predicate Unsent(p: Peer) {
    && Add(p.conn.sndNxt, 1) == p.isn && |p.stream| + 2 < MOD32
    && p.acked == 0 && p.sent == 0 && p.finAt.None? && p.rcvd == 0 && p.delivered == [] && !p.told && p.closedAt.None?
  }

  /** What an end in SYN_RCVD sends: the SYN-ACK, and a bare ACK for a SYN that comes again. */
  predicate IsAnswer(p: Peer, q: Peer, w: Wire) {
    && (w.seg.flags == SYN_ACK || w.seg.flags == ACK) && w.seg.payload == [] && w.seg.ackno == q.isn
    && Add(w.seg.seqno, 1) == p.isn
  }

  /** The handshake as `p` sees it: its peer cannot be open before `p` has acknowledged anything. */
  predicate SynPhase(p: Peer, q: Peer, channel: set<Wire>, incoming: set<Wire>) {
    && p.cfg.Ok() && (InSyn(p.conn) ==> Unsent(p) && ConnOk(p.cfg, p.conn))
    && (p.conn.state == SynRcvd ==> p.conn.rcvNxt == q.isn && q.conn.state != SynRcvd)
    && (p.conn.state == SynSent ==>
          && (q.conn.state == SynRcvd || !q.conn.Live())
          && (forall w | w in channel :: w.seg.flags.rst || w.seg.flags == SYN)
          && (forall w | w in incoming :: w.seg.flags.rst || IsAnswer(q, p, w)))
  }

  predicate BothOk(p: Peer, q: Peer, pq: set<Wire>, qp: set<Wire>) {
    && SynPhase(p, q, pq, qp) && SynPhase(q, p, qp, pq)
    && HalfOk(View(p, q), View(q, p), pq) && HalfOk(View(q, p), View(p, q), qp)
  }

  predicate WorldOk(w: World) { BothOk(w.a, w.b, w.ab, w.ba) }

  // ---------------------------------------------------------------- arithmetic modulo 2^32

  lemma AddInjective(x: u32, a: nat, b: nat)
    requires a < MOD32 && b < MOD32 && Add(x, a) == Add(x, b)
    ensures a == b
  {
  }

  lemma AddDistinct(x: u32, a: nat, b: nat)
    requires a < b < MOD32
    ensures Add(x, a) != Add(x, b)
  {
    if Add(x, a) == Add(x, b) { AddInjective(x, a, b); }
  }

  // ---------------------------------------------------------------- what one reaction can do

  /** The effect of any event on a connection past its handshake. */
  predicate Sound(cfg: Config, c: Conn, o: Outcome, reply: Reply, offered: nat) {
    && StreamState(o.conn)
    && (o.conn.Live() ==> c.Live())
    && (o.conn.state == Established ==> c.state == Established)
    && (c.state == Established && o.conn.Live() && o.conn.state != Established ==>
          (o.conn.state == FinWait1 || o.conn.state == LastAck))
    && (OwnClose(o.conn) ==> OwnClose(c) || (c.state == Established && o.conn.state == FinWait1))
    && (o.conn.Live() ==>
          o.conn.sndNxt == (if o.acked then Add(c.sndNxt, c.len) else c.sndNxt) && o.conn.rcvNxt == Add(c.rcvNxt, o.advance))
    && (o.acked ==> c.len > 0 && c.Live())
    && (o.conn.Live() && !o.acked && c.len > 0 && o.conn.state != FinWait1 ==> o.conn.len == c.len)
    && (o.conn.Live() && c.state != Established ==> o.conn.len == (if o.acked then 0 else c.len))
    && (o.conn.state == Established && (o.acked || c.len == 0) ==>
          o.conn.len == 0 || (o.conn.len <= offered && o.conn.len <= |reply.data|))
  }

  /** What a reaction sends. */
  predicate SendsOk(cfg: Config, c: Conn, o: Outcome, reply: Reply, offered: nat) {
    o.packet.Some? ==>
      var s := o.packet.value;
      && !s.flags.syn
      && (!s.flags.rst ==>
            && o.conn.Live()
            && s.seqno == o.conn.sndNxt && s.ackno == o.conn.rcvNxt && s.flags.ack
            && (s.flags.fin ==> s.payload == [] && AwaitsFinAck(o.conn))
            && (s.payload != [] ==>
                  && o.conn.state == Established && offered > 0
                  && o.conn.len <= |reply.data| && s.payload == reply.data[..o.conn.len]))
  }

  /** Data that becomes outstanding is sent at once. */
  predicate EmitsOk(c: Conn, o: Outcome) {
    o.conn.state == Established && o.conn.len > 0 && (o.acked || c.len == 0) ==>
      o.packet.Some? && !o.packet.value.flags.rst && |o.packet.value.payload| == o.conn.len as int
  }

  /** What a reaction accepts and delivers. */
  predicate AcceptsOk(c: Conn, o: Outcome, e: PeerEvent) {
    && (o.acked ==> e.Recv? && !e.wire.seg.flags.rst && Acks(c, e.wire.seg) && !OutOfOrder(c, e.wire.seg))
    && (o.packet.Some? && o.packet.value.payload != [] && e.Recv? && Acks(c, e.wire.seg) ==> o.acked)
    && (o.advance > 0 ==>
          && c.Live() && e.Recv? && !e.wire.seg.flags.rst && e.wire.seg.seqno == c.rcvNxt
          && o.advance == |e.wire.seg.payload| + (if e.wire.seg.flags.fin then 1 else 0))
    && (o.advance > 0 && c.state != Established ==> OwnClose(c))
    && (o.delivered != [] ==> c.state == Established && e.Recv? && o.delivered == e.wire.seg.payload)
    && (c.state == Established ==>
          |o.delivered| + (if o.conn.state == LastAck then 1 else 0) == o.advance)
    && (c.state == Established && o.conn.state == LastAck ==> e.Recv? && e.wire.seg.flags.fin && (o.acked || c.len == 0))
    && (c.state == Established && o.conn.state == FinWait1 ==>
          e.reply.op == Close && (e.Recv? && Acks(c, e.wire.seg) ==> o.acked))
  }

  /** All of it, for connection `c` reacting to `e` with the offer `offered`. */
  predicate Facts(cfg: Config, c: Conn, o: Outcome, e: PeerEvent, offered: nat) {
    Sound(cfg, c, o, e.reply, offered) && SendsOk(cfg, c, o, e.reply, offered) && AcceptsOk(c, o, e) && EmitsOk(c, o)
  }

  lemma RexmitFacts(cfg: Config, c: Conn, newdata: bool, slen: u16, reply: Reply, offered: nat,
                    delivered: seq<u8>, acked: bool, advance: nat)
    requires cfg.Ok() && SizesOk(cfg, c) && c.state == Established && reply.Ok(cfg)
    requires slen > 0 ==> offered > 0
    ensures var o := AppRexmit(cfg, c, newdata, slen, reply, delivered, acked, advance);
            && o.conn == c && o.acked == acked && o.advance == advance && o.delivered == delivered
            && SendsOk(cfg, c, o, reply, offered)
            && (slen > 0 && c.len > 0 ==>
                  o.packet.Some? && !o.packet.value.flags.rst && |o.packet.value.payload| == c.len as int)
  {
  }

  lemma FitFacts(c: Conn, ackdata: bool, slen: u16)
    ensures var fit := Fit(c, ackdata, slen);
            && fit.0 == c.(len := fit.0.len) && (fit.1 > 0 ==> slen > 0)
            && (c.len > 0 && !ackdata ==> fit.0.len == c.len)
            && (c.len == 0 ==> fit.0.len == fit.1 <= slen)
  {
  }

  /** A callback in ESTABLISHED and what appsend makes of it. */
  lemma CallFacts(cfg: Config, c: Conn, ackdata: bool, newdata: bool, slen: u16, reply: Reply,
                  delivered: seq<u8>, acked: bool, advance: nat)
    requires cfg.Ok() && ConnOk(cfg, c) && c.state == Established && reply.Ok(cfg)
    ensures var o := CallAndSend(cfg, c, ackdata, newdata, slen, reply, delivered, acked, advance);
            && o.conn.sndNxt == c.sndNxt && o.conn.rcvNxt == c.rcvNxt
            && o.acked == acked && o.advance == advance && o.delivered == delivered
            && (o.conn.state == Established || (o.conn.state == FinWait1 && reply.op == Close) || !o.conn.Live())
            && (o.conn.state == Established && c.len > 0 && !ackdata ==> o.conn.len == c.len)
            && (o.conn.state == Established && c.len == 0 ==>
                  o.conn.len == 0 || (o.conn.len <= reply.Slen(slen) && o.conn.len <= |reply.data|))
            && SendsOk(cfg, c, o, reply, reply.Slen(slen))
            && (o.conn.state == Established && o.conn.len > 0 && c.len == 0 ==>
                  o.packet.Some? && !o.packet.value.flags.rst && |o.packet.value.payload| == o.conn.len as int)
  {
    hide AppRexmit;
    hide Fit;
    var c1 := AfterCall(c, reply.op);
    if reply.op != Abort && reply.op != Close {
      FitKeeps(cfg, c1, ackdata, reply.Slen(slen));
      FitFacts(c1, ackdata, reply.Slen(slen));
      var fit := Fit(c1, ackdata, reply.Slen(slen));
      RexmitFacts(cfg, fit.0.(nrtx := 0), newdata || reply.op == Restart, fit.1, reply, reply.Slen(slen),
                  delivered, acked, advance);
    }
  }

  lemma TimerFacts(cfg: Config, c: Conn, reply: Reply)
    requires cfg.Ok() && ConnOk(cfg, c) && StreamState(c) && reply.Ok(cfg)
    requires reply.op == Stop ==> c.state == Established && !GivesUp(c)
    ensures Facts(cfg, c, Timer(cfg, c, reply), Tick(reply), reply.Slen(0))
  {
    hide CallAndSend;
    hide SynPacket;
    AddZero(c.rcvNxt);
    if c.state == Established && !c.Outstanding() {
      CallFacts(cfg, c, false, false, 0, reply, [], false, 0);
    }
  }

  lemma PollFacts(cfg: Config, c: Conn, slen: u16, reply: Reply)
    requires cfg.Ok() && ConnOk(cfg, c) && StreamState(c) && reply.Ok(cfg)
    ensures Facts(cfg, c, PollRequest(cfg, c, slen, reply), Poll(slen, reply), reply.Slen(slen))
  {
    if c.state == Established && !c.Outstanding() {
      CallFacts(cfg, c, false, false, slen, reply, [], false, 0);
    }
  }

  /** The connection in ESTABLISHED before its application is called, and the data taken. */
  function BeforeCall(c: Conn, seg: Segment): (Conn, seq<u8>) {
    var taken := if |seg.payload| > 0 && !c.stopped then seg.payload else [];
    var c1 := AfterAck(c, seg);
    (WindowMss(c1.(rcvNxt := Add(c1.rcvNxt, |taken|)), seg.wnd), taken)
  }

  lemma BeforeCallFacts(cfg: Config, c: Conn, seg: Segment)
    requires cfg.Ok() && ConnOk(cfg, c) && c.state == Established && seg.Ok()
    ensures var c2 := BeforeCall(c, seg).0;
            && ConnOk(cfg, c2) && c2.state == Established && c2.stopped == c.stopped
            && c2.sndNxt == (if Acks(c, seg) then Add(c.sndNxt, c.len) else c.sndNxt)
            && c2.rcvNxt == Add(c.rcvNxt, |BeforeCall(c, seg).1|)
            && c2.len == (if Acks(c, seg) then 0 else c.len)
  {
    AfterAckKeeps(cfg, c, seg);
  }

  lemma DataOutcome(cfg: Config, c: Conn, slen: u16, seg: Segment, reply: Reply)
    requires cfg.Ok() && ConnOk(cfg, c) && c.state == Established && reply.Ok(cfg) && seg.Ok()
    requires !seg.flags.rst && !OutOfOrder(c, seg) && !(seg.flags.fin && !c.stopped)
    ensures var (c2, taken) := BeforeCall(c, seg);
            SizesOk(cfg, c2) &&
            Found(cfg, c, slen, seg, reply) ==
              if taken != [] || Acks(c, seg) then
                CallAndSend(cfg, c2, Acks(c, seg), taken != [], 0, reply, taken, Acks(c, seg), |taken|)
              else Outcome(c2, slen, None, [], false, 0)
  {
    hide CallAndSend;
    AfterAckKeeps(cfg, c, seg);
  }

  /** ESTABLISHED, the peer's FIN is not taken: data and window. */
  lemma DataFacts(cfg: Config, c: Conn, slen: u16, w: Wire, reply: Reply)
    requires cfg.Ok() && ConnOk(cfg, c) && c.state == Established && reply.Ok(cfg) && w.seg.Ok()
    requires !w.seg.flags.rst && !OutOfOrder(c, w.seg) && !(w.seg.flags.fin && !c.stopped)
    ensures Facts(cfg, c, Found(cfg, c, slen, w.seg, reply), Recv(w, slen, reply), reply.Slen(0))
  {
    hide Found;
    hide CallAndSend;
    hide BeforeCall;
    var seg, acked := w.seg, Acks(c, w.seg);
    DataOutcome(cfg, c, slen, seg, reply);
    BeforeCallFacts(cfg, c, seg);
    var (c2, taken) := BeforeCall(c, seg);
    TakenIs(c, seg);
    if taken != [] || acked {
      CallFacts(cfg, c2, acked, taken != [], 0, reply, taken, acked, |taken|);
    }
  }

  lemma TakenIs(c: Conn, seg: Segment)
    ensures BeforeCall(c, seg).1 == if |seg.payload| > 0 && !c.stopped then seg.payload else []
  {
  }

  /** ESTABLISHED, the segment carries a FIN that may be taken. */
  lemma FinFacts(cfg: Config, c: Conn, slen: u16, w: Wire, reply: Reply)
    requires cfg.Ok() && ConnOk(cfg, c) && c.state == Established && reply.Ok(cfg) && w.seg.Ok()
    requires !w.seg.flags.rst && !OutOfOrder(c, w.seg) && w.seg.flags.fin && !c.stopped
    ensures Facts(cfg, c, Found(cfg, c, slen, w.seg, reply), Recv(w, slen, reply), reply.Slen(0))
  {
    AfterAckKeeps(cfg, c, w.seg);
  }

  /** A reset, or a segment that is answered by a bare ACK. */
  lemma RefusedFacts(cfg: Config, c: Conn, slen: u16, w: Wire, reply: Reply)
    requires cfg.Ok() && ConnOk(cfg, c) && StreamState(c) && c.Live() && reply.Ok(cfg) && w.seg.Ok()
    requires w.seg.flags.rst || OutOfOrder(c, w.seg)
    requires reply.op == Stop ==> c.state == Established && !w.seg.flags.rst
    ensures Facts(cfg, c, Found(cfg, c, slen, w.seg, reply), Recv(w, slen, reply), reply.Slen(0))
  {
    AddZero(c.rcvNxt);
  }

  /** The states after ESTABLISHED. */
  lemma ClosingFacts(cfg: Config, c: Conn, slen: u16, w: Wire, reply: Reply)
    requires cfg.Ok() && ConnOk(cfg, c) && StreamState(c) && c.Live() && reply.Ok(cfg) && w.seg.Ok()
    requires c.state != Established && !w.seg.flags.rst && !OutOfOrder(c, w.seg) && reply.op != Stop
    ensures Facts(cfg, c, Found(cfg, c, slen, w.seg, reply), Recv(w, slen, reply), reply.Slen(0))
  {
    hide Add;
    hide InEstablished;
    hide InSynRcvd;
    hide InSynSent;
    hide ResetFor;
    AfterAckKeeps(cfg, c, w.seg);
    AddZero(c.rcvNxt);
    AddAdd(c.rcvNxt, |w.seg.payload|, 1);
  }

  lemma FoundFacts(cfg: Config, c: Conn, slen: u16, w: Wire, reply: Reply)
    requires cfg.Ok() && ConnOk(cfg, c) && StreamState(c) && c.Live() && reply.Ok(cfg) && w.seg.Ok()
    requires reply.op == Stop ==> c.state == Established && !w.seg.flags.rst
    ensures Facts(cfg, c, Found(cfg, c, slen, w.seg, reply), Recv(w, slen, reply), reply.Slen(0))
  {
    hide Found;
    hide Facts;
    hide ConnOk;
    if w.seg.flags.rst || OutOfOrder(c, w.seg) {
      RefusedFacts(cfg, c, slen, w, reply);
    } else if c.state != Established {
      ClosingFacts(cfg, c, slen, w, reply);
    } else if w.seg.flags.fin && !c.stopped {
      FinFacts(cfg, c, slen, w, reply);
    } else {
      DataFacts(cfg, c, slen, w, reply);
    }
  }

  // ---------------------------------------------------------------- every reaction

  /** An allowed event with an outcome that has the effects above; `p` is the view of the reacting end. */
  predicate Reaction(p: Peer, e: PeerEvent, o: Outcome) {
    && p.cfg.Ok() && e.reply.Ok(p.cfg) && Behaves(p, e)
    && ConnOk(p.cfg, o.conn)
    && Facts(p.cfg, p.conn, o, e, Offered(e))
  }

  /** Past the handshake every allowed event has sound effects. */
  lemma ReactFacts(p: Peer, q: Peer, e: PeerEvent, incoming: set<Wire>)
    requires PeerOk(p) && Allowed(p, q, e, incoming)
    ensures Reaction(p, e, React(p, e)) && !InSyn(React(p, e).conn)
  {
    hide Behaves;
    match e
    case Tick(reply) =>
      TimerKeeps(p.cfg, p.conn, reply);
      TimerFacts(p.cfg, p.conn, reply);
    case Poll(slen, reply) =>
      PollKeeps(p.cfg, p.conn, slen, reply);
      PollFacts(p.cfg, p.conn, slen, reply);
    case Recv(w, slen, reply) =>
      if p.conn.Live() {
        FoundKeeps(p.cfg, p.conn, slen, w.seg, reply);
        FoundFacts(p.cfg, p.conn, slen, w, reply);
      } else {
        ClosedFacts(p, e);
      }
  }

  lemma ClosedFacts(p: Peer, e: PeerEvent)
    requires PeerOk(p) && !p.conn.Live() && e.Recv? && e.wire.seg.Ok() && e.reply.Ok(p.cfg)
    ensures Facts(p.cfg, p.conn, React(p, e), e, Offered(e))
  {
  }

  /** The handshake goes on: only the timer has moved, and what is sent belongs to the handshake. */
  predicate Waits(p: Peer, q: Peer, o: Outcome) {
    && o.conn == p.conn.(timer := o.conn.timer, nrtx := o.conn.nrtx) && p.cfg.Ok() && ConnOk(p.cfg, o.conn)
    && !o.acked && o.advance == 0 && o.delivered == []
    && (o.packet.Some? ==>
          var s := o.packet.value;
          && s.payload == [] && s.seqno == p.conn.sndNxt
          && if p.conn.state == SynSent then s.flags == SYN
             else (s.flags == SYN_ACK || s.flags == ACK) && s.ackno == q.isn)
  }

  /** The reaction ends the handshake with a connection. */
  predicate Opens(p: Peer, o: Outcome) { InSyn(p.conn) && !InSyn(o.conn) && o.conn.Live() }

  lemma SynTick(p: Peer, q: Peer, e: PeerEvent)
    requires InSyn(p.conn) && p.cfg.Ok() && ConnOk(p.cfg, p.conn) && e.Tick? && e.reply.Ok(p.cfg)
    requires p.conn.state == SynRcvd ==> p.conn.rcvNxt == q.isn
    requires StopsOpen(p.conn, e) && Behaves(View(p, q), e)
    ensures var o := React(p, e); if InSyn(o.conn) then Waits(p, q, o) else Reaction(View(p, q), e, o) && !o.conn.Live()
  {
    hide Behaves;
    hide Add;
  }

  lemma SynPoll(p: Peer, q: Peer, e: PeerEvent)
    requires InSyn(p.conn) && p.cfg.Ok() && ConnOk(p.cfg, p.conn) && e.Poll? && e.reply.Ok(p.cfg)
    ensures var o := React(p, e); InSyn(o.conn) && Waits(p, q, o)
  {
  }

  lemma SynRcvdOpens(p: Peer, q: Peer, e: PeerEvent)
    requires p.conn.state == SynRcvd && p.cfg.Ok() && ConnOk(p.cfg, p.conn) && Unsent(p) && p.conn.rcvNxt == q.isn
    requires e.Recv? && e.wire.seg.Ok() && e.reply.Ok(p.cfg) && Behaves(View(p, q), e)
    requires !e.wire.seg.flags.rst && (e.wire.seg.flags.fin ==> e.wire.seg.payload == [])
    requires !OutOfOrder(p.conn, e.wire.seg) && Acks(p.conn, e.wire.seg)
    ensures !InSyn(React(p, e).conn) && Reaction(View(p, q), e, React(p, e))
  {
    hide Behaves;
    hide CallAndSend;
    hide Deviation;
    hide NextSa;
    hide NextSv;
    hide Add;
    var seg, c := e.wire.seg, p.conn;
    AfterAckKeeps(p.cfg, c, seg);
    var n := |seg.payload|;
    var c1 := AfterAck(c, seg);
    var c2 := c1.(len := 0, rcvNxt := Add(c1.rcvNxt, n)).Enter(Established);
    AddZero(c.rcvNxt);
    CallKeeps(p.cfg, c2, false, n > 0, 0, e.reply, seg.payload, true, n);
    CallFacts(p.cfg, c2, false, n > 0, 0, e.reply, seg.payload, true, n);
  }

  /** In SYN_RCVD: a reset closes, a segment out of order is acknowledged, the ACK opens. */
  lemma SynRcvdFound(p: Peer, q: Peer, e: PeerEvent)
    requires p.conn.state == SynRcvd && p.cfg.Ok() && ConnOk(p.cfg, p.conn) && Unsent(p) && p.conn.rcvNxt == q.isn
    requires e.Recv? && e.wire.seg.Ok() && e.reply.Ok(p.cfg) && StopsOpen(p.conn, e) && Behaves(View(p, q), e)
    requires !e.wire.seg.flags.rst && e.wire.seg.flags.fin ==> e.wire.seg.payload == []
    ensures var o := React(p, e); if InSyn(o.conn) then Waits(p, q, o) else Reaction(View(p, q), e, o)
    ensures Opens(p, React(p, e)) ==> e.wire.seg.flags.ack && !e.wire.seg.flags.rst
  {
    hide Behaves;
    hide CallAndSend;
    hide Deviation;
    hide NextSa;
    hide NextSv;
    hide Add;
    var seg, c := e.wire.seg, p.conn;
    if !seg.flags.rst && !OutOfOrder(c, seg) && Acks(c, seg) {
      SynRcvdOpens(p, q, e);
    }
  }

  /** In SYN_SENT: only a SYN-ACK opens, anything else closes. */
  lemma SynSentFound(p: Peer, q: Peer, e: PeerEvent)
    requires p.conn.state == SynSent && p.cfg.Ok() && ConnOk(p.cfg, p.conn) && Unsent(p)
    requires e.Recv? && e.wire.seg.Ok() && e.reply.Ok(p.cfg) && StopsOpen(p.conn, e) && Behaves(View(p, q), e)
    requires e.wire.seg.flags.rst || IsAnswer(q, p, e.wire)
    ensures !InSyn(React(p, e).conn) && Reaction(View(p, q), e, React(p, e))
    ensures Opens(p, React(p, e)) ==> e.wire.seg.flags == SYN_ACK
  {
    hide Behaves;
    hide CallAndSend;
    hide Deviation;
    hide NextSa;
    hide NextSv;
    hide Add;
    var seg, c := e.wire.seg, p.conn;
    if seg.flags == SYN_ACK && Acks(c, seg) {
      AfterAckKeeps(p.cfg, c, seg);
      var c1 := TakeMssOption(p.cfg, AfterAck(c, seg), seg).(len := 0, rcvNxt := Add(seg.seqno, 1)).Enter(Established);
      AddZero(q.isn);
      CallKeeps(p.cfg, c1, false, true, 0, e.reply, [], true, 0);
      CallFacts(p.cfg, c1, false, true, 0, e.reply, [], true, 0);
    }
  }

  /** Whatever the state: the handshake goes on, or the view reacts as an open connection does. */
  lemma StepFacts(p: Peer, q: Peer, pq: set<Wire>, qp: set<Wire>, e: PeerEvent)
    requires p.cfg.Ok() && PeerOk(View(p, q)) && SynPhase(p, q, pq, qp) && Allowed(p, q, e, qp)
    requires e.Recv? && !e.wire.seg.flags.rst ==> WireOk(View(q, p), View(p, q), e.wire)
    ensures var o := React(p, e);
            && (if InSyn(o.conn) then InSyn(p.conn) && Waits(p, q, o) else Reaction(View(p, q), e, o))
            && (Opens(p, o) ==> e.Recv? && e.wire.seg.flags.ack && !e.wire.seg.flags.rst)
  {
    hide Facts;
    hide Waits;
    hide React;
    hide Behaves;
    if !InSyn(p.conn) {
      assert View(p, q) == p;
      ReactFacts(p, q, e, qp);
    } else if e.Tick? {
      SynTick(p, q, e);
    } else if e.Poll? {
      SynPoll(p, q, e);
    } else if p.conn.state == SynRcvd {
      SynRcvdFound(p, q, e);
    } else {
      SynSentFound(p, q, e);
    }
  }

  // ---------------------------------------------------------------- preservation

  /** The outstanding bytes after an event are bytes of the stream. */
  lemma SentWithinStream(p: Peer, e: PeerEvent, o: Outcome)
    requires PeerOk(p) && Reaction(p, e, o) && o.conn.state == Established
    ensures AckedAfter(p, o) + o.conn.len <= |p.stream|
    ensures o.packet.Some? && o.packet.value.payload != [] && !o.packet.value.flags.rst ==>
              o.packet.value.payload == p.stream[AckedAfter(p, o)..AckedAfter(p, o) + o.conn.len]
  {
    hide OutOfOrder;
    hide GivesUp;
    if o.conn.len > 0 && (o.acked || p.conn.len == 0) {
      var k := o.conn.len - 1;
      var last := e.reply.data[k];
      assert last == p.stream[AckedAfter(p, o) + k];
    }
  }

  /** The reacting end keeps its own bookkeeping. */
  lemma PeerKept(p: Peer, e: PeerEvent, o: Outcome)
    requires PeerOk(p) && Reaction(p, e, o)
    ensures PeerOk(Evolve(p, o))
  {
    hide Add;
    hide OutOfOrder;
    hide GivesUp;
    hide SendsOk;
    hide OffersStream;
    AddAdd(p.isn, p.acked, p.conn.len);
    if o.conn.state == Established {
      SentWithinStream(p, e, o);
    }
  }

  /** A late SYN never carries the number that is expected next. */
  lemma LateSynIgnored(p: Peer, q: Peer, w: Wire)
    requires PeerOk(p) && LinkOk(p, q) && q.conn.Live() && LateSyn(p, w)
    ensures w.seg.seqno != q.conn.rcvNxt
    ensures StreamState(q.conn) ==> OutOfOrder(q.conn, w.seg)
  {
    AddAdd(w.seg.seqno, 1, q.rcvd);
    AddDistinct(w.seg.seqno, 0, q.rcvd + 1);
  }

  /** An acknowledgement of the outstanding data proves that the peer has accepted it. */
  lemma AckProves(p: Peer, q: Peer, w: Wire)
    requires PeerOk(p) && p.conn.Live() && LinkOk(p, q) && LinkOk(q, p) && PeerOk(q) && WireOk(q, p, w)
    requires !w.seg.flags.rst && Acks(p.conn, w.seg) && !OutOfOrder(p.conn, w.seg)
    ensures q.rcvd == p.sent
  {
    if LateSyn(q, w) { LateSynIgnored(q, p, w); }
    AddAdd(p.isn, p.acked, p.conn.len);
    AddInjective(p.isn, p.sent, w.upto);
  }

  /** Accepted sequence numbers are exactly what the peer has outstanding. */
  lemma AcceptedIsOutstanding(p: Peer, q: Peer, w: Wire)
    requires PeerOk(p) && PeerOk(q) && LinkOk(p, q) && WireOk(p, q, w) && q.conn.Live()
    requires !w.seg.flags.rst && w.seg.seqno == q.conn.rcvNxt
    requires |w.seg.payload| > 0 || w.seg.flags.fin
    ensures w.offset == q.rcvd == p.acked
    ensures q.rcvd + |w.seg.payload| + (if w.seg.flags.fin then 1 else 0) == p.sent
    ensures w.seg.flags.fin ==> w.seg.payload == [] && p.finAt == Some(q.rcvd)
    ensures !w.seg.flags.fin ==> p.finAt.None? && w.seg.payload == p.stream[q.rcvd..p.sent]
  {
    if LateSyn(p, w) { LateSynIgnored(p, q, w); }
    AddInjective(p.isn, w.offset, q.rcvd);
  }

  lemma OldWiresKept(p: Peer, q: Peer, e: PeerEvent, o: Outcome, w: Wire)
    requires PeerOk(p) && Reaction(p, e, o) && WireOk(p, q, w)
    ensures WireOk(Evolve(p, o), q, w)
  {
  }

  lemma NewWireOk(p: Peer, q: Peer, e: PeerEvent, o: Outcome, w: Wire)
    requires PeerOk(p) && LinkOk(q, p) && Reaction(p, e, o) && w in Emitted(p, o)
    ensures WireOk(Evolve(p, o), q, w)
  {
    hide Add;
    hide OutOfOrder;
    hide Acks;
    hide GivesUp;
    hide AcceptsOk;
    hide Behaves;
    AddAdd(p.isn, p.acked, p.conn.len);
    AddAdd(q.isn, p.rcvd, o.advance);
    if o.conn.state == Established {
      SentWithinStream(p, e, o);
    }
  }

  /** The reacting end as a sender. */
  lemma SenderLinkKept(p: Peer, q: Peer, e: PeerEvent, o: Outcome)
    requires PeerOk(p) && PeerOk(q) && LinkOk(p, q) && LinkOk(q, p) && Reaction(p, e, o)
    requires e.Recv? && !e.wire.seg.flags.rst ==> WireOk(q, p, e.wire)
    ensures LinkOk(Evolve(p, o), q)
  {
    if o.acked {
      AckProves(p, q, e.wire);
    }
  }

  /** The reacting end as a receiver. */
  lemma ReceiverLinkKept(p: Peer, q: Peer, e: PeerEvent, o: Outcome)
    requires PeerOk(p) && PeerOk(q) && LinkOk(q, p) && Reaction(p, e, o)
    requires e.Recv? ==> WireOk(q, p, e.wire)
    ensures LinkOk(q, Evolve(p, o))
  {
    hide Add;
    hide GivesUp;
    hide SendsOk;
    hide OffersStream;
    hide WireOk;
    hide OutOfOrder;
    hide Behaves;
    AddAdd(q.isn, p.rcvd, o.advance);
    AddZero(p.conn.rcvNxt);
    if o.advance > 0 {
      AcceptedIsOutstanding(q, p, e.wire);
    }
  }

  lemma WaitsKeeps(p: Peer, q: Peer, pq: set<Wire>, qp: set<Wire>, o: Outcome)
    requires BothOk(p, q, pq, qp) && InSyn(p.conn) && InSyn(o.conn) && Waits(p, q, o)
    ensures var v := View(p, q); BothOk(Evolve(v, o), q, pq + Emitted(v, o), qp)
  {
    hide Add;
    var p1 := Evolve(View(p, q), o);
    AddZero(q.isn);
    assert View(q, p1) == View(q, p) && View(p1, q) == View(p, q).(conn := View(p1, q).conn);
    forall w | w in pq + Emitted(View(p, q), o) ensures WireOk(View(p1, q), View(q, p1), w) {
      if w in pq { assert WireOk(View(p, q), View(q, p), w); }
    }
    forall w | w in qp ensures WireOk(View(q, p1), View(p1, q), w) {
      assert WireOk(View(q, p), View(p, q), w);
    }
  }

  /** A reaction keeps both halves of the invariant. */
  lemma ReactionKeeps(p: Peer, q: Peer, pq: set<Wire>, qp: set<Wire>, e: PeerEvent, o: Outcome)
    requires HalfOk(p, q, pq) && HalfOk(q, p, qp) && Reaction(p, e, o)
    requires e.Recv? ==> e.wire in qp || e.wire.seg.flags.rst
    ensures HalfOk(Evolve(p, o), q, pq + Emitted(p, o)) && HalfOk(q, Evolve(p, o), qp)
  {
    PeerKept(p, e, o);
    SenderLinkKept(p, q, e, o);
    ReceiverLinkKept(p, q, e, o);
    forall w | w in pq + Emitted(p, o) ensures WireOk(Evolve(p, o), q, w) {
      if w in pq { OldWiresKept(p, q, e, o, w); } else { NewWireOk(p, q, e, o, w); }
    }
    forall w | w in qp ensures WireOk(q, Evolve(p, o), w) {
      assert WireOk(q, p, w);
    }
  }

  /** Leaving the handshake is what its other end expects of it. */
  lemma PhaseKept(p: Peer, q: Peer, pq: set<Wire>, qp: set<Wire>, e: PeerEvent, o: Outcome)
    requires BothOk(p, q, pq, qp) && !InSyn(o.conn) && Reaction(View(p, q), e, o)
    requires e.Recv? ==> e.wire in qp || e.wire.seg.flags.rst
    requires Opens(p, o) ==> e.Recv? && e.wire.seg.flags.ack && !e.wire.seg.flags.rst
    ensures var v := View(p, q);
            SynPhase(Evolve(v, o), q, pq + Emitted(v, o), qp) && SynPhase(q, Evolve(v, o), qp, pq + Emitted(v, o))
  {
    hide Add;
    hide HalfOk;
    hide Behaves;
    hide AcceptsOk;
    hide EmitsOk;
    hide ConnOk;
  }

  /** A move of `p` keeps the invariant. */
  lemma MoveKeeps(p: Peer, q: Peer, pq: set<Wire>, qp: set<Wire>, e: PeerEvent)
    requires BothOk(p, q, pq, qp) && Allowed(p, q, e, qp)
    ensures var o, v := React(p, e), View(p, q); BothOk(Evolve(v, o), q, pq + Emitted(v, o), qp)
  {
    hide React;
    hide PeerOk;
    hide LinkOk;
    hide WireOk;
    hide SynPhase;
    hide Reaction;
    hide Waits;
    hide Behaves;
    var o, v := React(p, e), View(p, q);
    StepFacts(p, q, pq, qp, e);
    if InSyn(o.conn) {
      WaitsKeeps(p, q, pq, qp, o);
    } else {
      ReactionKeeps(v, View(q, p), pq, qp, e, o);
      PhaseKept(p, q, pq, qp, e, o);
      assert View(Evolve(v, o), q) == Evolve(v, o) && View(q, Evolve(v, o)) == View(q, p);
    }
  }

  lemma AdvanceKeeps(w: World, m: Move)
    requires WorldOk(w) && Possible(w, m)
    ensures WorldOk(Advance(w, m))
  {
    hide BothOk;
    match m
    case AtA(e) => MoveKeeps(w.a, w.b, w.ab, w.ba, e); BothSwapped(w.a, w.b, w.ab, w.ba);
    case AtB(e) =>
      BothSwapped(w.a, w.b, w.ab, w.ba);
      MoveKeeps(w.b, w.a, w.ba, w.ab, e);
      BothSwapped(Advance(w, m).b, w.a, Advance(w, m).ba, w.ab);
    case Elsewhere =>
  }

  lemma BothSwapped(p: Peer, q: Peer, pq: set<Wire>, qp: set<Wire>)
    requires BothOk(p, q, pq, qp)
    ensures BothOk(q, p, qp, pq)
  {
  }

  // ---------------------------------------------------------------- whole runs

  /** An ESTABLISHED end with nothing outstanding and nothing exchanged yet. */
  predicate Fresh(p: Peer, q: Peer) {
    && p.cfg.Ok() && ConnOk(p.cfg, p.conn) && p.conn.state == Established && p.conn.len == 0
    && |p.stream| + 1 < MOD32
    && p.conn.sndNxt == p.isn && p.conn.rcvNxt == q.isn
    && p.acked == 0 && p.sent == 0 && p.finAt.None? && p.rcvd == 0 && p.delivered == [] && !p.told && p.closedAt.None?
  }

  /** What the handshake may have left in the channel: SYNs, and acknowledgements of the peer's SYN. */
  predicate FromHandshake(p: Peer, q: Peer, w: Wire) {
    || LateSyn(p, w)
    || (w.seg.flags == ACK && w.seg.payload == [] && w.seg.ackno == q.isn && w.offset == 0 && w.upto == 0)
  }

  /** `p` has called and sent SYNs, the first of which has opened `q`; `q` may have answered. */
  predicate Calling(p: Peer, q: Peer, pq: set<Wire>, qp: set<Wire>) {
    && p.cfg.Ok() && q.cfg.Ok() && ConnOk(p.cfg, p.conn) && ConnOk(q.cfg, q.conn)
    && p.conn.state == SynSent && q.conn.state == SynRcvd && q.conn.rcvNxt == p.isn && Unsent(p) && Unsent(q)
    && (forall w | w in pq :: w.seg.flags == SYN && w.seg.payload == [] && w.seg.seqno == p.conn.sndNxt)
    && (forall w | w in qp :: IsAnswer(q, p, w) && w.offset == 0 && w.upto == 0)
  }

  /** Both ends are open, and what is left of the handshake may still arrive. */
  predicate Open(w: World) {
    && Fresh(w.a, w.b) && Fresh(w.b, w.a)
    && (forall x | x in w.ab :: FromHandshake(w.a, w.b, x)) && (forall x | x in w.ba :: FromHandshake(w.b, w.a, x))
  }

  predicate Start(w: World) { Calling(w.a, w.b, w.ab, w.ba) || Calling(w.b, w.a, w.ba, w.ab) || Open(w) }

  predicate Moves(w: World, m: Move, w1: World) { Possible(w, m) && w1 == Advance(w, m) }

  predicate IsRun(worlds: seq<World>, moves: seq<Move>) {
    && |worlds| == |moves| + 1
    && Start(worlds[0])
    && forall k | 0 <= k < |moves| :: Moves(worlds[k], moves[k], worlds[k + 1])
  }

  lemma CallingOk(p: Peer, q: Peer, pq: set<Wire>, qp: set<Wire>)
    requires Calling(p, q, pq, qp)
    ensures BothOk(p, q, pq, qp)
  {
    hide Add;
    AddZero(p.isn);
    AddZero(q.isn);
  }

  lemma OpenOk(w: World)
    requires Open(w)
    ensures WorldOk(w)
  {
    hide Add;
    AddZero(w.a.isn);
    AddZero(w.b.isn);
  }

  lemma StartOk(w: World)
    requires Start(w)
    ensures WorldOk(w)
  {
    hide Calling;
    hide Open;
    hide BothOk;
    if Calling(w.a, w.b, w.ab, w.ba) {
      CallingOk(w.a, w.b, w.ab, w.ba);
    } else if Calling(w.b, w.a, w.ba, w.ab) {
      CallingOk(w.b, w.a, w.ba, w.ab);
      BothSwapped(w.b, w.a, w.ba, w.ab);
    } else {
      OpenOk(w);
    }
  }

  lemma {:induction false} RunOk(worlds: seq<World>, moves: seq<Move>, k: nat)
    requires IsRun(worlds, moves) && k <= |moves|
    ensures WorldOk(worlds[k])
  {
    hide WorldOk;
    hide Advance;
    hide Possible;
    hide Start;
    if k == 0 {
      StartOk(worlds[0]);
    } else {
      RunOk(worlds, moves, k - 1);
      assert Moves(worlds[k - 1], moves[k - 1], worlds[k]);
      AdvanceKeeps(worlds[k - 1], moves[k - 1]);
    }
  }

  /** The bytes of the stream that the peer has acknowledged. */
  function AckedData(p: Peer): nat { if p.finAt.Some? then Min(p.acked, p.finAt.value) else p.acked }

  /** Byte `x` of the peer's stream has not been delivered. */
  predicate Undelivered(q: Peer, x: nat) { |q.delivered| <= x }

  /** Byte `x` of the peer's stream was still to come when the application closed. */
  predicate CameAfterClose(q: Peer, x: nat) { q.closedAt.Some? && q.closedAt.value <= x }

  /** What holds between a sender and a receiver at every moment. */
  predicate Faithful(p: Peer, q: Peer) {
    // what has been delivered is a prefix of the stream
    && q.delivered <= p.stream
    // the receiver expects what the sender has outstanding, or what follows it
    && (p.conn.Live() && q.conn.Live() && q.conn.state != SynSent ==>
          q.conn.rcvNxt == p.conn.sndNxt || q.conn.rcvNxt == Add(p.conn.sndNxt, p.conn.len))
    // a byte that was acknowledged is undelivered exactly if the receiver's application had closed before it came
    && (forall x: nat | x < AckedData(p) :: Undelivered(q, x) <==> CameAfterClose(q, x))
    && (q.closedAt.Some? ==> |q.delivered| == q.closedAt.value)
    && (q.conn.state == Established ==> p.acked <= |q.delivered|)
    // the receiver hears of the close only after every byte sent has been delivered
    && (q.told ==> p.finAt == Some(|q.delivered|))
  }

  lemma LinkIsFaithful(p: Peer, q: Peer, pq: set<Wire>, qp: set<Wire>)
    requires BothOk(p, q, pq, qp)
    ensures Faithful(p, q)
  {
    hide Add;
    hide WireOk;
    hide IsAnswer;
    AddAdd(p.isn, p.acked, View(p, q).conn.len);
    AddZero(p.isn);
    assert p.acked <= q.rcvd;
    if q.closedAt.None? {
      assert AckedData(p) <= |q.delivered|;
    }
  }

  lemma OkIsFaithful(w: World)
    requires WorldOk(w)
    ensures Faithful(w.a, w.b) && Faithful(w.b, w.a)
  {
    hide BothOk;
    hide Faithful;
    LinkIsFaithful(w.a, w.b, w.ab, w.ba);
    BothSwapped(w.a, w.b, w.ab, w.ba);
    LinkIsFaithful(w.b, w.a, w.ba, w.ab);
  }

  /** Every run of fewer than 2^32 bytes in each direction is faithful in both directions. */
  lemma StreamsAreFaithful(worlds: seq<World>, moves: seq<Move>, k: nat)
    requires IsRun(worlds, moves) && k <= |moves|
    ensures Faithful(worlds[k].a, worlds[k].b) && Faithful(worlds[k].b, worlds[k].a)
  {
    RunOk(worlds, moves, k);
    OkIsFaithful(worlds[k]);
  }

  lemma TakesData(cfg: Config, c: Conn, slen: u16, seg: Segment, reply: Reply)
    requires cfg.Ok() && ConnOk(cfg, c) && c.state == Established && !c.stopped && reply.Ok(cfg) && seg.Ok()
    requires !seg.flags.rst && !seg.flags.fin && seg.payload != [] && seg.seqno == c.rcvNxt
    ensures Found(cfg, c, slen, seg, reply).delivered == seg.payload
  {
    AfterAckKeeps(cfg, c, seg);
    var c1 := AfterAck(c, seg);
    var c2 := WindowMss(c1.(rcvNxt := Add(c1.rcvNxt, |seg.payload|)), seg.wnd);
    CallFacts(cfg, c2, Acks(c, seg), true, 0, reply, seg.payload, Acks(c, seg), |seg.payload|);
  }

  /** Progress: a segment that carries what the receiver expects delivers all that was sent. */
  lemma DeliveryExtends(p: Peer, q: Peer, channel: set<Wire>, w: Wire, slen: u16, reply: Reply)
    requires HalfOk(p, q, channel) && PeerOk(q) && Allowed(q, p, Recv(w, slen, reply), channel)
    requires q.conn.state == Established && !q.conn.stopped
    requires !w.seg.flags.rst && w.seg.payload != [] && w.offset == q.rcvd
    ensures Evolve(q, React(q, Recv(w, slen, reply))).delivered == p.stream[..p.sent]
  {
    hide Behaves;
    hide Found;
    hide OutOfOrder;
    hide Acks;
    assert w in channel;
    assert WireOk(p, q, w);
    AcceptedIsOutstanding(p, q, w);
    TakesData(q.cfg, q.conn, slen, w.seg, reply);
  }

  /**
   * After its own close an end goes on counting and acknowledging data, but hands none to
   * the application: what comes in FIN_WAIT_1 and FIN_WAIT_2 is acknowledged and lost.
   */
  lemma FinWaitSwallows(cfg: Config, c: Conn, slen: u16, seg: Segment, reply: Reply)
    requires cfg.Ok() && ConnOk(cfg, c) && reply.Ok(cfg) && seg.Ok() && (c.state == FinWait1 || c.state == FinWait2)
    requires !seg.flags.rst && !seg.flags.fin && seg.payload != [] && seg.seqno == c.rcvNxt && !Acks(c, seg)
    ensures var o := Found(cfg, c, slen, seg, reply);
            && o.advance == |seg.payload| && o.conn.rcvNxt == Add(c.rcvNxt, |seg.payload|)
            && o.delivered == [] && o.packet == Bare(cfg, o.conn, ACK)
  {
  }

  /** The end has been open, or given up, and never opens again. */
  predicate Left(p: Peer) { p.conn.state != Established && !InSyn(p.conn) }

  /** Once an end has left ESTABLISHED nothing more is delivered to it. */
  lemma {:induction false} DeliveryFrozen(worlds: seq<World>, moves: seq<Move>, j: nat, k: nat)
    requires IsRun(worlds, moves) && j <= k <= |moves|
    ensures Left(worlds[j].a) ==> Left(worlds[k].a) && worlds[k].a.delivered == worlds[j].a.delivered
    ensures Left(worlds[j].b) ==> Left(worlds[k].b) && worlds[k].b.delivered == worlds[j].b.delivered
    decreases k
  {
    hide WorldOk;
    hide React;
    hide Left;
    hide Possible;
    hide Advance;
    hide Start;
    if j < k {
      DeliveryFrozen(worlds, moves, j, k - 1);
      RunOk(worlds, moves, k - 1);
      assert Moves(worlds[k - 1], moves[k - 1], worlds[k]);
      MoveGrows(worlds[k - 1], moves[k - 1]);
    }
  }

  /** A reaction only adds to what is delivered, and nothing once the end has left ESTABLISHED. */
  predicate Grows(p: Peer, p1: Peer) {
    p.delivered <= p1.delivered && (Left(p) ==> Left(p1) && p1.delivered == p.delivered)
  }

  lemma StepGrows(p: Peer, q: Peer, pq: set<Wire>, qp: set<Wire>, e: PeerEvent)
    requires BothOk(p, q, pq, qp) && Allowed(p, q, e, qp)
    ensures Grows(p, Evolve(View(p, q), React(p, e)))
  {
    hide React;
    hide PeerOk;
    hide LinkOk;
    hide WireOk;
    hide SynPhase;
    hide Behaves;
    hide SendsOk;
    StepFacts(p, q, pq, qp, e);
  }

  lemma MoveGrows(w: World, m: Move)
    requires WorldOk(w) && Possible(w, m)
    ensures var w1 := Advance(w, m); Grows(w.a, w1.a) && Grows(w.b, w1.b) && w.ab <= w1.ab && w.ba <= w1.ba
  {
    hide BothOk;
    hide React;
    hide Allowed;
    match m
    case AtA(e) => StepGrows(w.a, w.b, w.ab, w.ba, e);
    case AtB(e) =>
      BothSwapped(w.a, w.b, w.ab, w.ba);
      StepGrows(w.b, w.a, w.ba, w.ab, e);
    case Elsewhere =>
  }

  /**
   * The contract cannot be dropped for poll requests: uip_slen is not reset there, so a
   * callback that sends nothing makes the stack send whatever lies in the buffer.
   */
  lemma StalePollSends(cfg: Config, c: Conn, slen: u16, reply: Reply)
    requires cfg.Ok() && SizesOk(cfg, c) && reply.Ok(cfg)
    requires c.state == Established && c.len == 0 && reply.op == Continue && reply.send.None?
    ensures var o := PollRequest(cfg, c, slen, reply);
            o.packet.Some? <==> slen > 0 && c.mss > 0
    ensures var o := PollRequest(cfg, c, slen, reply);
            o.packet.Some? ==> o.packet.value.payload == reply.data[..Min(slen, c.mss)]
  {
  }
}
