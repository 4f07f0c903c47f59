/**
 * Two stacks reach the point where the stream theorem starts, the exchange without loss opens
 * both ends, and what a SYN does that comes twice.
 */
module TcpHandshake {
  import opened Words
  import opened TcpConn
  import opened TcpTable
  import opened TcpInvariant
  import S = TcpStream
  import K = TcpStacks

  /** An application that only listens. */
  predicate Silent(cfg: Config, reply: Reply)
    requires cfg.Ok()
  {
    reply.Ok(cfg) && reply.op == Continue && reply.send.None?
  }

  /** After the first tick the timer has run out, at the second the SYN leaves. */
  lemma SynLeaves(cfg: Config, slot: Conn, iss: u32, port: u16, peer: Ip, rport: u16, reply: Reply)
    requires cfg.Ok() && reply.Ok(cfg)
    ensures var c := ActiveOpen(cfg, slot, iss, port, peer, rport);
            && SizesOk(cfg, c)
            && var c1 := Timer(cfg, c, reply).conn;
            && SizesOk(cfg, c1) && Timer(cfg, c, reply).packet.None?
            && var o := Timer(cfg, c1, reply);
            && o.packet == Some(Segment(cfg.host, peer, Htons(port), rport, iss, slot.rcvNxt, SYN, cfg.window, Some(cfg.Mss()), []))
            && o.conn.state == SynSent && !o.conn.stopped && o.conn.sndNxt == iss && o.conn.len == 1
            && o.conn.lport == Htons(port) && o.conn.rport == rport && o.conn.ripaddr == peer
  {
  }

  /** The SYN in the table of the caller. */
  predicate Called(cfg: Config, t: Table, i: nat, peer: Ip, rport: u16, syn: Segment)
    requires cfg.Ok()
  {
    && TableOk(cfg, t) && i < |t.conns|
    && var c := t.conns[i];
    && c.state == SynSent && !c.stopped && c.len == 1 && c.rport == rport && c.ripaddr == peer
    && syn.src == cfg.host && syn.dest == peer && syn.srcport == c.lport && syn.destport == rport
    && syn.seqno == c.sndNxt && syn.flags == SYN && syn.payload == []
  }

  /** uip_connect and two ticks of the slot it took. */
  lemma Calls(cfg: Config, t: Table, i: nat, peer: Ip, rport: u16, reply: Reply)
    requires cfg.Ok() && TableOk(cfg, t) && Silent(cfg, reply) && FreeSlot(t.conns) == Some(i)
    ensures var t1 := Step(cfg, t, Connect(peer, rport)).0;
            && TableShape(cfg, t1) && i < |t1.conns|
            && var t2 := Step(cfg, t1, Tick(i, reply)).0;
            && TableShape(cfg, t2) && i < |t2.conns|
            && var (t3, packet) := Step(cfg, t2, Tick(i, reply));
            && packet.Some? && Called(cfg, t3, i, peer, rport, packet.value)
            && PortSearch(t.conns, t.lastport, |t.conns| + 1).Some?
            && packet.value.srcport == Htons(PortSearch(t.conns, t.lastport, |t.conns| + 1).value)
  {
    hide Timer;
    hide Called;
    PortFound(t.conns, t.lastport);
    var port := PortSearch(t.conns, t.lastport, |t.conns| + 1).value;
    SynLeaves(cfg, t.conns[i], t.iss, port, peer, rport, reply);
    StepKeeps(cfg, t, Connect(peer, rport));
    var t1 := Step(cfg, t, Connect(peer, rport)).0;
    StepKeeps(cfg, t1, Tick(i, reply));
    var t2 := Step(cfg, t1, Tick(i, reply)).0;
    StepKeeps(cfg, t2, Tick(i, reply));
    IsCalled(cfg, Step(cfg, t2, Tick(i, reply)).0, i, peer, rport, Step(cfg, t2, Tick(i, reply)).1.value);
  }

  lemma IsCalled(cfg: Config, t: Table, i: nat, peer: Ip, rport: u16, syn: Segment)
    requires cfg.Ok() && TableOk(cfg, t) && i < |t.conns|
    requires t.conns[i].state == SynSent && !t.conns[i].stopped && t.conns[i].len == 1
    requires t.conns[i].rport == rport && t.conns[i].ripaddr == peer
    requires syn == Segment(cfg.host, peer, t.conns[i].lport, rport, t.conns[i].sndNxt, syn.ackno, SYN, syn.wnd, syn.mssOpt, [])
    ensures Called(cfg, t, i, peer, rport, syn)
  {
  }

  /** The SYN stays the one of the slot, lost and sent again or not, until the slot is given up or hears of it. */
  lemma CalledKept(cfg: Config, t: Table, e: Event, t1: Table, i: nat, peer: Ip, rport: u16, syn: Segment)
    requires cfg.Ok() && Called(cfg, t, i, peer, rport, syn) && Follows(cfg, t, e, t1)
    requires !(e.Input? && Touches(t, e, i))
    ensures i < |t1.conns| && (Called(cfg, t1, i, peer, rport, syn) || !t1.conns[i].Live())
    ensures e.Tick? && Touches(t, e, i) && Step(cfg, t, e).1.Some? && t1.conns[i].Live() ==>
              Step(cfg, t, e).1.value.flags == SYN && Step(cfg, t, e).1.value.seqno == syn.seqno
  {
    StepKeeps(cfg, t, e);
    SlotUntouched(cfg, t, e, i);
    FreeSlotMeaning(t.conns, 0, None);
  }

  /** The SYN opens slot `j` of a listening stack; the SYN-ACK carries the matching numbers. */
  lemma Answers(cfg: Config, t: Table, j: nat, syn: Segment, reply: Reply)
    requires cfg.Ok() && TableOk(cfg, t) && syn.Ok() && reply.Ok(cfg) && syn.flags == SYN
    requires Demux(t.conns, syn) == |t.conns| && syn.destport in t.listen && FreeSlot(t.conns) == Some(j)
    ensures var (t1, packet) := Step(cfg, t, Input(syn, reply));
            && TableOk(cfg, t1) && j < |t1.conns| && packet.Some?
            && var c, answer := t1.conns[j], packet.value;
            && c.state == SynRcvd && !c.stopped && c.rcvNxt == Add(syn.seqno, 1)
            && c.lport == syn.destport && c.rport == syn.srcport && c.ripaddr == syn.src
            && answer.flags == SYN_ACK && answer.payload == [] && answer.seqno == c.sndNxt && answer.ackno == c.rcvNxt
            && answer.src == cfg.host && answer.srcport == syn.destport && answer.destport == syn.srcport
  {
    StepKeeps(cfg, t, Input(syn, reply));
  }

  /** The two ends as the stream theorem sees them, offering `sa` and `sb` from now on. */
  function Meeting(cfgA: Config, a: Conn, sa: seq<u8>, cfgB: Config, b: Conn, sb: seq<u8>,
                   ab: set<S.Wire>, ba: set<S.Wire>): S.World {
    S.World(S.Peer(cfgA, a, sa, Add(a.sndNxt, 1), 0, 0, None, 0, [], false, None),
            S.Peer(cfgB, b, sb, Add(b.sndNxt, 1), 0, 0, None, 0, [], false, None), ab, ba)
  }

  /**
   * A connection that has called, however often its SYN was lost, and any table of the other
   * stack that listens and has no connection for it: when the SYN arrives the two slots are
   * where the stream theorem starts, and every later loss and repetition is one of its runs.
   */
  lemma HandshakeStarts(cfgA: Config, cfgB: Config, ta: Table, tb: Table, i: nat, j: nat, syn: Segment, reply: Reply,
                        sa: seq<u8>, sb: seq<u8>)
    requires cfgA.Ok() && cfgB.Ok() && Called(cfgA, ta, i, cfgB.host, syn.destport, syn)
    requires TableOk(cfgB, tb) && reply.Ok(cfgB)
    requires Demux(tb.conns, syn) == |tb.conns| && syn.destport in tb.listen && FreeSlot(tb.conns) == Some(j)
    requires |sa| + 2 < MOD32 && |sb| + 2 < MOD32
    ensures var (tb1, answer) := Step(cfgB, tb, Input(syn, reply));
            && j < |tb1.conns| && answer.Some?
            && K.PairStart(K.Pair(K.Site(cfgA, i, ta), K.Site(cfgB, j, tb1),
                 Meeting(cfgA, ta.conns[i], sa, cfgB, tb1.conns[j], sb, {S.Wire(syn, 0, 0)}, {S.Wire(answer.value, 0, 0)})))
  {
    Answers(cfgB, tb, j, syn, reply);
  }

  // ---------------------------------------------------------------- the exchange without loss

  /** The SYN-ACK opens the end that called; its answer is an ACK. */
  lemma AnswerOpens(w: S.World, x: S.Wire, slen: u16, reply: Reply)
    requires S.Calling(w.a, w.b, w.ab, w.ba) && x in w.ba && x.seg.flags == SYN_ACK && x.seg.Ok() && Silent(w.a.cfg, reply)
    ensures var e := S.Recv(x, slen, reply);
            && S.Possible(w, S.AtA(e)) && var o := S.React(w.a, e);
            && o.packet == Bare(w.a.cfg, o.conn, ACK) && SameKey(o.conn, w.a.conn)
            && var w1 := S.Advance(w, S.AtA(e));
            && w1.b == w.b && w1.ba == w.ba && w1.ab == w.ab + {S.Wire(o.packet.value, 0, 0)} && S.Fresh(w1.a, w1.b)
            && (forall y | y in w1.ab :: S.FromHandshake(w1.a, w1.b, y)) && (forall y | y in w1.ba :: S.FromHandshake(w1.b, w1.a, y))
            && o.packet.value.ackno == w.b.isn
  {
    var seg, c := x.seg, w.a.conn;
    AfterAckKeeps(w.a.cfg, c, seg);
    FoundKeeps(w.a.cfg, c, slen, seg, reply);
  }

  /** The ACK opens the other end, and the stream theorem's ends are both open. */
  lemma AckOpens(w: S.World, x: S.Wire, slen: u16, reply: Reply)
    requires S.WorldOk(w) && w.b.conn.state == SynRcvd && S.Fresh(w.a, w.b)
    requires (forall y | y in w.ab :: S.FromHandshake(w.a, w.b, y)) && (forall y | y in w.ba :: S.FromHandshake(w.b, w.a, y))
    requires x in w.ab && x.seg.flags == ACK && x.seg.payload == [] && x.seg.ackno == w.b.isn && Silent(w.b.cfg, reply)
    ensures var m := S.AtB(S.Recv(x, slen, reply));
            S.Possible(w, m) && S.Open(S.Advance(w, m)) && SameKey(S.Advance(w, m).b.conn, w.b.conn)
  {
    var seg, c := x.seg, w.b.conn;
    AfterAckKeeps(w.b.cfg, c, seg);
    FoundKeeps(w.b.cfg, c, slen, seg, reply);
    AddZero(w.a.isn);
    AddZero(w.b.isn);
  }

  /** The segment finds the slot of the end it is meant for. */
  lemma FindsSlot(cfg: Config, t: Table, i: nat, seg: Segment, reply: Reply)
    requires cfg.Ok() && TableOk(cfg, t) && seg.Ok() && Silent(cfg, reply) && i < |t.conns|
    requires Matches(t.conns[i], seg) && seg.flags != SYN
    ensures var e := Input(seg, reply);
            && Touches(t, e, i) && TableShape(cfg, t) && K.SiteStep(K.Site(cfg, i, t), e, K.Site(cfg, i, Step(cfg, t, e).0))
  {
    hide Found;
    DemuxUnique(cfg, t, seg, i);
  }

  /** The SYN-ACK and the ACK find their connections, and both ends are open. */
  lemma HandshakeCompletes(cfgA: Config, cfgB: Config, ta: Table, tb: Table, i: nat, j: nat, syn: Segment, reply: Reply,
                           replyA: Reply, replyB: Reply, sa: seq<u8>, sb: seq<u8>) returns (pairs: seq<K.Pair>, moves: seq<K.PairMove>)
    requires cfgA.Ok() && cfgB.Ok() && Called(cfgA, ta, i, cfgB.host, syn.destport, syn)
    requires TableOk(cfgB, tb) && reply.Ok(cfgB) && Silent(cfgA, replyA) && Silent(cfgB, replyB)
    requires Demux(tb.conns, syn) == |tb.conns| && syn.destport in tb.listen && FreeSlot(tb.conns) == Some(j)
    requires |sa| + 2 < MOD32 && |sb| + 2 < MOD32
    ensures K.IsPairRun(pairs, moves) && |pairs| == 3 && S.Open(pairs[2].world)
    ensures pairs[0].a == K.Site(cfgA, i, ta) && pairs[0].b == K.Site(cfgB, j, Step(cfgB, tb, Input(syn, reply)).0)
    ensures pairs[0].world.a.stream == sa && pairs[0].world.b.stream == sb
  {
    hide Called;
    hide Step;
    hide S.React;
    hide S.Advance;
    hide S.WorldOk;
    hide S.Fresh;
    hide S.FromHandshake;
    hide S.Allowed;
    hide S.Evolve;
    hide SameKey;
    hide K.SiteStep;
    CalledMeans(cfgA, ta, i, cfgB.host, syn.destport, syn);
    HandshakeStarts(cfgA, cfgB, ta, tb, i, j, syn, reply, sa, sb);
    Answers(cfgB, tb, j, syn, reply);
    var (tb1, sent) := Step(cfgB, tb, Input(syn, reply));
    var answer := S.Wire(sent.value, 0, 0);
    var w := Meeting(cfgA, ta.conns[i], sa, cfgB, tb1.conns[j], sb, {S.Wire(syn, 0, 0)}, {answer});
    var s0 := K.Pair(K.Site(cfgA, i, ta), K.Site(cfgB, j, tb1), w);
    var e := Input(answer.seg, replyA);
    FindsSlot(cfgA, ta, i, answer.seg, replyA);
    AnswerOpens(w, answer, ta.slen, replyA);
    K.StepIsReact(cfgA, ta, e, i, w.a, answer);
    var m := S.AtA(S.Recv(answer, ta.slen, replyA));
    var s1 := K.Pair(K.Site(cfgA, i, Step(cfgA, ta, e).0), s0.b, S.Advance(w, m));
    assert K.PairStep(s0, K.AtA(e, answer), s1);
    S.StartOk(w);
    S.AdvanceKeeps(w, m);
    var ack := S.Wire(S.React(w.a, m.e).packet.value, 0, 0);
    var e1 := Input(ack.seg, replyB);
    FindsSlot(cfgB, tb1, j, ack.seg, replyB);
    AckOpens(s1.world, ack, tb1.slen, replyB);
    var m1 := S.AtB(S.Recv(ack, tb1.slen, replyB));
    var s2 := K.Pair(s1.a, K.Site(cfgB, j, Step(cfgB, tb1, e1).0), S.Advance(s1.world, m1));
    assert K.PairStep(s1, K.AtB(e1, ack), s2);
    pairs, moves := [s0, s1, s2], [K.AtA(e, answer), K.AtB(e1, ack)];
  }

  lemma CalledMeans(cfg: Config, t: Table, i: nat, peer: Ip, rport: u16, syn: Segment)
    requires cfg.Ok() && Called(cfg, t, i, peer, rport, syn)
    ensures TableOk(cfg, t) && i < |t.conns|
    ensures var c := t.conns[i];
            && c.Live() && c.rport == rport && c.ripaddr == peer && c.state == SynSent
            && syn.src == cfg.host && syn.dest == peer && syn.srcport == c.lport && syn.destport == rport && syn.flags == SYN
            && syn.payload == [] && syn.seqno == c.sndNxt
  {
  }

  // ---------------------------------------------------------------- what the SYN-ACK and a second SYN do

  /** The end that has called opens exactly on the SYN-ACK, and on anything else but a reset closes with a reset. */
  lemma OpensExactly(w: S.World, x: S.Wire, slen: u16, reply: Reply)
    requires S.WorldOk(w) && w.a.conn.state == SynSent && S.Allowed(w.a, w.b, S.Recv(x, slen, reply), w.ba)
    requires reply.op == Continue
    ensures var o := S.React(w.a, S.Recv(x, slen, reply));
            && (o.conn.state == Established <==> !x.seg.flags.rst && x.seg.flags == SYN_ACK)
            && (o.conn.state != Established ==> !o.conn.Live())
            && (!o.conn.Live() && !x.seg.flags.rst ==> x.seg.flags == ACK && o.packet == ResetFor(w.a.cfg, x.seg))
  {
    hide S.HalfOk;
    hide CallAndSend;
    AfterAckKeeps(w.a.cfg, w.a.conn, x.seg);
    var c1 := TakeMssOption(w.a.cfg, AfterAck(w.a.conn, x.seg), x.seg).(len := 0, rcvNxt := Add(x.seg.seqno, 1)).Enter(Established);
    CallStays(w.a.cfg, c1, true, 0, reply);
  }

  /**
   * A SYN that comes twice, because the SYN-ACK was lost or slow, is answered by a bare ACK
   * (section 3.10.7.4 of RFC 9293 wants that). Should the ACK arrive in SYN_SENT, the caller gives up
   * where section 3.10.7.3 drops it, and its reset closes the other end as well.
   */
  lemma SecondSynFails(w: S.World, x: S.Wire, slenA: u16, slenB: u16, replyA: Reply, replyB: Reply) returns (ack: S.Wire, rst: S.Wire)
    requires S.WorldOk(w) && w.a.conn.state == SynSent && w.b.conn.state == SynRcvd
    requires x in w.ab && x.seg.flags == SYN && x.seg.Ok() && Silent(w.a.cfg, replyA) && Silent(w.b.cfg, replyB)
    ensures var m1 := S.AtB(S.Recv(x, slenB, replyB));
            && S.Possible(w, m1) && var w1 := S.Advance(w, m1);
            && ack in w1.ba && ack.seg.flags == ACK && w1.b.conn == w.b.conn
            && var m2 := S.AtA(S.Recv(ack, slenA, replyA));
            && S.Possible(w1, m2) && var w2 := S.Advance(w1, m2);
            && !w2.a.conn.Live() && rst in w2.ab && rst.seg.flags.rst
            && var m3 := S.AtB(S.Recv(rst, slenB, replyB));
            && S.Possible(w2, m3) && !S.Advance(w2, m3).b.conn.Live()
  {
    hide S.HalfOk;
    var m1 := S.AtB(S.Recv(x, slenB, replyB));
    SecondSynAcked(w, x, slenB, replyB);
    var w1 := S.Advance(w, m1);
    ack := S.Wire(Bare(w.b.cfg, w.b.conn, ACK).value, w.b.acked, w.b.rcvd);
    S.AdvanceKeeps(w, m1);
    var m2 := S.AtA(S.Recv(ack, slenA, replyA));
    OpensExactly(w1, ack, slenA, replyA);
    var w2 := S.Advance(w1, m2);
    rst := S.Wire(ResetFor(w.a.cfg, ack.seg).value, w.a.acked, w.a.rcvd);
  }

  lemma SecondSynAcked(w: S.World, x: S.Wire, slen: u16, reply: Reply)
    requires S.WorldOk(w) && w.a.conn.state == SynSent && w.b.conn.state == SynRcvd
    requires x in w.ab && x.seg.flags == SYN && x.seg.Ok() && Silent(w.b.cfg, reply)
    ensures var e := S.Recv(x, slen, reply);
            && S.Possible(w, S.AtB(e))
            && S.React(w.b, e) == Outcome(w.b.conn, slen, Bare(w.b.cfg, w.b.conn, ACK), [], false, 0)
  {
    hide Add;
    S.LateSynIgnored(S.View(w.a, w.b), S.View(w.b, w.a), x);
  }

  lemma CallStays(cfg: Config, c: Conn, newdata: bool, slen: u16, reply: Reply)
    requires cfg.Ok() && SizesOk(cfg, c) && reply.Ok(cfg) && reply.op == Continue && c.state == Established && !c.stopped
    ensures forall acked: bool :: CallAndSend(cfg, c, false, newdata, slen, reply, [], acked, 0).conn.state == Established
  {
  }
}
