/**
 * Whole stacks: one connection of each of two stacks, among any others that share the
 * table and uip_slen, behaves as the stream theorem says.
 */
module TcpStacks {
  import opened Words
  import opened TcpConn
  import opened TcpTable
  import opened TcpInvariant
  import S = TcpStream
  import P = TcpProgress

  /** An event of the stack as the connection it is processed on sees it: uip_slen is the table's. */
  function AsPeerEvent(t: Table, e: Event, wire: S.Wire): S.PeerEvent {
    match e
    case Tick(_, reply) => S.Tick(reply)
    case Poll(_, reply) => S.Poll(t.slen, reply)
    case Input(_, reply) => S.Recv(wire, t.slen, reply)
    case _ => S.Tick(Reply(Continue, None, []))
  }

  /** A step of the table changes the slot it is processed on exactly as the connection reacts. */
  lemma StepIsReact(cfg: Config, t: Table, e: Event, i: nat, p: S.Peer, wire: S.Wire)
    requires cfg.Ok() && TableShape(cfg, t) && EventOk(cfg, t, e) && i < |t.conns| && Touches(t, e, i)
    requires p.cfg == cfg && p.conn == t.conns[i] && (e.Input? ==> wire.seg == e.seg)
    ensures var pe := AsPeerEvent(t, e, wire);
            && S.Ready(p) && pe.reply.Ok(cfg) && (pe.Recv? ==> pe.wire.seg.Ok())
            && var (t1, packet) := Step(cfg, t, e);
            |t1.conns| == |t.conns| && t1.conns[i] == S.React(p, pe).conn && packet == S.React(p, pe).packet
            && t1.slen == S.React(p, pe).slen
  {
    hide Timer;
    hide PollRequest;
    hide Found;
  }

  /** One stack and the slot of the connection that is followed. */
  datatype Site = Site(cfg: Config, slot: nat, table: Table)
  datatype Pair = Pair(a: Site, b: Site, world: S.World)

  /** An event at one of the stacks; `wire` is the segment, if the peer's connection sent it. */
  datatype PairMove = AtA(e: Event, wire: S.Wire) | AtB(e: Event, wire: S.Wire)

  /** Any event of the stack that does not put a new connection into the slot. */
  predicate SiteStep(x: Site, e: Event, y: Site) {
    && x.cfg.Ok() && x.slot < |x.table.conns| && y.cfg == x.cfg && y.slot == x.slot
    && Follows(x.cfg, x.table, e, y.table) && !Reopens(x.table, e, x.slot)
  }

  predicate Concerns(x: Site, e: Event, wire: S.Wire) { Touches(x.table, e, x.slot) && (e.Input? ==> wire.seg == e.seg) }

  /** Other connections do what they like; the one followed keeps the contract of the stream theorem. */
  predicate PairStep(s: Pair, m: PairMove, s1: Pair) {
    match m
    case AtA(e, wire) =>
      && SiteStep(s.a, e, s1.a) && s1.b == s.b
      && if Touches(s.a.table, e, s.a.slot) then
           Concerns(s.a, e, wire) && S.Moves(s.world, S.AtA(AsPeerEvent(s.a.table, e, wire)), s1.world)
         else s1.world == s.world
    case AtB(e, wire) =>
      && SiteStep(s.b, e, s1.b) && s1.a == s.a
      && if Touches(s.b.table, e, s.b.slot) then
           Concerns(s.b, e, wire) && S.Moves(s.world, S.AtB(AsPeerEvent(s.b.table, e, wire)), s1.world)
         else s1.world == s.world
  }

  /** The peer of the world is the connection in the slot. */
  predicate Shows(p: S.Peer, x: Site) {
    && x.cfg.Ok() && TableOk(x.cfg, x.table) && x.slot < |x.table.conns|
    && p.cfg == x.cfg && p.conn == x.table.conns[x.slot]
  }

  lemma SiteKept(x: Site, e: Event, y: Site, p: S.Peer, wire: S.Wire)
    requires SiteStep(x, e, y) && Shows(p, x) && (Touches(x.table, e, x.slot) ==> Concerns(x, e, wire))
    ensures !Touches(x.table, e, x.slot) ==> Shows(p, y)
    ensures Touches(x.table, e, x.slot) ==>
              var pe := AsPeerEvent(x.table, e, wire);
              && S.Ready(p) && pe.reply.Ok(p.cfg) && (pe.Recv? ==> pe.wire.seg.Ok())
              && Shows(p.(conn := S.React(p, pe).conn), y)
  {
    hide Touches;
    hide Reopens;
    hide Step;
    StepKeeps(x.cfg, x.table, e);
    SlotUntouched(x.cfg, x.table, e, x.slot);
    if Touches(x.table, e, x.slot) {
      StepIsReact(x.cfg, x.table, e, x.slot, p, wire);
    }
  }

  /** The move of the world that shows the pair. */
  function MoveOf(s: Pair, m: PairMove): S.Move {
    match m
    case AtA(e, wire) => if Touches(s.a.table, e, s.a.slot) then S.AtA(AsPeerEvent(s.a.table, e, wire)) else S.Elsewhere
    case AtB(e, wire) => if Touches(s.b.table, e, s.b.slot) then S.AtB(AsPeerEvent(s.b.table, e, wire)) else S.Elsewhere
  }

  /** The ends of the world are the connections in the two slots. */
  predicate PairShows(s: Pair) { Shows(s.world.a, s.a) && Shows(s.world.b, s.b) }

  lemma ShowsMoved(p: S.Peer, q: S.Peer, o: Outcome, y: Site)
    requires Shows(p.(conn := o.conn), y)
    ensures Shows(S.Evolve(S.View(p, q), o), y)
  {
  }

  lemma PairKeeps(s: Pair, m: PairMove, s1: Pair)
    requires PairShows(s) && PairStep(s, m, s1)
    ensures PairShows(s1) && S.Moves(s.world, MoveOf(s, m), s1.world)
  {
    hide SiteStep;
    hide Shows;
    hide S.React;
    hide S.Allowed;
    hide S.Evolve;
    match m
    case AtA(e, wire) =>
      SiteKept(s.a, e, s1.a, s.world.a, wire);
      if Touches(s.a.table, e, s.a.slot) {
        ShowsMoved(s.world.a, s.world.b, S.React(s.world.a, AsPeerEvent(s.a.table, e, wire)), s1.a);
      }
    case AtB(e, wire) =>
      SiteKept(s.b, e, s1.b, s.world.b, wire);
      if Touches(s.b.table, e, s.b.slot) {
        ShowsMoved(s.world.b, s.world.a, S.React(s.world.b, AsPeerEvent(s.b.table, e, wire)), s1.b);
      }
  }

  /** Two stacks with any tables, whose connections in the two slots have just met. */
  predicate PairStart(s: Pair) { PairShows(s) && S.Start(s.world) }

  predicate IsPairRun(pairs: seq<Pair>, moves: seq<PairMove>) {
    && |pairs| == |moves| + 1 && PairStart(pairs[0])
    && forall k | 0 <= k < |moves| :: PairStep(pairs[k], moves[k], pairs[k + 1])
  }

  function Worlds(pairs: seq<Pair>): seq<S.World> { seq(|pairs|, k requires 0 <= k < |pairs| => pairs[k].world) }

  function WorldMoves(pairs: seq<Pair>, moves: seq<PairMove>): seq<S.Move>
    requires |moves| <= |pairs|
  {
    seq(|moves|, k requires 0 <= k < |moves| => MoveOf(pairs[k], moves[k]))
  }

  lemma {:induction false} PairsShow(pairs: seq<Pair>, moves: seq<PairMove>, k: nat)
    requires IsPairRun(pairs, moves) && k <= |moves|
    ensures PairShows(pairs[k])
  {
    hide PairShows;
    hide PairStep;
    if k > 0 {
      PairsShow(pairs, moves, k - 1);
      PairKeeps(pairs[k - 1], moves[k - 1], pairs[k]);
    }
  }

  /** What the two stacks do is a run of the two ends, in which most moves may happen elsewhere. */
  lemma PairsRun(pairs: seq<Pair>, moves: seq<PairMove>)
    requires IsPairRun(pairs, moves)
    ensures S.IsRun(Worlds(pairs), WorldMoves(pairs, moves))
  {
    hide PairShows;
    hide PairStep;
    hide S.Start;
    hide S.Moves;
    hide MoveOf;
    var ws, ms := Worlds(pairs), WorldMoves(pairs, moves);
    forall k | 0 <= k < |ms| ensures S.Moves(ws[k], ms[k], ws[k + 1]) {
      PairsShow(pairs, moves, k);
      PairKeeps(pairs[k], moves[k], pairs[k + 1]);
    }
  }

  /** Whatever the other connections of the two stacks do, the two streams stay faithful. */
  lemma StacksAreFaithful(pairs: seq<Pair>, moves: seq<PairMove>, k: nat)
    requires IsPairRun(pairs, moves) && k <= |moves|
    ensures var s := pairs[k]; PairShows(s) && S.Faithful(s.world.a, s.world.b) && S.Faithful(s.world.b, s.world.a)
  {
    hide PairShows;
    hide PairStep;
    hide PairStart;
    hide S.IsRun;
    PairsShow(pairs, moves, k);
    PairsRun(pairs, moves);
    S.StreamsAreFaithful(Worlds(pairs), WorldMoves(pairs, moves), k);
  }

  /** And what was sent by `j` is delivered by `k`, once the segments outstanding at `j` have been received. */
  lemma StacksDeliver(pairs: seq<Pair>, moves: seq<PairMove>, j: nat, k: nat)
    requires IsPairRun(pairs, moves) && j <= k <= |moves|
    requires var w := pairs[j].world;
             && w.a.conn.state == Established && !S.Left(w.b)
             && forall x | x in w.ab && P.CarriesData(x) && x.offset == w.a.acked ::
                  P.Received(Worlds(pairs), WorldMoves(pairs, moves), k, x)
    ensures var w := pairs[j].world; w.a.sent <= |w.a.stream| && w.a.stream[..w.a.sent] <= pairs[k].world.b.delivered
  {
    hide PairStep;
    hide PairStart;
    hide S.IsRun;
    hide S.Left;
    hide P.Received;
    PairsRun(pairs, moves);
    P.EventuallyDelivered(Worlds(pairs), WorldMoves(pairs, moves), j, k);
  }

  /**
   * Why a silent callback is not enough on a poll: what one connection sends leaves its
   * length in uip_slen, and a poll of another connection sends as much from the buffer.
   */
  lemma LengthCrosses(cfg: Config, t: Table, i: nat, j: nat, sends: Reply, silent: Reply, n: u16)
    requires cfg.Ok() && TableOk(cfg, t) && i < |t.conns| && j < |t.conns| && i != j
    requires sends.Ok(cfg) && sends.op == Continue && sends.send == Some(n) && n > 0
    requires silent.Ok(cfg) && silent.op == Continue && silent.send.None?
    requires t.conns[i].state == Established && !t.conns[i].Outstanding() && t.conns[i].mss > 0
    requires t.conns[j].state == Established && !t.conns[j].Outstanding() && t.conns[j].mss > 0
    ensures var t1 := Step(cfg, t, Tick(i, sends)).0;
            && TableShape(cfg, t1) && j < |t1.conns|
            && var packet := Step(cfg, t1, Poll(j, silent)).1;
            packet.Some? && packet.value.payload == silent.data[..Min(Min(n, t.conns[i].mss), t.conns[j].mss)] != []
  {
    hide PollRequest;
    StepKeeps(cfg, t, Tick(i, sends));
    var t1 := Step(cfg, t, Tick(i, sends)).0;
    assert t1.conns[j] == t.conns[j] && t1.slen as int == Min(n, t.conns[i].mss);
    S.StalePollSends(cfg, t1.conns[j], t1.slen, silent);
  }
}
