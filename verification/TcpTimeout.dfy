/** How long a connection that hears nothing from its peer stays open. */
module TcpTimeout {
  import opened Words
  import opened TcpConn
  import opened TcpTable
  import opened TcpInvariant

  /** A state in which outstanding data, SYN or FIN is retransmitted. */
  predicate Waiting(c: Conn) {
    && c.Outstanding()
    && c.state != Closed && c.state != FinWait2 && c.state != TimeWait
    && (c.stopped ==> c.state == Established)
  }

  function Limit(c: Conn): nat { if InSyn(c) then UIP_MAXSYNRTX else UIP_MAXRTX }

  /** The ticks spent waiting after retransmissions lo .. hi-1. */
  function BackoffTicks(lo: nat, hi: nat): nat
    requires lo <= hi
    decreases hi - lo
  {
    if lo == hi then 0 else Backoff(lo) + 1 + BackoffTicks(lo + 1, hi)
  }

  function Deadline(c: Conn): nat
    requires c.nrtx <= Limit(c)
  {
    c.timer + 1 + BackoffTicks(c.nrtx, Limit(c))
  }

  lemma CallKeepsSizes(cfg: Config, c: Conn, reply: Reply)
    requires cfg.Ok() && SizesOk(cfg, c) && reply.Ok(cfg)
    ensures SizesOk(cfg, CallAndSend(cfg, c, false, false, 0, reply, [], false, 0).conn)
  {
  }

  lemma TimerKeepsSizes(cfg: Config, c: Conn, reply: Reply)
    requires cfg.Ok() && SizesOk(cfg, c) && reply.Ok(cfg)
    ensures SizesOk(cfg, Timer(cfg, c, reply).conn)
  {
    hide CallAndSend;
    hide SynPacket;
    hide Bare;
    hide Packet;
    CallKeepsSizes(cfg, c, reply);
  }

  /** One more retransmission takes its back-off and a tick from the deadline. */
  lemma BackoffLeft(c: Conn)
    requires c.nrtx < Limit(c) && c.timer == 0
    ensures Deadline(c) == 1 + Backoff(c.nrtx) + 1 + BackoffTicks(c.nrtx + 1, Limit(c))
  {
  }

  /** The connection after one tick per callback reply and nothing else. */
  function Ticks(cfg: Config, c: Conn, replies: seq<Reply>): Conn
    requires cfg.Ok() && SizesOk(cfg, c) && forall k | 0 <= k < |replies| :: replies[k].Ok(cfg)
    decreases |replies|
  {
    if replies == [] then c
    else
      TimerKeepsSizes(cfg, c, replies[0]);
      Ticks(cfg, Timer(cfg, c, replies[0]).conn, replies[1..])
  }

  /** One tick: a waiting connection closes, or comes one tick nearer its deadline. */
  lemma TickWaiting(cfg: Config, c: Conn, reply: Reply)
    requires cfg.Ok() && SizesOk(cfg, c) && reply.Ok(cfg) && Waiting(c) && c.nrtx <= Limit(c)
    ensures var c1 := Timer(cfg, c, reply).conn;
            if Deadline(c) == 1 then
              c1.state == Closed && (reply.op != Stop ==> !c1.Live())
            else
              && Waiting(c1) && c1.state == c.state && c1.len == c.len
              && c1.nrtx <= Limit(c1) && Deadline(c1) == Deadline(c) - 1
  {
    hide CallAndSend;
    hide SynPacket;
    hide Bare;
    hide Packet;
    hide BackoffTicks;
    hide Backoff;
    if c.nrtx < Limit(c) && c.timer == 0 {
      BackoffLeft(c);
    }
    DeadlineIsOne(c);
  }

  /** Only the last tick has a deadline of one. */
  lemma DeadlineIsOne(c: Conn)
    requires c.nrtx <= Limit(c)
    ensures Deadline(c) == 1 <==> c.timer == 0 && c.nrtx == Limit(c)
  {
  }

  /**
   * With no incoming segment the connection survives every tick before its deadline
   * and is closed by exactly that tick, whatever the application answers.
   */
  lemma {:induction false} GivesUpAtDeadline(cfg: Config, c: Conn, replies: seq<Reply>)
    requires cfg.Ok() && SizesOk(cfg, c) && Waiting(c) && c.nrtx <= Limit(c)
    requires forall k | 0 <= k < |replies| :: replies[k].Ok(cfg)
    ensures |replies| < Deadline(c) ==>
              var c1 := Ticks(cfg, c, replies); Waiting(c1) && c1.state == c.state && c1.len == c.len
    ensures |replies| == Deadline(c) && replies[|replies| - 1].op != Stop ==>
              Ticks(cfg, c, replies).state == Closed && !Ticks(cfg, c, replies).Live()
    decreases |replies|
  {
    if replies != [] {
      TickWaiting(cfg, c, replies[0]);
      TimerKeepsSizes(cfg, c, replies[0]);
      var c1 := Timer(cfg, c, replies[0]).conn;
      if Deadline(c) > 1 {
        GivesUpAtDeadline(cfg, c1, replies[1..]);
      } else if |replies| == 1 {
        assert Ticks(cfg, c1, replies[1..]) == c1;
      }
    }
  }

  /** The waiting time of the default configuration, in ticks. */
  lemma DeadlineInTicks(c: Conn)
    requires c.nrtx == 0
    ensures Deadline(c) == c.timer + (if InSyn(c) then 99 else 246)
  {
    assert BackoffTicks(5, 8) == 147;
    assert BackoffTicks(2, 5) == 87;
    assert BackoffTicks(2, 8) == 234 by {
      assert BackoffTicks(4, 8) == 49 + BackoffTicks(5, 8);
      assert BackoffTicks(3, 8) == 25 + BackoffTicks(4, 8);
    }
    assert BackoffTicks(1, 8) == 241;
    assert BackoffTicks(1, 5) == 94;
  }

  predicate Lingering(c: Conn) { (c.state == FinWait2 || c.state == TimeWait) && !c.stopped }

  /** FIN_WAIT_2 and TIME_WAIT count an 8-bit timer up to the limit, wrapping if needed. */
  function LingerTicks(timer: u8): nat {
    if timer < UIP_TIME_WAIT_TIMEOUT then UIP_TIME_WAIT_TIMEOUT - timer else UIP_TIME_WAIT_TIMEOUT + 256 - timer
  }

  lemma {:induction false} LingersExactly(cfg: Config, c: Conn, replies: seq<Reply>)
    requires cfg.Ok() && SizesOk(cfg, c) && Lingering(c)
    requires forall k | 0 <= k < |replies| :: replies[k].Ok(cfg)
    ensures LingerTicks(c.timer) <= 256
    ensures |replies| < LingerTicks(c.timer) ==> Ticks(cfg, c, replies).state == c.state
    ensures |replies| == LingerTicks(c.timer) ==> !Ticks(cfg, c, replies).Live()
    decreases |replies|
  {
    hide Timer;
    if replies != [] {
      TimerKeepsSizes(cfg, c, replies[0]);
      TickLingering(cfg, c, replies[0]);
      var c1 := Timer(cfg, c, replies[0]).conn;
      if LingerTicks(c.timer) > 1 {
        LingersExactly(cfg, c1, replies[1..]);
      } else if |replies| == 1 {
        assert Ticks(cfg, c1, replies[1..]) == c1;
      }
    }
  }

  // ---------------------------------------------------------------- in a table, among other connections

  /** A segment for the connection in slot `i`. */
  predicate Heard(t: Table, e: Event, i: nat) { e.Input? && Touches(t, e, i) }

  predicate OwnTick(e: Event, i: nat) { e.Tick? && e.slot == i }

  /** The ticks of slot `i` among the events j .. k-1. */
  function OwnTicks(events: seq<Event>, i: nat, j: nat, k: nat): nat
    requires j <= k <= |events|
    decreases k
  {
    if j == k then 0 else OwnTicks(events, i, j, k - 1) + (if OwnTick(events[k - 1], i) then 1 else 0)
  }

  /** An event that is neither a tick of the slot, a segment for it nor an opening leaves it waiting as it was. */
  lemma NothingHeard(cfg: Config, t: Table, e: Event, i: nat)
    requires cfg.Ok() && TableShape(cfg, t) && EventOk(cfg, t, e) && i < |t.conns|
    requires !Heard(t, e, i) && !Reopens(t, e, i)
    requires t.conns[i].state == Established ==> t.conns[i].Outstanding()
    ensures |Step(cfg, t, e).0.conns| == |t.conns|
    ensures Step(cfg, t, e).0.conns[i] == if OwnTick(e, i) then Timer(cfg, t.conns[i], e.reply).conn else t.conns[i]
  {
    hide Timer;
    hide Found;
    hide PassiveOpen;
    hide ActiveOpen;
    hide CallAndSend;
    SlotUntouched(cfg, t, e, i);
  }

  /** A waiting connection is not overwritten. */
  lemma NotReopened(t: Table, e: Event, i: nat)
    requires i < |t.conns| && Waiting(t.conns[i])
    ensures !Reopens(t, e, i)
  {
    FreeSlotMeaning(t.conns, 0, None);
  }

  /** The tick at the deadline comes with a callback that may not stop the connection. */
  lemma NoStopAtDeadline(t: Table, i: nat, reply: Reply)
    requires i < |t.conns| && StopsInEstablished(t, Tick(i, reply))
    requires Waiting(t.conns[i]) && t.conns[i].nrtx <= Limit(t.conns[i]) && Deadline(t.conns[i]) == 1
    ensures reply.op != Stop
  {
    DeadlineIsOne(t.conns[i]);
  }

  lemma {:induction false} WaitsInTable(cfg: Config, tables: seq<Table>, events: seq<Event>, i: nat, j: nat, k: nat)
    requires cfg.Ok() && IsRun(cfg, tables, events) && j <= k <= |events|
    requires i < |tables[j].conns| && Waiting(tables[j].conns[i]) && tables[j].conns[i].nrtx <= Limit(tables[j].conns[i])
    requires forall m | j <= m < k :: !Heard(tables[m], events[m], i)
    requires OwnTicks(events, i, j, k) < Deadline(tables[j].conns[i])
    ensures i < |tables[k].conns|
    ensures var c, c1 := tables[j].conns[i], tables[k].conns[i];
            && Waiting(c1) && c1.state == c.state && c1.len == c.len && c1.nrtx <= Limit(c1)
            && Deadline(c1) == Deadline(c) - OwnTicks(events, i, j, k)
    decreases k
  {
    hide Waiting;
    hide Deadline;
    hide Limit;
    hide Timer;
    hide Step;
    hide Heard;
    if j < k {
      WaitsInTable(cfg, tables, events, i, j, k - 1);
      ReachableTables(cfg, tables, events, k - 1);
      var t, e := tables[k - 1], events[k - 1];
      assert Follows(cfg, t, e, tables[k]);
      NotReopened(t, e, i);
      WaitingOutstanding(t.conns[i]);
      NothingHeard(cfg, t, e, i);
      if OwnTick(e, i) {
        TickWaiting(cfg, t.conns[i], e.reply);
      }
    }
  }

  lemma WaitingOutstanding(c: Conn)
    requires Waiting(c)
    ensures c.Outstanding() && c.Live()
  {
  }

  /** The tick at the deadline closes the slot. */
  lemma ClosedByTick(cfg: Config, t: Table, e: Event, t1: Table, i: nat)
    requires cfg.Ok() && TableOk(cfg, t) && Follows(cfg, t, e, t1) && OwnTick(e, i)
    requires i < |t.conns| && Waiting(t.conns[i]) && t.conns[i].nrtx <= Limit(t.conns[i]) && Deadline(t.conns[i]) == 1
    ensures i < |t1.conns| && t1.conns[i].state == Closed && !t1.conns[i].Live()
  {
    hide Waiting;
    hide Deadline;
    hide Limit;
    hide Timer;
    hide Step;
    NotReopened(t, e, i);
    WaitingOutstanding(t.conns[i]);
    NothingHeard(cfg, t, e, i);
    NoStopAtDeadline(t, i, e.reply);
    TickWaiting(cfg, t.conns[i], e.reply);
  }

  /**
   * In a run of the whole stack, whatever happens on other slots and however often the slot is
   * polled: without a segment for it a waiting connection survives its own ticks until the
   * deadline and is closed by exactly that tick.
   */
  lemma GivesUpInTable(cfg: Config, tables: seq<Table>, events: seq<Event>, i: nat, j: nat, k: nat)
    requires cfg.Ok() && IsRun(cfg, tables, events) && j <= k <= |events|
    requires i < |tables[j].conns| && Waiting(tables[j].conns[i])
    requires forall m | j <= m < k :: !Heard(tables[m], events[m], i)
    ensures var c := tables[j].conns[i];
            && c.nrtx <= Limit(c)
            && (OwnTicks(events, i, j, k) < Deadline(c) ==>
                  i < |tables[k].conns| && Waiting(tables[k].conns[i])
                  && tables[k].conns[i].state == c.state && tables[k].conns[i].len == c.len)
            && (k > j && OwnTick(events[k - 1], i) && OwnTicks(events, i, j, k) == Deadline(c) ==>
                  i < |tables[k].conns| && tables[k].conns[i].state == Closed && !tables[k].conns[i].Live())
  {
    hide Deadline;
    hide Limit;
    hide Heard;
    hide Waiting;
    hide TableOk;
    hide OwnTick;
    hide OwnTicks;
    hide Follows;
    ReachableTables(cfg, tables, events, j);
    NrtxWithinLimit(cfg, tables[j], i);
    if OwnTicks(events, i, j, k) < Deadline(tables[j].conns[i]) {
      WaitsInTable(cfg, tables, events, i, j, k);
    } else if k > j && OwnTick(events[k - 1], i) && OwnTicks(events, i, j, k) == Deadline(tables[j].conns[i]) {
      ClosesInTable(cfg, tables, events, i, j, k);
    }
  }

  lemma ClosesInTable(cfg: Config, tables: seq<Table>, events: seq<Event>, i: nat, j: nat, k: nat)
    requires cfg.Ok() && IsRun(cfg, tables, events) && j < k <= |events|
    requires i < |tables[j].conns| && Waiting(tables[j].conns[i]) && tables[j].conns[i].nrtx <= Limit(tables[j].conns[i])
    requires forall m | j <= m < k :: !Heard(tables[m], events[m], i)
    requires OwnTick(events[k - 1], i) && OwnTicks(events, i, j, k) == Deadline(tables[j].conns[i])
    ensures i < |tables[k].conns| && tables[k].conns[i].state == Closed && !tables[k].conns[i].Live()
  {
    hide Deadline;
    hide Limit;
    hide Heard;
    hide Waiting;
    hide TableOk;
    hide OwnTicks;
    hide Follows;
    hide IsRun;
    LastOwnTick(events, i, j, k);
    WaitsInTable(cfg, tables, events, i, j, k - 1);
    StepOfRun(cfg, tables, events, k - 1);
    ClosedByTick(cfg, tables[k - 1], events[k - 1], tables[k], i);
  }

  lemma LastOwnTick(events: seq<Event>, i: nat, j: nat, k: nat)
    requires j < k <= |events| && OwnTick(events[k - 1], i)
    ensures OwnTicks(events, i, j, k) == OwnTicks(events, i, j, k - 1) + 1
  {
  }

  lemma NrtxWithinLimit(cfg: Config, t: Table, i: nat)
    requires cfg.Ok() && TableOk(cfg, t) && i < |t.conns|
    ensures t.conns[i].nrtx <= Limit(t.conns[i])
  {
  }

  /** One tick in FIN_WAIT_2 or TIME_WAIT. */
  lemma TickLingering(cfg: Config, c: Conn, reply: Reply)
    requires cfg.Ok() && SizesOk(cfg, c) && reply.Ok(cfg) && Lingering(c)
    ensures var c1 := Timer(cfg, c, reply).conn;
            if LingerTicks(c.timer) == 1 then !c1.Live()
            else Lingering(c1) && c1.state == c.state && LingerTicks(c1.timer) == LingerTicks(c.timer) - 1
  {
    Wraps8(c.timer + 1);
  }

  /** The same for the states that only wait, until the slot is opened again. */
  lemma {:induction false} LingersInTable(cfg: Config, tables: seq<Table>, events: seq<Event>, i: nat, j: nat, k: nat)
    requires cfg.Ok() && IsRun(cfg, tables, events) && j <= k <= |events|
    requires i < |tables[j].conns| && Lingering(tables[j].conns[i])
    requires forall m | j <= m < k :: !Heard(tables[m], events[m], i) && !Reopens(tables[m], events[m], i)
    requires OwnTicks(events, i, j, k) <= LingerTicks(tables[j].conns[i].timer)
    ensures i < |tables[k].conns|
    ensures var c, c1 := tables[j].conns[i], tables[k].conns[i];
            if OwnTicks(events, i, j, k) == LingerTicks(c.timer) then !c1.Live()
            else Lingering(c1) && c1.state == c.state && LingerTicks(c1.timer) == LingerTicks(c.timer) - OwnTicks(events, i, j, k)
    decreases k
  {
    hide LingerTicks;
    hide Timer;
    hide Step;
    hide Heard;
    hide Reopens;
    LingerPositive(tables[j].conns[i].timer);
    if j < k {
      LingersInTable(cfg, tables, events, i, j, k - 1);
      ReachableTables(cfg, tables, events, k - 1);
      var t, e := tables[k - 1], events[k - 1];
      assert Follows(cfg, t, e, tables[k]);
      NothingHeard(cfg, t, e, i);
      if OwnTick(e, i) {
        TickLingering(cfg, t.conns[i], e.reply);
      }
    }
  }

  /** From the moment the state is entered with a timer of 0. */
  lemma LingerInTicks()
    ensures LingerTicks(0) == 120
  {
  }

  lemma LingerPositive(timer: u8)
    ensures 0 < LingerTicks(timer) <= 256
  {
  }
}
