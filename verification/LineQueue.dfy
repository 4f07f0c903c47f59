/** The line queue of the telnet server as a value: what each application call does to it. */
module LineQueue {
  import opened Words

  /** A queued line: the block that holds it, and its length. */
  datatype Line = Line(block: nat, len: nat)

  /**
   * The queue, the lines counted by the last senddata and the segment size it saw, whether
   * the shell asked to close, and the lines in the segment the stack has outstanding.
   */
  datatype State = State(queue: seq<Line>, numsent: nat, mss: nat, closing: bool, flight: nat)

  /** One application call: the event flags, uip_mss(), and the lines the shell answers with. */
  datatype Call = Call(connected: bool, acked: bool, newdata: bool, rexmit: bool, poll: bool, mss: nat,
                       greeting: seq<nat>, answers: seq<nat>, quit: bool)

  /** The calls uip_process makes before a connection is closed. */
  predicate Possible(c: Call) {
    !(c.connected && c.acked) && (c.connected || c.acked || c.newdata || c.rexmit || c.poll)
  }

  // ---------------------------------------------------------------- blocks

  ghost predicate InUse(q: seq<Line>, b: nat) { exists k | 0 <= k < |q| :: q[k].block == b }

  ghost predicate Distinct(q: seq<Line>) { forall j, k | 0 <= j < k < |q| :: q[j].block != q[k].block }

  /** Blocks of a pool of `n`, no block twice. */
  ghost predicate Ok(q: seq<Line>, n: nat) { Distinct(q) && forall k | 0 <= k < |q| :: q[k].block < n }

  ghost function FirstFree(q: seq<Line>, n: nat, b: nat := 0): (r: nat)
    requires b <= n
    ensures b <= r <= n
    ensures r < n ==> !InUse(q, r)
    ensures forall k | b <= k < r :: InUse(q, k)
    decreases n - b
  {
    if b == n || !InUse(q, b) then b else FirstFree(q, n, b + 1)
  }

  lemma InUseAfterPush(q: seq<Line>, l: Line, b: nat)
    ensures InUse(q + [l], b) <==> InUse(q, b) || b == l.block
  {
    var r := q + [l];
    assert r[|q|] == l;
    if k :| 0 <= k < |q| && q[k].block == b {
      assert r[k].block == b;
    }
  }

  lemma InUseAfterPop(q: seq<Line>, b: nat)
    requires q != [] && Distinct(q)
    ensures InUse(q[1..], b) <==> InUse(q, b) && b != q[0].block
  {
    if k :| 0 <= k < |q| && q[k].block == b && b != q[0].block {
      assert q[1..][k - 1].block == b;
    }
    if k :| 0 <= k < |q| - 1 && q[1..][k].block == b {
      assert q[k + 1].block == b;
    }
  }

  lemma PopDistinct(q: seq<Line>)
    requires q != [] && Distinct(q)
    ensures Distinct(q[1..])
  {
    forall j, k | 0 <= j < k < |q| - 1 ensures q[1..][j].block != q[1..][k].block {
      assert q[j + 1].block != q[k + 1].block;
    }
  }

  ghost function Blocks(q: seq<Line>): (r: set<nat>)
    ensures forall b: nat :: b in r <==> InUse(q, b)
  {
    set k | 0 <= k < |q| :: q[k].block
  }

  lemma {:induction false} BlocksCount(q: seq<Line>)
    ensures |Blocks(q)| <= |q| && (Distinct(q) ==> |Blocks(q)| == |q|)
    decreases |q|
  {
    if q != [] {
      var n := |q| - 1;
      BlocksCount(q[..n]);
      assert Blocks(q) == Blocks(q[..n]) + {q[n].block};
      assert Distinct(q) ==> q[n].block !in Blocks(q[..n]);
    }
  }

  function Range(n: nat): (r: set<nat>)
    ensures |r| == n && forall b: nat :: b in r <==> b < n
  {
    if n == 0 then {} else Range(n - 1) + {n - 1}
  }

  lemma {:induction false} SubsetCount(a: set<nat>, b: set<nat>)
    requires a <= b
    ensures |a| <= |b| && (|a| == |b| ==> a == b)
  {
    if a != {} {
      var x :| x in a;
      SubsetCount(a - {x}, b - {x});
    }
  }

  /** Some block is free exactly when the queue has room: no line is allocated and then discarded. */
  lemma FreeMeansRoom(q: seq<Line>, n: nat)
    requires Ok(q, n)
    ensures |q| <= n && (FirstFree(q, n) < n <==> |q| < n)
  {
    BlocksCount(q);
    SubsetCount(Blocks(q), Range(n));
    if FirstFree(q, n) == n {
      assert Blocks(q) == Range(n);
    }
  }

  // ---------------------------------------------------------------- steps

  /** shell_prompt, shell_output or sendopt with a line of length `len`. */
  ghost function Push(q: seq<Line>, n: nat, len: nat): seq<Line> {
    var b := FirstFree(q, n);
    if b < n then q + [Line(b, len)] else q
  }

  ghost function PushAll(q: seq<Line>, n: nat, lens: seq<nat>): seq<Line>
    decreases |lens|
  {
    if lens == [] then q else Push(PushAll(q, n, lens[..|lens| - 1]), n, lens[|lens| - 1])
  }

  function Bytes(q: seq<Line>, k: nat): nat
    requires k <= |q|
  {
    if k == 0 then 0 else Bytes(q, k - 1) + q[k - 1].len
  }

  /** The lines senddata copies, from line `k` on. */
  function Fitting(q: seq<Line>, mss: nat, k: nat := 0): (r: nat)
    requires k <= |q|
    ensures k <= r <= |q|
    decreases |q| - k
  {
    if k < |q| && Bytes(q, k) + q[k].len < mss then Fitting(q, mss, k + 1) else k
  }

  ghost function AfterConnect(s: State, n: nat, c: Call): State {
    if c.connected then s.(queue := PushAll([], n, c.greeting), closing := false, flight := 0) else s
  }

  ghost function AfterAck(s: State, c: Call): State {
    if c.acked && s.numsent <= |s.queue| then s.(queue := s.queue[s.numsent..], numsent := 0, flight := 0) else s
  }

  ghost function AfterData(s: State, n: nat, c: Call): State {
    if c.newdata then s.(queue := PushAll(s.queue, n, c.answers), closing := c.quit) else s
  }

  /** senddata; the stack takes the bytes only while it has nothing outstanding. */
  ghost function AfterSend(s: State, mss: nat): State {
    var k := Fitting(s.queue, mss);
    s.(numsent := k, mss := mss, flight := if s.flight == 0 && Bytes(s.queue, k) > 0 then k else s.flight)
  }

  ghost function Step(s: State, n: nat, c: Call): State {
    AfterSend(AfterData(AfterAck(AfterConnect(s, n, c), c), n, c), c.mss)
  }

  /** What holds between application calls; the segment outstanding may be longer or shorter than numsent. */
  ghost predicate Inv(s: State, n: nat) {
    Ok(s.queue, n) && s.numsent == Fitting(s.queue, s.mss) && s.flight <= |s.queue|
  }

  lemma {:induction false} PushAllOk(q: seq<Line>, n: nat, lens: seq<nat>)
    requires Ok(q, n)
    ensures var r := PushAll(q, n, lens);
            Ok(r, n) && q <= r && |r| == Min(|q| + |lens|, n)
    decreases |lens|
  {
    hide FirstFree;
    FreeMeansRoom(q, n);
    if lens != [] {
      PushAllOk(q, n, lens[..|lens| - 1]);
      FreeMeansRoom(PushAll(q, n, lens[..|lens| - 1]), n);
    }
  }

  /** senddata takes as many whole lines as fit below the segment size, and no fewer. */
  lemma {:induction false} FittingMeaning(q: seq<Line>, mss: nat, k: nat)
    requires k <= |q| && (k == 0 || Bytes(q, k) < mss)
    ensures var r := Fitting(q, mss, k);
            && (r == 0 || Bytes(q, r) < mss)
            && (r < |q| ==> Bytes(q, r + 1) >= mss)
    decreases |q| - k
  {
    if k < |q| && Bytes(q, k) + q[k].len < mss { FittingMeaning(q, mss, k + 1); }
  }

  lemma {:induction false} BytesGrow(q: seq<Line>, j: nat, k: nat)
    requires j <= k <= |q|
    ensures Bytes(q, j) <= Bytes(q, k)
    decreases k
  {
    if j < k { BytesGrow(q, j, k - 1); }
  }

  /** How many lines fit, compared with any number of them. */
  lemma FittingAgainst(q: seq<Line>, mss: nat, k: nat)
    requires k <= |q|
    ensures Fitting(q, mss) > k <==> k < |q| && Bytes(q, k + 1) < mss
    ensures Fitting(q, mss) < k <==> k > 0 && Bytes(q, k) >= mss
  {
    FittingMeaning(q, mss, 0);
    var r := Fitting(q, mss);
    if k < r {
      BytesGrow(q, k + 1, r);
      BytesGrow(q, k, r);
    } else if r < k {
      BytesGrow(q, r + 1, k);
      if k < |q| { BytesGrow(q, r + 1, k + 1); }
    } else if k < |q| {
      BytesGrow(q, k, k + 1);
    }
  }

  /**
   * Every call keeps the invariant, and the queue is first in first out: an ack takes lines
   * off the front, the shell's lines go to the back while there is room.
   */
  lemma StepKeeps(s: State, n: nat, c: Call)
    requires Inv(s, n) && Possible(c)
    ensures Inv(Step(s, n, c), n)
    ensures !c.connected ==>
              var kept := s.queue[if c.acked then s.numsent else 0..];
              && kept <= Step(s, n, c).queue
              && |Step(s, n, c).queue| == Min(|kept| + (if c.newdata then |c.answers| else 0), n)
  {
    hide Fitting;
    hide FirstFree;
    hide PushAll;
    PushAllOk([], n, c.greeting);
    var s1 := AfterAck(AfterConnect(s, n, c), c);
    assert Ok(s1.queue, n);
    FreeMeansRoom(s1.queue, n);
    PushAllOk(s1.queue, n, c.answers);
  }

  /** The shell's wish to close is remembered from the call with the data, and forgotten on a new connection. */
  lemma ClosingExactly(s: State, n: nat, c: Call)
    ensures Step(s, n, c).closing <==> if c.newdata then c.quit else s.closing && !c.connected
  {
  }

  ghost function Run(s: State, n: nat, calls: seq<Call>): State
    decreases |calls|
  {
    if calls == [] then s else Step(Run(s, n, calls[..|calls| - 1]), n, calls[|calls| - 1])
  }

  /** From the call that reports the connection on, whatever was left over from an earlier one. */
  lemma {:induction false} RunKeeps(s: State, n: nat, calls: seq<Call>)
    requires calls != [] && calls[0].connected && forall k | 0 <= k < |calls| :: Possible(calls[k])
    ensures Inv(Run(s, n, calls), n)
    decreases |calls|
  {
    if |calls| == 1 {
      var clean := State([], 0, 0, false, 0);
      assert calls[..0] == [];
      StepKeeps(clean, n, calls[0]);
      assert AfterAck(AfterConnect(s, n, calls[0]), calls[0]).queue == AfterAck(AfterConnect(clean, n, calls[0]), calls[0]).queue;
    } else {
      RunKeeps(s, n, calls[..|calls| - 1]);
      StepKeeps(Run(s, n, calls[..|calls| - 1]), n, calls[|calls| - 1]);
    }
  }

  // ---------------------------------------------------------------- acks and the segment sent

  /**
   * An ack frees the lines counted by the last senddata, whatever the acknowledged segment
   * held. `m` is the segment size of that senddata: too many lines are freed when a line
   * after the segment's also fits below `m`, too few when the segment's own lines do not.
   */
  lemma AckFreesTheSegment(s: State, n: nat, c: Call)
    requires Inv(s, n) && Possible(c) && c.acked
    ensures var left, m, f := |AfterAck(s, c).queue|, s.mss, s.flight;
            && AfterAck(s, c).queue == s.queue[s.numsent..]
            && (left < |s.queue| - f <==> f < |s.queue| && Bytes(s.queue, f + 1) < m)
            && (left > |s.queue| - f <==> f > 0 && Bytes(s.queue, f) >= m)
            && (AfterAck(s, c).queue == s.queue[f..] <==>
                  (f < |s.queue| ==> Bytes(s.queue, f + 1) >= m) && (f > 0 ==> Bytes(s.queue, f) < m))
  {
    hide Fitting;
    FittingAgainst(s.queue, s.mss, s.flight);
    assert |AfterAck(s, c).queue| == |s.queue| - s.numsent;
  }

  /** A line queued while another is unacknowledged, and freed by that one's ack. */
  lemma LineLost()
    ensures var calls := [Call(true, false, false, false, false, 40, [5], [], false),
                          Call(false, false, true, false, false, 40, [], [7], false)];
            var ack := Call(false, true, false, false, false, 40, [], [], false);
            var s := Run(State([], 0, 0, false, 0), 2, calls);
            s.queue == [Line(0, 5), Line(1, 7)] && s.flight == 1 && AfterAck(s, ack).queue == []
  {
    var c0 := Call(true, false, false, false, false, 40, [5], [], false);
    var c1 := Call(false, false, true, false, false, 40, [], [7], false);
    var s0, q := State([], 0, 0, false, 0), [Line(0, 5)];
    PushOne([], 2, 5, 0);
    FittingIs(q, 40, 1);
    assert Bytes(q, 1) == 5;
    assert Step(s0, 2, c0) == State(q, 1, 40, false, 1);
    assert q[0].block == 0 && InUse(q, 0);
    PushOne(q, 2, 7, 1);
    var r := [Line(0, 5), Line(1, 7)];
    assert Bytes(r, 1) == 5;
    FittingIs(r, 40, 2);
    TwoCalls(s0, 2, c0, c1);
  }

  /** A window that shrinks while two lines are outstanding: the ack frees one, the other is sent again. */
  lemma LineSentAgain()
    ensures var calls := [Call(true, false, false, false, false, 40, [20, 10], [], false),
                          Call(false, false, true, false, false, 25, [], [], false)];
            var ack := Call(false, true, false, false, false, 25, [], [], false);
            var s := Run(State([], 0, 0, false, 0), 2, calls);
            && s.queue == [Line(0, 20), Line(1, 10)] && s.flight == 2 && s.numsent == 1
            && AfterAck(s, ack).queue == [Line(1, 10)] && Step(s, 2, ack).flight == 1
  {
    var c0 := Call(true, false, false, false, false, 40, [20, 10], [], false);
    var c1 := Call(false, false, true, false, false, 25, [], [], false);
    var s0, q, r := State([], 0, 0, false, 0), [Line(0, 20)], [Line(0, 20), Line(1, 10)];
    PushOne([], 2, 20, 0);
    assert q[0].block == 0 && InUse(q, 0);
    PushOne(q, 2, 10, 1);
    PushMore([], 2, [20], 10);
    assert [20] + [10] == [20, 10];
    assert Bytes(r, 1) == 20;
    FittingIs(r, 40, 2);
    assert Step(s0, 2, c0) == State(r, 2, 40, false, 2);
    FittingIs(r, 25, 1);
    assert Step(State(r, 2, 40, false, 2), 2, c1) == State(r, 1, 25, false, 2);
    TwoCalls(s0, 2, c0, c1);
    assert r[1..] == [Line(1, 10)];
    FittingIs([Line(1, 10)], 25, 1);
  }

  lemma PushOne(q: seq<Line>, n: nat, len: nat, b: nat)
    requires b < n && !InUse(q, b) && forall k: nat | k < b :: InUse(q, k)
    ensures Push(q, n, len) == q + [Line(b, len)] && PushAll(q, n, [len]) == q + [Line(b, len)]
  {
    assert FirstFree(q, n) == b;
    assert [len][..0] == [];
    assert PushAll(q, n, []) == q;
  }

  lemma PushMore(q: seq<Line>, n: nat, lens: seq<nat>, len: nat)
    ensures PushAll(q, n, lens + [len]) == Push(PushAll(q, n, lens), n, len)
  {
    assert (lens + [len])[..|lens|] == lens;
  }

  lemma FittingIs(q: seq<Line>, mss: nat, k: nat)
    requires k <= |q| && (k == 0 || Bytes(q, k) < mss) && (k < |q| ==> Bytes(q, k + 1) >= mss)
    ensures Fitting(q, mss) == k
  {
    FittingAgainst(q, mss, k);
  }

  lemma TwoCalls(s: State, n: nat, c0: Call, c1: Call)
    ensures Run(s, n, [c0, c1]) == Step(Step(s, n, c0), n, c1)
  {
    assert [c0, c1][..1] == [c0] && [c0][..0] == [];
    assert Run(s, n, [c0]) == Step(s, n, c0);
  }
}
