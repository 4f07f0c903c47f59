/** The telnet server's lines[] over the block pool (telnetd.c), from connect until the first close. */
module Telnetd {
  import opened Words
  import opened LineQueue
  import opened Memb

  datatype Action = Close | Send(len: nat)

  /** lines[] is the queue followed by NULLs, and exactly the queued blocks are allocated. */
  ghost predicate Mirrors(q: seq<Line>, ls: seq<Option<nat>>, mem: seq<nat>, cs: seq<u8>) {
    && |ls| == |mem| == |cs| && |q| <= |ls| && Ok(q, |ls|)
    && (forall k | 0 <= k < |ls| :: ls[k] == if k < |q| then Some(q[k].block) else None)
    && (forall k | 0 <= k < |q| :: mem[q[k].block] == q[k].len)
    && (forall b | 0 <= b < |cs| :: cs[b] == if InUse(q, b) then 1 else 0)
  }

  lemma MirrorPopped(q: seq<Line>, ls: seq<Option<nat>>, mem: seq<nat>, cs: seq<u8>)
    requires q != [] && Mirrors(q, ls, mem, cs)
    ensures |ls| == |cs| > q[0].block && ls[0] == Some(q[0].block) && cs[q[0].block] == 1
    ensures Mirrors(q[1..], ls[1..] + [None], mem, cs[q[0].block := 0])
  {
    hide InUse;
    hide Distinct;
    BlockUsed(q, 0);
    PopDistinct(q);
    var c1 := cs[q[0].block := 0];
    forall b | 0 <= b < |c1| ensures c1[b] == if InUse(q[1..], b) then 1 else 0 {
      InUseAfterPop(q, b);
    }
  }

  class Server {
    const linemem: Pool
    const lines: array<Option<nat>>
    /** The string length of each block's contents, at most TELNETD_CONF_LINELEN. */
    const memory: array<nat>
    var numsent: nat
    var closing: bool
    ghost var queue: seq<Line>
    ghost var sentMss: nat
    ghost var flight: nat

    constructor (numLines: u8)
      ensures fresh(linemem) && fresh(linemem.count) && fresh(lines) && fresh(memory)
      ensures Sized() && lines.Length == numLines as int && Idle()
    {
      linemem := new Pool(numLines);
      lines := new Option<nat>[numLines](_ => None);
      memory := new nat[numLines](_ => 0);
      numsent, closing, queue, sentMss, flight := 0, false, [], 0, 0;
    }

    ghost predicate Sized() { lines.Length == memory.Length == linemem.count.Length < 0x100 }

    /** No block is allocated. */
    ghost predicate Idle()
      reads linemem.count
    {
      forall b | 0 <= b < linemem.count.Length :: linemem.count[b] == 0
    }

    ghost predicate Valid()
      reads this, linemem.count, lines, memory
    {
      Sized() && Mirrors(queue, lines[..], memory[..], linemem.count[..])
    }

    ghost function Now(): State
      reads this
    {
      State(queue, numsent, sentMss, closing, flight)
    }

    /** sendline: the line goes to the first empty place `i`, or is freed if there is none. */
    method SendLine(line: nat) returns (i: nat)
      requires Sized() && line < lines.Length
      modifies lines, linemem.count
      ensures i <= lines.Length && forall k | 0 <= k < i :: old(lines[k]) != None
      ensures i < lines.Length ==> old(lines[i]) == None && lines[i] == Some(line)
      ensures i < lines.Length ==> linemem.count[..] == old(linemem.count[..])
      ensures i == lines.Length ==> linemem.count[line] as int == if old(linemem.count[line]) > 0 then old(linemem.count[line]) - 1 else 0
      ensures forall k | 0 <= k < lines.Length && k != i :: lines[k] == old(lines[k])
    {
      i := 0;
      while i < lines.Length
        modifies {}
        invariant 0 <= i <= lines.Length
        invariant forall k | 0 <= k < i :: lines[k] != None
      {
        if lines[i] == None {
          break;
        }
        i := i + 1;
      }
      if i < lines.Length {
        lines[i] := Some(line);
      } else {
        var _ := linemem.Free(Some(line));
      }
    }

    /** shell_prompt, shell_output and sendopt: a line is queued if a block is free, never discarded. */
    method Output(len: nat)
      requires Valid()
      modifies this`queue, linemem.count, lines, memory
      ensures Valid() && queue == Push(old(queue), lines.Length, len)
    {
      hide InUse;
      FreeMeansRoom(queue, lines.Length);
      var line := linemem.Alloc();
      if line.Some? {
        var b := line.value;
        ghost var q := queue;
        assert b == FirstFree(q, lines.Length);
        memory[b] := len;
        assert lines[|q|] == None;
        FreshBlock(q, lines.Length);
        var i := SendLine(b);
        assert i == |q| < lines.Length;
        queue := queue + [Line(b, len)];
        forall k: nat ensures InUse(queue, k) <==> InUse(q, k) || k == b {
          InUseAfterPush(q, Line(b, len), k);
        }
      }
    }

    method OutputAll(lens: seq<nat>)
      requires Valid()
      modifies this`queue, linemem.count, lines, memory
      ensures Valid() && queue == PushAll(old(queue), lines.Length, lens)
    {
      var k := 0;
      while k < |lens|
        invariant 0 <= k <= |lens| && Valid()
        invariant queue == PushAll(old(queue), lines.Length, lens[..k])
      {
        Output(lens[k]);
        assert lens[..k + 1][..k] == lens[..k];
        k := k + 1;
      }
      assert lens[..k] == lens;
    }

    /** The inner loop of acked. */
    method MoveUp()
      requires lines.Length > 0
      modifies lines
      ensures forall k | 0 <= k < lines.Length - 1 :: lines[k] == old(lines[k + 1])
      ensures lines[lines.Length - 1] == None
    {
      var i := 1;
      while i < lines.Length
        modifies lines
        invariant 1 <= i <= lines.Length
        invariant forall k | 0 <= k < i - 1 :: lines[k] == old(lines[k + 1])
        invariant forall k | i - 1 <= k < lines.Length :: lines[k] == old(lines[k])
      {
        lines[i - 1] := lines[i];
        i := i + 1;
      }
      lines[lines.Length - 1] := None;
    }

    /** One round of acked: the first line is freed and the others move up. */
    method DropFirst()
      requires Valid() && queue != []
      modifies this`queue, linemem.count, lines
      ensures Valid() && queue == old(queue)[1..]
    {
      hide Mirrors;
      ghost var q, ls, mem, cs := queue, lines[..], memory[..], linemem.count[..];
      MirrorPopped(q, ls, mem, cs);
      // the pointer freed is never NULL, and its block was allocated
      assert lines[0] == Some(q[0].block);
      var left := linemem.Free(lines[0]);
      assert left == 0;
      assert linemem.count[..] == cs[q[0].block := 0];
      MoveUp();
      assert lines[..] == ls[1..] + [None];
      queue := queue[1..];
    }

    /** acked. */
    method Acked()
      requires Valid() && numsent <= |queue|
      modifies this`queue, this`numsent, linemem.count, lines
      ensures Valid() && numsent == 0 && queue == old(queue)[old(numsent)..]
    {
      while numsent > 0
        invariant Valid() && 0 <= numsent <= |queue|
        invariant queue[numsent..] == old(queue)[old(numsent)..]
      {
        ghost var q := queue;
        DropFirst();
        assert queue[numsent - 1..] == q[numsent..];
        numsent := numsent - 1;
      }
    }

    /** senddata; the result is the length passed to uip_send. */
    method SendData(mss: nat) returns (buflen: nat)
      requires Valid()
      modifies this`numsent
      ensures numsent == Fitting(queue, mss) && buflen == Bytes(queue, numsent)
      ensures buflen == 0 || buflen < mss
    {
      buflen, numsent := 0, 0;
      while numsent < lines.Length && lines[numsent] != None
        invariant 0 <= numsent <= |queue| && buflen == Bytes(queue, numsent)
        invariant Fitting(queue, mss, numsent) == Fitting(queue, mss, 0)
        invariant buflen == 0 || buflen < mss
        decreases lines.Length - numsent
      {
        var linelen := memory[lines[numsent].value];
        if buflen + linelen < mss {
          buflen := buflen + linelen;
        } else {
          break;
        }
        numsent := numsent + 1;
      }
    }

    /** The start of telnetd_appcall on a new connection. */
    method Connected(greeting: seq<nat>)
      requires Sized() && Idle()
      modifies this, linemem.count, lines, memory
      ensures Valid() && queue == PushAll([], lines.Length, greeting) && !closing && flight == 0
      ensures numsent == old(numsent) && sentMss == old(sentMss)
    {
      var i := 0;
      while i < lines.Length
        modifies lines
        invariant 0 <= i <= lines.Length
        invariant forall k | 0 <= k < i :: lines[k] == None
      {
        lines[i] := None;
        i := i + 1;
      }
      queue, closing, flight := [], false, 0;
      OutputAll(greeting);
    }

    /** telnetd_appcall below the test for a close: acked, newdata and senddata. */
    method Answer(c: Call) returns (buflen: nat)
      requires Valid() && (c.acked ==> numsent <= |queue|)
      modifies this, linemem.count, lines, memory
      ensures Valid() && Now() == AfterSend(AfterData(AfterAck(old(Now()), c), lines.Length, c), c.mss)
      ensures buflen == Bytes(queue, numsent) && (buflen == 0 || buflen < c.mss)
    {
      hide Fitting;
      hide Ok;
      hide InUse;
      hide PushAll;
      if c.acked {
        Acked();
        flight := 0;
      }
      if c.newdata {
        OutputAll(c.answers);
        closing := c.quit;
      }
      buflen := SendData(c.mss);
      sentMss := c.mss;
      if flight == 0 && buflen > 0 {
        flight := numsent;
      }
    }

    /**
     * telnetd_appcall up to the first close: the greeting is queued on a new connection,
     * an ack drops what was sent, new data is answered, and what fits is sent.
     */
    method AppCall(c: Call) returns (a: Action)
      requires Possible(c)
      requires if c.connected then Sized() && Idle() else Valid() && Inv(Now(), lines.Length)
      modifies this, linemem.count, lines, memory
      ensures Valid()
      ensures !c.connected && old(closing) ==> a == Close && Now() == old(Now()).(closing := false)
      ensures c.connected || !old(closing) ==>
                && Now() == Step(old(Now()), lines.Length, c)
                && a == Send(Bytes(queue, numsent)) && (a.len == 0 || a.len < c.mss)
    {
      hide Ok;
      hide InUse;
      hide PushAll;
      hide AfterSend;
      hide AfterData;
      hide Bytes;
      if c.connected {
        Connected(c.greeting);
      }
      if closing {
        closing := false;
        return Close;
      }
      assert Now() == AfterConnect(old(Now()), lines.Length, c);
      var buflen := Answer(c);
      a := Send(buflen);
    }
  }

  /** The call before call `k` brought data that made the shell quit. */
  predicate QuitBefore(calls: seq<Call>, k: nat) { 0 < k <= |calls| && calls[k - 1].newdata && calls[k - 1].quit }

  lemma Quitting(calls: seq<Call>)
    ensures !QuitBefore(calls, 0)
    ensures forall k: nat | k < |calls| :: QuitBefore(calls, k + 1) <==> calls[k].newdata && calls[k].quit
  {
  }

  /**
   * A whole connection: from the call that reports it, through any calls up to the first
   * close, lines[] stays a packed queue of distinct blocks, exactly those allocated.
   */
  method Serve(t: Server, calls: seq<Call>) returns (actions: seq<Action>)
    requires t.Sized() && t.Idle()
    requires calls != [] && calls[0].connected
    requires forall k | 0 <= k < |calls| :: Possible(calls[k]) && (k > 0 ==> !calls[k].connected)
    modifies t, t.linemem.count, t.lines, t.memory
    ensures t.Valid() && Inv(t.Now(), t.lines.Length) && 0 < |actions| <= |calls|
    ensures forall k | 0 <= k < |actions| - 1 :: actions[k].Send? && (actions[k].len == 0 || actions[k].len < calls[k].mss)
    // the connection is closed by the call behind the one whose data made the shell quit
    ensures forall k | 0 <= k < |actions| :: actions[k] == Close <==> QuitBefore(calls, k)
    ensures if actions[|actions| - 1] == Close then
              t.Now() == Run(old(t.Now()), t.lines.Length, calls[..|actions| - 1]).(closing := false)
            else
              |actions| == |calls| && t.Now() == Run(old(t.Now()), t.lines.Length, calls)
  {
    hide Step;
    hide Inv;
    hide Ok;
    hide Mirrors;
    hide Possible;
    hide Fitting;
    hide Run;
    hide Server.Valid;
    hide QuitBefore;
    ghost var s0 := t.Now();
    RunSnoc(s0, t.lines.Length, calls, 0);
    var a := t.AppCall(calls[0]);
    actions := [a];
    RunKeeps(old(t.Now()), t.lines.Length, calls[..1]);
    ClosingExactly(old(t.Now()), t.lines.Length, calls[0]);
    Quitting(calls);
    assert t.Now() == Run(old(t.Now()), t.lines.Length, calls[..1]);
    while a.Send? && |actions| < |calls|
      invariant 0 < |actions| <= |calls| && t.Valid() && actions[|actions| - 1] == a
      invariant forall k | 0 <= k < |actions| - 1 :: actions[k].Send? && (actions[k].len == 0 || actions[k].len < calls[k].mss)
      invariant a.Send? ==> a.len == 0 || a.len < calls[|actions| - 1].mss
      invariant Inv(t.Now(), t.lines.Length)
      invariant a.Send? ==> (t.closing <==> QuitBefore(calls, |actions|))
      invariant forall k | 0 <= k < |actions| :: actions[k] == Close <==> QuitBefore(calls, k)
      invariant a == Close ==>
                  t.Now() == Run(old(t.Now()), t.lines.Length, calls[..|actions| - 1]).(closing := false)
      invariant a.Send? ==> t.Now() == Run(old(t.Now()), t.lines.Length, calls[..|actions|])
      decreases |calls| - |actions|
    {
      var k := |actions|;
      InvKept(t.Now(), t.lines.Length, calls[k]);
      ClosingExactly(t.Now(), t.lines.Length, calls[k]);
      a := t.AppCall(calls[k]);
      actions := actions + [a];
      RunSnoc(s0, t.lines.Length, calls, k);
    }
    assert calls[..|calls|] == calls;
  }

  lemma RunSnoc(s: State, n: nat, calls: seq<Call>, k: nat)
    requires k < |calls|
    ensures Run(s, n, calls[..k + 1]) == Step(Run(s, n, calls[..k]), n, calls[k]) && Run(s, n, []) == s
  {
    hide Step;
    assert calls[..k + 1][..k] == calls[..k];
  }

  lemma InvKept(s: State, n: nat, c: Call)
    requires Inv(s, n) && Possible(c)
    ensures Inv(s.(closing := false), n) && Inv(Step(s, n, c), n)
  {
    hide Step;
    StepKeeps(s, n, c);
  }

  lemma BlockUsed(q: seq<Line>, k: nat)
    requires k < |q|
    ensures InUse(q, q[k].block)
  {
  }

  lemma FreshBlock(q: seq<Line>, n: nat)
    ensures FirstFree(q, n) < n ==> forall k | 0 <= k < |q| :: q[k].block != FirstFree(q, n)
  {
  }
}
