/**
 * The TCP engine: a fixed array of connections updated in place, one method for each
 * way uip_process is entered, each proved against the table functions.
 */
module TcpEngine {
  import opened Words
  import opened TcpConn
  import opened TcpTable
  import opened TcpInvariant
  import W = TcpSends

  class Stack {
    const cfg: Config
    const conns: array<Conn>
    const listen: array<u16>
    var iss: u32
    var lastport: u16
    var slen: u16

    ghost function View(): Table
      reads this, conns, listen
    {
      Table(conns[..], listen[..], iss, lastport, slen)
    }

    ghost predicate Valid()
      reads this, conns, listen
    {
      cfg.Ok() && TableOk(cfg, View())
    }

    constructor (cfg: Config, connCount: nat, listenCount: nat, iss: u32)
      requires cfg.Ok() && connCount < 256 && listenCount < 256
      ensures Valid() && fresh(conns) && fresh(listen) && this.cfg == cfg
      ensures View() == Init(connCount, listenCount, iss)
    {
      this.cfg := cfg;
      this.iss, lastport, slen := iss, 1024, 0;
      conns := new Conn[connCount](_ => EMPTY);
      listen := new u16[listenCount](_ => 0);
      new;
      assert conns[..] == seq(connCount, _ => EMPTY);
      assert listen[..] == seq(listenCount, _ => 0);
    }

    // ------------------------------------------------------------ searches

    method FindConnection(seg: Segment) returns (k: nat)
      ensures k == Demux(conns[..], seg)
    {
      k := 0;
      while k < conns.Length && !Matches(conns[k], seg)
        invariant k <= conns.Length
        invariant Demux(conns[..], seg) == Demux(conns[..], seg, k)
      {
        k := k + 1;
      }
    }

    method FindSlot() returns (best: Option<nat>)
      ensures best == FreeSlot(conns[..])
    {
      best := None;
      var i := 0;
      while i < conns.Length
        invariant i <= conns.Length
        invariant best.Some? ==> best.value < i
        invariant FreeSlot(conns[..]) == FreeSlot(conns[..], i, best)
      {
        if Unused(conns[i]) {
          return Some(i);
        }
        if Lingers(conns[i]) && (best.None? || conns[i].timer > conns[best.value].timer) {
          best := Some(i);
        }
        i := i + 1;
      }
    }

    /** Is the port used by a connection that is not closed? */
    method PortTaken(port: u16) returns (taken: bool)
      ensures taken == PortInUse(conns[..], port)
    {
      var i := 0;
      while i < conns.Length
        invariant i <= conns.Length
        invariant forall k | 0 <= k < i :: !(conns[k].Live() && conns[k].lport == Htons(port))
      {
        if conns[i].Live() && conns[i].lport == Htons(port) {
          assert conns[..][i] == conns[i];
          return true;
        }
        i := i + 1;
      }
      assert forall k | 0 <= k < conns.Length :: conns[..][k] == conns[k];
      return false;
    }

    /** The `again` loop; `left` bounds the candidates still to be tried. */
    method ChoosePort()
      requires conns.Length < 256 && lastport < 32000
      modifies this`lastport
      ensures PortSearch(conns[..], old(lastport), conns.Length + 1) == Some(lastport)
      ensures !PortInUse(conns[..], lastport) && lastport < 32000
    {
      PortFound(conns[..], lastport);
      ghost var left: nat := conns.Length + 1;
      lastport := NextPort(lastport);
      var taken := PortTaken(lastport);
      while taken
        invariant lastport < 32000 && left > 0
        invariant taken == PortInUse(conns[..], lastport)
        invariant PortSearch(conns[..], old(lastport), conns.Length + 1)
               == if taken then PortSearch(conns[..], lastport, left - 1) else Some(lastport)
        decreases left
      {
        left := left - 1;
        lastport := NextPort(lastport);
        taken := PortTaken(lastport);
      }
    }

    // ------------------------------------------------------------ the application and sending

    /** UIP_APPCALL: the application's control call and uip_send take effect. */
    method Call(i: nat, reply: Reply)
      requires i < conns.Length
      modifies conns, this`slen
      ensures conns[..] == old(conns[..])[i := AfterCall(old(conns[i]), reply.op)]
      ensures slen == reply.Slen(old(slen))
    {
      if reply.op == Stop {
        conns[i] := conns[i].(stopped := true);
      } else if reply.op == Restart {
        conns[i] := conns[i].(stopped := false);
      }
      if reply.send.Some? {
        slen := reply.send.value;
      }
    }

    /** apprexmit. */
    method SendOutstanding(i: nat, newdata: bool, reply: Reply) returns (packet: Option<Segment>)
      requires cfg.Ok() && i < conns.Length && SizesOk(cfg, conns[i]) && reply.Ok(cfg)
      ensures packet == AppRexmit(cfg, conns[i], newdata, slen, reply, [], false, 0).packet
    {
      if slen > 0 && conns[i].len > 0 {
        packet := Some(Packet(cfg, conns[i], ACK_PSH, None, reply.data[..conns[i].len]));
      } else if newdata {
        packet := Bare(cfg, conns[i], ACK);
      } else {
        packet := None;
      }
    }

    /** The callback in ESTABLISHED and appsend. */
    method CallThenSend(i: nat, ackdata: bool, newdata: bool, reply: Reply) returns (packet: Option<Segment>)
      requires cfg.Ok() && i < conns.Length && SizesOk(cfg, conns[i]) && reply.Ok(cfg)
      modifies conns, this`slen
      ensures var o := CallAndSend(cfg, old(conns[i]), ackdata, newdata, old(slen), reply, [], false, 0);
              conns[..] == old(conns[..])[i := o.conn] && slen == o.slen && packet == o.packet
    {
      hide AppRexmit;
      hide Bare;
      hide Fit;
      Call(i, reply);
      if reply.op == Abort {
        slen := 0;
        conns[i] := conns[i].Enter(Closed);
        return Bare(cfg, conns[i], RST_ACK);
      }
      if reply.op == Close {
        slen := 0;
        conns[i] := conns[i].(len := 1, nrtx := 0).Enter(FinWait1);
        return Bare(cfg, conns[i], FIN_ACK);
      }
      FitRequest(i, ackdata);
      conns[i] := conns[i].(nrtx := 0);
      RexmitKeepsConn(cfg, conns[i], newdata || reply.op == Restart, slen, reply, [], false, 0);
      packet := SendOutstanding(i, newdata || reply.op == Restart, reply);
    }

    /** The send request cut to the mss, or to what is outstanding. */
    method FitRequest(i: nat, ackdata: bool)
      requires cfg.Ok() && i < conns.Length && SizesOk(cfg, conns[i])
      modifies conns, this`slen
      ensures var (c, n) := Fit(old(conns[i]), ackdata, old(slen));
              conns[..] == old(conns[..])[i := c] && slen == n && SizesOk(cfg, c)
    {
      if slen > 0 {
        if ackdata {
          conns[i] := conns[i].(len := 0);
        }
        if conns[i].len == 0 {
          if slen > conns[i].mss {
            slen := conns[i].mss;
          }
          conns[i] := conns[i].(len := slen);
        } else {
          slen := conns[i].len;
        }
      }
    }

    // ------------------------------------------------------------ timer and poll

    method ProcessTimer(i: nat, reply: Reply) returns (packet: Option<Segment>)
      requires cfg.Ok() && i < conns.Length && SizesOk(cfg, conns[i]) && reply.Ok(cfg)
      modifies conns, this`slen
      ensures var o := Timer(cfg, old(conns[i]), reply);
              conns[..] == old(conns[..])[i := o.conn] && slen == o.slen && packet == o.packet
    {
      hide Expired;
      hide CallAndSend;
      slen := 0;
      packet := None;
      var c := conns[i];
      if (c.state == TimeWait || c.state == FinWait2) && !c.stopped {
        conns[i] := c.(timer := (c.timer + 1) % 256);
        if conns[i].timer == UIP_TIME_WAIT_TIMEOUT {
          conns[i] := conns[i].Enter(Closed);
        }
      } else if c.Live() {
        if c.Outstanding() {
          conns[i] := c.(timer := (c.timer - 1) % 256);
          if c.timer == 0 {
            ExpiredAtAnyTime(cfg, c, reply);
            packet := RetransmitOrGiveUp(i, reply);
          }
        } else if c.state == Established {
          packet := CallThenSend(i, false, false, reply);
        }
      }
    }

    /** UIP_REXMIT: the application leaves the data once more. */
    method ResendData(i: nat, reply: Reply) returns (packet: Option<Segment>)
      requires cfg.Ok() && i < conns.Length && SizesOk(cfg, conns[i]) && reply.Ok(cfg)
      modifies conns, this`slen
      ensures SizesOk(cfg, AfterCall(old(conns[i]), reply.op))
      ensures var o := AppRexmit(cfg, AfterCall(old(conns[i]), reply.op), reply.op == Restart, reply.Slen(old(slen)), reply, [], false, 0);
              conns[..] == old(conns[..])[i := o.conn] && slen == o.slen && packet == o.packet
    {
      hide AppRexmit;
      Call(i, reply);
      RexmitKeepsConn(cfg, conns[i], reply.op == Restart, slen, reply, [], false, 0);
      packet := SendOutstanding(i, reply.op == Restart, reply);
    }

    method RetransmitOrGiveUp(i: nat, reply: Reply) returns (packet: Option<Segment>)
      requires cfg.Ok() && i < conns.Length && SizesOk(cfg, conns[i]) && reply.Ok(cfg)
      requires conns[i].timer == 255 && conns[i].Outstanding() && slen == 0 && conns[i].Live()
      modifies conns, this`slen
      ensures var o := Expired(cfg, old(conns[i]), reply);
              conns[..] == old(conns[..])[i := o.conn] && slen == o.slen && packet == o.packet
      // what is outstanding is sent again, or the peer is told that the connection is given up
      ensures ConnOk(cfg, old(conns[i])) ==> W.Resent(cfg, old(conns[i]), reply, conns[i], packet)
    {
      hide W.Resent;
      hide Bare;
      hide SynPacket;
      hide Backoff;
      hide ConnOk;
      hide AppRexmit;
      hide AfterCall;
      hide GivesUp;
      ghost var c := conns[i];
      if ConnOk(cfg, c) { W.ExpiredResends(cfg, c, reply); }
      if GivesUp(conns[i]) {
        conns[i] := conns[i].Enter(Closed);
        Call(i, reply);
        return Bare(cfg, conns[i], RST_ACK);
      }
      conns[i] := conns[i].(timer := Backoff(conns[i].nrtx), nrtx := (conns[i].nrtx + 1) % 256);
      match conns[i].state
      case SynRcvd => packet := SynPacket(cfg, conns[i], SYN_ACK);
      case SynSent => packet := SynPacket(cfg, conns[i], SYN);
      case Established =>
        packet := ResendData(i, reply);
      case FinWait1 => packet := Bare(cfg, conns[i], FIN_ACK);
      case Closing => packet := Bare(cfg, conns[i], FIN_ACK);
      case LastAck => packet := Bare(cfg, conns[i], FIN_ACK);
      case _ => packet := None;
    }

    // ------------------------------------------------------------ a matching segment

    /** ACK processing: advance snd_nxt, estimate the round-trip time, restart the timer. */
    method ProcessAck(i: nat, seg: Segment) returns (acked: bool)
      requires i < conns.Length
      modifies conns
      ensures acked == Acks(old(conns[i]), seg)
      ensures conns[..] == old(conns[..])[i := AfterAck(old(conns[i]), seg)]
    {
      hide Deviation;
      hide NextSa;
      hide NextSv;
      hide Add;
      acked := false;
      if seg.flags.ack && conns[i].Outstanding() {
        var acc32 := Add(conns[i].sndNxt, conns[i].len);
        if seg.ackno == acc32 {
          conns[i] := conns[i].(sndNxt := acc32);
          if conns[i].nrtx == 0 {
            conns[i] := Estimate(conns[i]);
          }
          acked := true;
          conns[i] := conns[i].(timer := conns[i].rto, len := 0);
        }
      }
    }

    method ProcessFound(i: nat, seg: Segment, reply: Reply) returns (packet: Option<Segment>)
      requires cfg.Ok() && i < conns.Length && SizesOk(cfg, conns[i]) && reply.Ok(cfg) && seg.Ok()
      modifies conns, this`slen
      ensures var o := Found(cfg, old(conns[i]), old(slen), seg, reply);
              conns[..] == old(conns[..])[i := o.conn] && slen == o.slen && packet == o.packet
    {
      hide InEstablished;
      hide InSynRcvd;
      hide InSynSent;
      hide InFinWait1;
      hide Packet;
      packet := None;
      if seg.flags.rst {
        conns[i] := conns[i].Enter(Closed);
        Call(i, reply);
        return;
      }
      if OutOfOrder(conns[i], seg) {
        return Bare(cfg, conns[i], ACK);
      }
      var acked := ProcessAck(i, seg);
      match conns[i].state
      case SynRcvd => packet := ProcessSynRcvd(i, acked, seg, reply);
      case SynSent => packet := ProcessSynSent(i, acked, seg, reply);
      case Established => packet := ProcessEstablished(i, acked, seg, reply);
      case LastAck =>
        if acked {
          conns[i] := conns[i].Enter(Closed);
          Call(i, reply);
        }
      case FinWait1 => packet := ProcessFinWait1(i, acked, seg, reply);
      case FinWait2 => packet := ProcessFinWait2(i, seg, reply);
      case TimeWait => packet := Bare(cfg, conns[i], ACK);
      case Closing =>
        if acked {
          conns[i] := conns[i].(timer := 0).Enter(TimeWait);
        }
      case Closed =>
    }

    method ProcessSynRcvd(i: nat, acked: bool, seg: Segment, reply: Reply) returns (packet: Option<Segment>)
      requires cfg.Ok() && i < conns.Length && SizesOk(cfg, conns[i]) && reply.Ok(cfg)
      modifies conns, this`slen
      ensures var o := InSynRcvd(cfg, old(conns[i]), acked, old(slen), seg, reply);
              conns[..] == old(conns[..])[i := o.conn] && slen == o.slen && packet == o.packet
    {
      hide CallAndSend;
      hide Add;
      AddZero(conns[i].rcvNxt);
      packet := None;
      if acked {
        conns[i] := conns[i].(len := 0).Enter(Established);
        if |seg.payload| > 0 {
          conns[i] := conns[i].(rcvNxt := Add(conns[i].rcvNxt, |seg.payload|));
        }
        slen := 0;
        OnlyBookkeeping(cfg, conns[i], false, |seg.payload| > 0, 0, reply, seg.payload, true, |seg.payload|);
        packet := CallThenSend(i, false, |seg.payload| > 0, reply);
      }
    }

    method ProcessSynSent(i: nat, acked: bool, seg: Segment, reply: Reply) returns (packet: Option<Segment>)
      requires cfg.Ok() && i < conns.Length && SizesOk(cfg, conns[i]) && reply.Ok(cfg)
      modifies conns, this`slen
      ensures var o := InSynSent(cfg, old(conns[i]), acked, old(slen), seg, reply);
              conns[..] == old(conns[..])[i := o.conn] && slen == o.slen && packet == o.packet
    {
      if acked && seg.flags == SYN_ACK {
        conns[i] := TakeMssOption(cfg, conns[i], seg).Enter(Established);
        conns[i] := conns[i].(rcvNxt := Add(seg.seqno, 1), len := 0);
        slen := 0;
        packet := CallThenSend(i, false, true, reply);
      } else {
        Call(i, reply);
        conns[i] := conns[i].Enter(Closed);
        packet := ResetFor(cfg, seg);
      }
    }

    /** The peer's FIN in ESTABLISHED: answered by our own FIN unless data is outstanding. */
    method TakeFin(i: nat, acked: bool, seg: Segment, reply: Reply) returns (packet: Option<Segment>)
      requires cfg.Ok() && i < conns.Length && SizesOk(cfg, conns[i]) && reply.Ok(cfg)
      requires seg.flags.fin && !conns[i].stopped
      modifies conns, this`slen
      ensures var o := InEstablished(cfg, old(conns[i]), acked, old(slen), seg, reply);
              conns[..] == old(conns[..])[i := o.conn] && slen == o.slen && packet == o.packet
    {
      if conns[i].Outstanding() {
        return None;
      }
      conns[i] := conns[i].(rcvNxt := Add(conns[i].rcvNxt, 1 + |seg.payload|));
      Call(i, reply);
      conns[i] := conns[i].(len := 1, nrtx := 0).Enter(LastAck);
      packet := Bare(cfg, conns[i], FIN_ACK);
    }

    /** Data and acknowledgements in ESTABLISHED, also after a stop. */
    method TakeData(i: nat, acked: bool, seg: Segment, reply: Reply) returns (packet: Option<Segment>)
      requires cfg.Ok() && i < conns.Length && SizesOk(cfg, conns[i]) && reply.Ok(cfg)
      requires !seg.flags.fin || conns[i].stopped
      modifies conns, this`slen
      ensures var o := InEstablished(cfg, old(conns[i]), acked, old(slen), seg, reply);
              conns[..] == old(conns[..])[i := o.conn] && slen == o.slen && packet == o.packet
    {
      hide CallAndSend;
      packet := None;
      var c := conns[i];
      var newdata := |seg.payload| > 0 && !c.stopped;
      if newdata {
        c := c.(rcvNxt := Add(c.rcvNxt, |seg.payload|));
      }
      conns[i] := WindowMss(c, seg.wnd);
      if newdata || acked {
        slen := 0;
        OnlyBookkeeping(cfg, conns[i], acked, newdata, 0, reply, if newdata then seg.payload else [], acked,
                        if newdata then |seg.payload| else 0);
        packet := CallThenSend(i, acked, newdata, reply);
      }
    }

    method ProcessEstablished(i: nat, acked: bool, seg: Segment, reply: Reply) returns (packet: Option<Segment>)
      requires cfg.Ok() && i < conns.Length && SizesOk(cfg, conns[i]) && reply.Ok(cfg)
      modifies conns, this`slen
      ensures var o := InEstablished(cfg, old(conns[i]), acked, old(slen), seg, reply);
              conns[..] == old(conns[..])[i := o.conn] && slen == o.slen && packet == o.packet
    {
      hide InEstablished;
      if seg.flags.fin && !conns[i].stopped {
        packet := TakeFin(i, acked, seg, reply);
      } else {
        packet := TakeData(i, acked, seg, reply);
      }
    }

    method ProcessFinWait1(i: nat, acked: bool, seg: Segment, reply: Reply) returns (packet: Option<Segment>)
      requires cfg.Ok() && i < conns.Length
      modifies conns, this`slen
      ensures var o := InFinWait1(cfg, old(conns[i]), acked, old(slen), seg, reply);
              conns[..] == old(conns[..])[i := o.conn] && slen == o.slen && packet == o.packet
    {
      hide Add;
      hide Bare;
      AddZero(conns[i].rcvNxt);
      AddAdd(conns[i].rcvNxt, |seg.payload|, 1);
      packet := None;
      if |seg.payload| > 0 {
        conns[i] := conns[i].(rcvNxt := Add(conns[i].rcvNxt, |seg.payload|));
      }
      if seg.flags.fin {
        if acked {
          conns[i] := conns[i].(timer := 0, len := 0).Enter(TimeWait);
        } else {
          conns[i] := conns[i].Enter(Closing);
        }
        conns[i] := conns[i].(rcvNxt := Add(conns[i].rcvNxt, 1));
        Call(i, reply);
        return Bare(cfg, conns[i], ACK);
      } else if acked {
        conns[i] := conns[i].(len := 0).Enter(FinWait2);
        return;
      }
      if |seg.payload| > 0 {
        packet := Bare(cfg, conns[i], ACK);
      }
    }

    method ProcessFinWait2(i: nat, seg: Segment, reply: Reply) returns (packet: Option<Segment>)
      requires cfg.Ok() && i < conns.Length
      modifies conns, this`slen
      ensures var o := InFinWait2(cfg, old(conns[i]), false, old(slen), seg, reply);
              conns[..] == old(conns[..])[i := o.conn] && slen == o.slen && packet == o.packet
    {
      hide Add;
      hide Bare;
      AddZero(conns[i].rcvNxt);
      AddAdd(conns[i].rcvNxt, |seg.payload|, 1);
      packet := None;
      if |seg.payload| > 0 {
        conns[i] := conns[i].(rcvNxt := Add(conns[i].rcvNxt, |seg.payload|));
      }
      if seg.flags.fin {
        conns[i] := conns[i].(timer := 0).Enter(TimeWait);
        conns[i] := conns[i].(rcvNxt := Add(conns[i].rcvNxt, 1));
        Call(i, reply);
        return Bare(cfg, conns[i], ACK);
      }
      if |seg.payload| > 0 {
        packet := Bare(cfg, conns[i], ACK);
      }
    }

    // ------------------------------------------------------------ the events

    /** uip_periodic(i): uip_process(UIP_TIMER). */
    method Periodic(i: nat, reply: Reply) returns (packet: Option<Segment>)
      requires Valid() && i < conns.Length && reply.Ok(cfg)
      requires StopsInEstablished(View(), Tick(i, reply))
      modifies this, conns
      ensures Valid() && (View(), packet) == Step(cfg, old(View()), Tick(i, reply))
      ensures old(conns[i]).Live() && old(conns[i]).len > 0 && old(conns[i]).timer == 0 ==>
                W.Resent(cfg, old(conns[i]), reply, conns[i], packet)
    {
      hide W.Resent;
      if conns[i].Live() && conns[i].len > 0 && conns[i].timer == 0 { W.TickResends(cfg, View(), i, reply); }
      StepKeeps(cfg, View(), Tick(i, reply));
      iss := Add(iss, 1);
      packet := ProcessTimer(i, reply);
    }

    /** uip_poll_conn: uip_process(UIP_POLL_REQUEST). */
    method PollConnection(i: nat, reply: Reply) returns (packet: Option<Segment>)
      requires Valid() && i < conns.Length && reply.Ok(cfg)
      requires StopsInEstablished(View(), Poll(i, reply))
      modifies this, conns
      ensures Valid() && (View(), packet) == Step(cfg, old(View()), Poll(i, reply))
    {
      StepKeeps(cfg, View(), Poll(i, reply));
      if conns[i].state == Established && !conns[i].Outstanding() {
        packet := CallThenSend(i, false, false, reply);
      } else {
        packet := None;
        assert conns[..] == old(conns[..])[i := conns[i]];
      }
    }

    /** The search of the listening ports. */
    method Listening(port: u16) returns (found: bool)
      ensures found <==> port in listen[..]
    {
      found := false;
      var c := 0;
      while c < listen.Length && !found
        invariant c <= listen.Length
        invariant found ==> port in listen[..]
        invariant !found ==> forall j | 0 <= j < c :: listen[j] != port
      {
        found := listen[c] == port;
        c := c + 1;
      }
    }

    /** uip_input on a TCP packet whose checksums are right. */
    method InputSegment(seg: Segment, reply: Reply) returns (packet: Option<Segment>)
      requires Valid() && seg.Ok() && reply.Ok(cfg)
      requires StopsInEstablished(View(), Input(seg, reply))
      modifies this, conns
      ensures Valid() && (View(), packet) == Step(cfg, old(View()), Input(seg, reply))
    {
      hide Found;
      hide PassiveOpen;
      hide SynPacket;
      hide ResetFor;
      StepKeeps(cfg, View(), Input(seg, reply));
      var k := FindConnection(seg);
      if k < conns.Length {
        packet := ProcessFound(k, seg, reply);
        return;
      }
      if seg.flags != SYN {
        return ResetFor(cfg, seg);
      }
      var listening := Listening(seg.destport);
      if !listening {
        return ResetFor(cfg, seg);
      }
      var slot := FindSlot();
      if slot.None? {
        return None;
      }
      var i := slot.value;
      conns[i] := PassiveOpen(cfg, conns[i], seg, iss);
      packet := SynPacket(cfg, conns[i], SYN_ACK);
    }

    /** uip_connect: the slot opened, if there is one. */
    method ConnectTo(ripaddr: Ip, rport: u16) returns (slot: Option<nat>)
      requires Valid()
      modifies this, conns
      ensures Valid() && View() == Step(cfg, old(View()), Connect(ripaddr, rport)).0
      ensures slot == FreeSlot(old(conns[..]))
    {
      StepKeeps(cfg, View(), Connect(ripaddr, rport));
      ChoosePort();
      slot := FindSlot();
      if slot.Some? {
        var i := slot.value;
        conns[i] := ActiveOpen(cfg, conns[i], iss, lastport, ripaddr, rport);
      }
    }

    method ListenOn(port: u16)
      requires Valid()
      modifies listen
      ensures Valid() && View() == Step(cfg, old(View()), Listen(port)).0
    {
      var c := 0;
      while c < listen.Length && listen[c] != 0
        invariant c <= listen.Length
        invariant IndexOf(listen[..], 0) == IndexOf(listen[..], 0, c)
      {
        c := c + 1;
      }
      if c < listen.Length {
        listen[c] := port;
      }
    }

    method StopListening(port: u16)
      requires Valid()
      modifies listen
      ensures Valid() && View() == Step(cfg, old(View()), Unlisten(port)).0
    {
      var c := 0;
      while c < listen.Length && listen[c] != port
        invariant c <= listen.Length
        invariant IndexOf(listen[..], port) == IndexOf(listen[..], port, c)
      {
        c := c + 1;
      }
      if c < listen.Length {
        listen[c] := 0;
      }
    }
  }
}
