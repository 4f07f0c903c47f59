/**
 * The connection table as a value: demultiplexing, slot choice, port choice and the
 * effect of every event. Module TcpInvariant has the invariant of all reachable tables.
 */
module TcpTable {
  import opened Words
  import opened TcpConn

  /** uip_conns, uip_listenports, iss, lastport and uip_slen. */
  datatype Table = Table(conns: seq<Conn>, listen: seq<u16>, iss: u32, lastport: u16, slen: u16)

  datatype Event =
    | Tick(slot: nat, reply: Reply)
    | Poll(slot: nat, reply: Reply)
    | Input(seg: Segment, reply: Reply)
    | Connect(ripaddr: Ip, rport: u16)
    | Listen(port: u16)
    | Unlisten(port: u16)

  // ---------------------------------------------------------------- lookups

  predicate Matches(c: Conn, seg: Segment) {
    c.Live() && seg.destport == c.lport && seg.srcport == c.rport && seg.src == c.ripaddr
  }

  /** The first connection from `i` on that matches, or the table size. */
  function Demux(conns: seq<Conn>, seg: Segment, i: nat := 0): (r: nat)
    requires i <= |conns|
    ensures i <= r <= |conns|
    ensures r < |conns| ==> Matches(conns[r], seg)
    ensures forall k | i <= k < r :: !Matches(conns[k], seg)
    decreases |conns| - i
  {
    if i == |conns| || Matches(conns[i], seg) then i else Demux(conns, seg, i + 1)
  }

  predicate Unused(c: Conn) { c.state == Closed && !c.stopped }
  predicate Lingers(c: Conn) { c.state == TimeWait && !c.stopped }

  /** May slot `r` be overwritten by a new connection? */
  predicate Reusable(conns: seq<Conn>, r: nat) {
    && r < |conns|
    && (|| Unused(conns[r])
        || (&& Lingers(conns[r])
            && (forall k | 0 <= k < |conns| :: !Unused(conns[k]))
            && (forall k | 0 <= k < |conns| && Lingers(conns[k]) :: conns[k].timer <= conns[r].timer)))
  }

  /** The slot search from `i` on, `best` being the best TIME_WAIT slot so far. */
  function FreeSlot(conns: seq<Conn>, i: nat := 0, best: Option<nat> := None): (r: Option<nat>)
    requires i <= |conns|
    requires best.Some? ==> best.value < i
    ensures r.Some? ==> r.value < |conns|
    decreases |conns| - i
  {
    if i == |conns| then best
    else if Unused(conns[i]) then Some(i)
    else if Lingers(conns[i]) && (best.None? || conns[i].timer > conns[best.value].timer) then
      FreeSlot(conns, i + 1, Some(i))
    else FreeSlot(conns, i + 1, best)
  }

  /** What the search has established before looking at slot `i`. */
  predicate Searched(conns: seq<Conn>, i: nat, best: Option<nat>) {
    && i <= |conns|
    && (best.Some? ==> best.value < i && Lingers(conns[best.value]))
    && (forall k | 0 <= k < i :: !Unused(conns[k]))
    && (forall k | 0 <= k < i && Lingers(conns[k]) :: best.Some? && conns[k].timer <= conns[best.value].timer)
  }

  /** A closed slot is preferred; otherwise the oldest lingering one; otherwise none. */
  lemma {:induction false} FreeSlotMeaning(conns: seq<Conn>, i: nat, best: Option<nat>)
    requires Searched(conns, i, best)
    ensures var r := FreeSlot(conns, i, best);
            && (r.Some? ==> Reusable(conns, r.value))
            && (r.None? <==> forall k | 0 <= k < |conns| :: !Unused(conns[k]) && !Lingers(conns[k]))
            && (r.Some? && Unused(conns[r.value]) ==> forall k | 0 <= k < r.value :: !Unused(conns[k]))
    decreases |conns| - i
  {
    if i < |conns| && !Unused(conns[i]) {
      if Lingers(conns[i]) && (best.None? || conns[i].timer > conns[best.value].timer) {
        FreeSlotMeaning(conns, i + 1, Some(i));
      } else {
        FreeSlotMeaning(conns, i + 1, best);
      }
    } else if i == |conns| && best.Some? {
      assert Lingers(conns[best.value]);
    }
  }

  predicate PortInUse(conns: seq<Conn>, port: u16) {
    exists k | 0 <= k < |conns| :: conns[k].Live() && conns[k].lport == Htons(port)
  }

  /** The candidate after `last`: 4096 follows 31999. */
  function NextPort(last: u16): (r: u16) {
    var p: u16 := (last + 1) % 0x1_0000;
    if p >= 32000 then 4096 else p
  }

  /** The first free candidate after `last` among the next `tries` ones. */
  function PortSearch(conns: seq<Conn>, last: u16, tries: nat): (r: Option<u16>)
    ensures r.Some? ==> !PortInUse(conns, r.value)
    decreases tries
  {
    if tries == 0 then None
    else
      var p := NextPort(last);
      if PortInUse(conns, p) then PortSearch(conns, p, tries - 1) else Some(p)
  }

  /** The candidate reached from `last` in `k` steps. */
  function Candidate(last: u16, k: nat): u16
    decreases k
  {
    if k == 0 then last else NextPort(Candidate(last, k - 1))
  }

  /** Position of the k-th candidate on the line that wraps at 32000. */
  lemma {:induction false} CandidateFormula(last: u16, k: nat)
    requires last < 32000 && k < 27904
    ensures Candidate(last, k) as int ==
            if last + k < 32000 then last + k else last + k - 27904
  {
    if k > 0 {
      CandidateFormula(last, k - 1);
    }
  }

  lemma CandidatesDistinct(last: u16, j: nat, k: nat)
    requires last < 32000 && 1 <= j < k < 27904
    ensures Candidate(last, j) != Candidate(last, k)
  {
    CandidateFormula(last, j);
    CandidateFormula(last, k);
  }

  /** The port chosen is the first candidate that no live connection uses. */
  lemma {:induction false} FirstPort(conns: seq<Conn>, last: u16, from: nat, tries: nat) returns (k: nat)
    requires PortSearch(conns, Candidate(last, from), tries).Some?
    ensures from < k <= from + tries && PortSearch(conns, Candidate(last, from), tries) == Some(Candidate(last, k))
    ensures !PortInUse(conns, Candidate(last, k)) && forall j | from < j < k :: PortInUse(conns, Candidate(last, j))
    decreases tries
  {
    hide PortInUse;
    assert NextPort(Candidate(last, from)) == Candidate(last, from + 1);
    if PortInUse(conns, Candidate(last, from + 1)) {
      k := FirstPort(conns, last, from + 1, tries - 1);
    } else {
      k := from + 1;
    }
  }

  /** While every candidate is taken the search has taken that many steps. */
  lemma {:induction false} SearchFailed(conns: seq<Conn>, last: u16, from: nat, tries: nat, k: nat)
    requires PortSearch(conns, Candidate(last, from), tries).None?
    requires from < k <= from + tries
    ensures PortInUse(conns, Candidate(last, k))
    decreases tries
  {
    assert NextPort(Candidate(last, from)) == Candidate(last, from + 1);
    if k > from + 1 {
      SearchFailed(conns, last, from + 1, tries - 1, k);
    }
  }

  /** A slot that uses the j-th candidate. */
  ghost function UserOf(conns: seq<Conn>, last: u16, j: nat): (s: nat)
    requires PortInUse(conns, Candidate(last, j))
    ensures s < |conns| && conns[s].Live() && conns[s].lport == Htons(Candidate(last, j))
  {
    var s :| 0 <= s < |conns| && conns[s].Live() && conns[s].lport == Htons(Candidate(last, j));
    s
  }

  /** Pigeonhole: `n` slots cannot use `n + 1` different candidates. */
  lemma {:induction false} Pigeonhole(users: seq<nat>, n: nat)
    requires forall j | 0 <= j < |users| :: users[j] < n
    requires forall j, k | 0 <= j < k < |users| :: users[j] != users[k]
    ensures |users| <= n
    decreases n
  {
    if users != [] {
      var last := users[|users| - 1];
      if j :| 0 <= j < |users| && users[j] == n - 1 {
        var rest := users[..j] + users[j + 1..];
        forall a | 0 <= a < |rest| ensures rest[a] < n - 1 {
          assert rest[a] == users[if a < j then a else a + 1];
        }
        Pigeonhole(rest, n - 1);
      } else {
        Pigeonhole(users, n - 1);
      }
    }
  }

  lemma UsersDistinct(conns: seq<Conn>, last: u16, j: nat, k: nat)
    requires last < 32000 && 1 <= j < k < 27904
    requires PortInUse(conns, Candidate(last, j)) && PortInUse(conns, Candidate(last, k))
    ensures UserOf(conns, last, j) != UserOf(conns, last, k)
  {
    hide Candidate;
    hide Htons;
    CandidatesDistinct(last, j, k);
    if UserOf(conns, last, j) == UserOf(conns, last, k) {
      HtonsInjective(Candidate(last, j), Candidate(last, k));
    }
  }

  lemma StartsAtLast(last: u16)
    ensures Candidate(last, 0) == last
  {
  }

  /** Port choice: among UIP_CONNS + 1 candidates one is unused. */
  lemma PortFound(conns: seq<Conn>, last: u16)
    requires |conns| < 256 && last < 32000
    ensures PortSearch(conns, last, |conns| + 1).Some?
    ensures var p := PortSearch(conns, last, |conns| + 1).value; p < 32000 && !PortInUse(conns, p)
  {
    hide PortSearch;
    hide PortInUse;
    hide Candidate;
    hide UserOf;
    var n := |conns|;
    if PortSearch(conns, last, n + 1).None? {
      StartsAtLast(last);
      forall k | 0 < k <= n + 1 ensures PortInUse(conns, Candidate(last, k)) {
        SearchFailed(conns, last, 0, n + 1, k);
      }
      var users := seq(n + 1, j requires 0 <= j < n + 1 => UserOf(conns, last, j + 1));
      forall j, k | 0 <= j < k < n + 1 ensures users[j] != users[k] {
        UsersDistinct(conns, last, j + 1, k + 1);
      }
      Pigeonhole(users, n);
    }
    PortRange(conns, last, n + 1);
  }

  lemma {:induction false} PortRange(conns: seq<Conn>, last: u16, tries: nat)
    ensures var r := PortSearch(conns, last, tries); r.Some? ==> r.value < 32000
    decreases tries
  {
    if tries > 0 { PortRange(conns, NextPort(last), tries - 1); }
  }

  // ---------------------------------------------------------------- events

  /** A fresh slot: all fields start at zero. */
  const EMPTY: Conn := Conn(Ip(0, 0), 0, 0, 0, 0, 0, 0, 0, 0, 0, 0, Closed, false, 0, 0)

  function Init(conns: nat, listens: nat, iss: u32): Table {
    Table(seq(conns, _ => EMPTY), seq(listens, _ => 0), iss, 1024, 0)
  }

  /** found_listen: the fields of a connection opened by a SYN; mss survives without an option. */
  function PassiveOpen(cfg: Config, c: Conn, seg: Segment, iss: u32): Conn
    requires cfg.Ok()
  {
    TakeMssOption(cfg,
      c.(rto := UIP_RTO, timer := UIP_RTO, sa := 0, sv := 4, nrtx := 0,
         lport := seg.destport, rport := seg.srcport, ripaddr := seg.src,
         sndNxt := iss, len := 1, rcvNxt := Add(seg.seqno, 1)).Enter(SynRcvd), seg)
  }

  /** uip_connect: the fields of a connection opened by this host. */
  function ActiveOpen(cfg: Config, c: Conn, iss: u32, port: u16, ripaddr: Ip, rport: u16): Conn
    requires cfg.Ok()
  {
    c.(sndNxt := iss, initialmss := cfg.Mss(), mss := cfg.Mss(), len := 1, nrtx := 0, timer := 1,
       rto := UIP_RTO, sa := 0, sv := 16, lport := Htons(port), rport := rport, ripaddr := ripaddr).Enter(SynSent)
  }

  predicate EventOk(cfg: Config, t: Table, e: Event)
    requires cfg.Ok()
  {
    match e
    case Tick(i, reply) => i < |t.conns| && reply.Ok(cfg)
    case Poll(i, reply) => i < |t.conns| && reply.Ok(cfg)
    case Input(seg, reply) => seg.Ok() && reply.Ok(cfg)
    case _ => true
  }

  /** The state the application sees in its callback for this event. */
  function CallbackState(c: Conn, seg: Segment): State {
    if seg.flags.rst then Closed
    else match c.state
      case SynRcvd => Established
      case SynSent => if Acks(c, seg) && seg.flags == SYN_ACK then Established else SynSent
      case s => s
  }

  /** The application calls uip_stop only while the connection is ESTABLISHED. */
  predicate StopsInEstablished(t: Table, e: Event) {
    match e
    case Tick(i, reply) =>
      i < |t.conns| && reply.op == Stop ==> t.conns[i].state == Established && !GivesUp(t.conns[i])
    case Poll(i, reply) => i < |t.conns| && reply.op == Stop ==> t.conns[i].state == Established
    case Input(seg, reply) =>
      reply.op == Stop ==>
        var k := Demux(t.conns, seg);
        k < |t.conns| ==> CallbackState(t.conns[k], seg) == Established
    case _ => true
  }

  predicate TableShape(cfg: Config, t: Table)
    requires cfg.Ok()
  {
    && |t.conns| < 256 && |t.listen| < 256 && t.lastport < 32000
    && forall i | 0 <= i < |t.conns| :: SizesOk(cfg, t.conns[i])
  }

  /** uip_process and its companions on the whole table, with the packet sent. */
  function Step(cfg: Config, t: Table, e: Event): (Table, Option<Segment>)
    requires cfg.Ok() && TableShape(cfg, t) && EventOk(cfg, t, e)
  {
    match e
    case Tick(i, reply) =>
      var o := Timer(cfg, t.conns[i], reply);
      (t.(conns := t.conns[i := o.conn], slen := o.slen, iss := Add(t.iss, 1)), o.packet)
    case Poll(i, reply) =>
      var o := PollRequest(cfg, t.conns[i], t.slen, reply);
      (t.(conns := t.conns[i := o.conn], slen := o.slen), o.packet)
    case Input(seg, reply) => OnInput(cfg, t, seg, reply)
    case Connect(ripaddr, rport) =>
      PortFound(t.conns, t.lastport);
      var port := PortSearch(t.conns, t.lastport, |t.conns| + 1).value;
      var slot := FreeSlot(t.conns);
      var t1 := t.(lastport := port);
      (match slot
       case None => t1
       case Some(i) => t1.(conns := t.conns[i := ActiveOpen(cfg, t.conns[i], t.iss, port, ripaddr, rport)]),
       None)
    case Listen(port) =>
      var k := IndexOf(t.listen, 0);
      (if k < |t.listen| then t.(listen := t.listen[k := port]) else t, None)
    case Unlisten(port) =>
      var k := IndexOf(t.listen, port);
      (if k < |t.listen| then t.(listen := t.listen[k := 0]) else t, None)
  }

  /** The first index from `i` on that holds `v`, or the length. */
  function IndexOf(s: seq<u16>, v: u16, i: nat := 0): (r: nat)
    requires i <= |s|
    ensures i <= r <= |s|
    ensures r < |s| ==> s[r] == v
    ensures forall k | i <= k < r :: s[k] != v
    decreases |s| - i
  {
    if i == |s| || s[i] == v then i else IndexOf(s, v, i + 1)
  }

  function OnInput(cfg: Config, t: Table, seg: Segment, reply: Reply): (Table, Option<Segment>)
    requires cfg.Ok() && TableShape(cfg, t) && seg.Ok() && reply.Ok(cfg)
  {
    var k := Demux(t.conns, seg);
    if k < |t.conns| then
      var o := Found(cfg, t.conns[k], t.slen, seg, reply);
      (t.(conns := t.conns[k := o.conn], slen := o.slen), o.packet)
    else if seg.flags != SYN || seg.destport !in t.listen then (t, ResetFor(cfg, seg))
    else match FreeSlot(t.conns)
      case None => (t, None)
      case Some(i) =>
        var c := PassiveOpen(cfg, t.conns[i], seg, t.iss);
        (t.(conns := t.conns[i := c]), SynPacket(cfg, c, SYN_ACK))
  }

  // ---------------------------------------------------------------- one slot

  /** Is this event processed on slot `i`? */
  predicate Touches(t: Table, e: Event, i: nat) {
    match e
    case Tick(k, _) => k == i
    case Poll(k, _) => k == i
    case Input(seg, _) => i < |t.conns| && Demux(t.conns, seg) == i
    case _ => false
  }

  /** Does this event put a new connection into slot `i`? */
  predicate Reopens(t: Table, e: Event, i: nat) {
    && FreeSlot(t.conns) == Some(i)
    && (|| e.Connect?
        || (e.Input? && Demux(t.conns, e.seg) == |t.conns| && e.seg.flags == SYN && e.seg.destport in t.listen))
  }

  /** Every other event leaves the slot alone. */
  lemma SlotUntouched(cfg: Config, t: Table, e: Event, i: nat)
    requires cfg.Ok() && TableShape(cfg, t) && EventOk(cfg, t, e) && i < |t.conns|
    ensures |Step(cfg, t, e).0.conns| == |t.conns|
    ensures !Touches(t, e, i) && !Reopens(t, e, i) ==> Step(cfg, t, e).0.conns[i] == t.conns[i]
  {
    hide Timer;
    hide PollRequest;
    hide Found;
    hide PassiveOpen;
    hide ActiveOpen;
  }
}
