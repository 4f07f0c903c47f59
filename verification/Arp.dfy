/** The ARP table (uip_arp.c): what it remembers, and where outgoing datagrams are sent. */
module Arp {
  import opened Words

  type Mac = s: seq<u8> | |s| == 6 witness [0, 0, 0, 0, 0, 0]

  const MAX_AGE: int := 120
  const ARP_LEN: nat := 42
  const REQUEST: u16 := 1
  const REPLY: u16 := 2
  const ALL_HOSTS: Ip := Ip(0xffff, 0xffff)
  const NO_IP: Ip := Ip(0, 0)
  const ALL_MACS: Mac := [0xff, 0xff, 0xff, 0xff, 0xff, 0xff]
  const NO_MAC: Mac := [0, 0, 0, 0, 0, 0]

  datatype Entry = Entry(ip: Ip, mac: Mac, time: u8)

  /** Addresses that uip_arp_update recognises in the table. */
  predicate Usable(ip: Ip) { ip.hi != 0 && ip.lo != 0 }

  // ---------------------------------------------------------------- uip_arp_update and uip_arp_timer

  function MatchFrom(t: seq<Entry>, ip: Ip, i: nat := 0): (r: nat)
    requires i <= |t|
    ensures i <= r <= |t|
    ensures r < |t| ==> Usable(ip) && t[r].ip == ip
    ensures forall k | i <= k < r :: !(Usable(t[k].ip) && t[k].ip == ip)
    decreases |t| - i
  {
    if i == |t| || (Usable(t[i].ip) && t[i].ip == ip) then i else MatchFrom(t, ip, i + 1)
  }

  /** The first entry from `i` on with address `ip`. */
  function Lookup(t: seq<Entry>, ip: Ip, i: nat := 0): (r: nat)
    requires i <= |t|
    ensures i <= r <= |t|
    ensures r < |t| ==> t[r].ip == ip
    ensures forall k | i <= k < r :: t[k].ip != ip
    decreases |t| - i
  {
    if i == |t| || t[i].ip == ip then i else Lookup(t, ip, i + 1)
  }

  /** The search for the oldest entry; the difference of times is taken as an int. */
  function OldestFrom(t: seq<Entry>, now: u8, i: nat, age: u8, c: nat): (r: nat)
    requires i <= |t| && c < |t|
    ensures r < |t|
    decreases |t| - i
  {
    if i == |t| then c
    else if now - t[i].time > age then OldestFrom(t, now, i + 1, now - t[i].time, i)
    else OldestFrom(t, now, i + 1, age, c)
  }

  /** The entry that uip_arp_update writes: a match, else an unused one, else the oldest. */
  function Slot(t: seq<Entry>, now: u8, ip: Ip): (r: nat)
    requires t != []
    ensures r < |t|
  {
    if MatchFrom(t, ip) < |t| then MatchFrom(t, ip)
    else if Lookup(t, NO_IP) < |t| then Lookup(t, NO_IP)
    else OldestFrom(t, now, 0, 0, 0)
  }

  function Updated(t: seq<Entry>, now: u8, ip: Ip, mac: Mac): seq<Entry>
    requires t != []
  {
    t[Slot(t, now, ip) := Entry(ip, mac, now)]
  }

  function Aged(t: seq<Entry>, now: u8): (r: seq<Entry>)
    ensures |r| == |t|
  {
    seq(|t|, k requires 0 <= k < |t| =>
      if t[k].ip != NO_IP && now - t[k].time >= MAX_AGE then t[k].(ip := NO_IP) else t[k])
  }

  // ---------------------------------------------------------------- runs

  datatype Op = Learn(ip: Ip, mac: Mac) | Age

  datatype Table = Table(entries: seq<Entry>, now: u8)

  function Run(start: Table, ops: seq<Op>): (r: Table)
    requires start.entries != []
    ensures |r.entries| == |start.entries|
    decreases |ops|
  {
    if ops == [] then start
    else
      var n := |ops| - 1;
      var t := Run(start, ops[..n]);
      match ops[n]
      case Learn(ip, mac) => t.(entries := Updated(t.entries, t.now, ip, mac))
      case Age => var now := (t.now + 1) % 0x100; Table(Aged(t.entries, now), now)
  }

  /** The address most recently reported for `ip`. */
  function LastMac(ops: seq<Op>, ip: Ip): Option<Mac>
    decreases |ops|
  {
    if ops == [] then None
    else
      var n := |ops| - 1;
      if ops[n].Learn? && ops[n].ip == ip then Some(ops[n].mac) else LastMac(ops[..n], ip)
  }

  /** No recognisable address has two entries. */
  predicate Unique(t: seq<Entry>) {
    forall j, k | 0 <= j < k < |t| && Usable(t[j].ip) :: t[j].ip != t[k].ip
  }

  /** Every entry with a recognisable address holds what was last reported for it. */
  predicate UpToDate(t: seq<Entry>, ops: seq<Op>) {
    forall k | 0 <= k < |t| && Usable(t[k].ip) :: LastMac(ops, t[k].ip) == Some(t[k].mac)
  }

  /** Every entry in use holds something that was reported. */
  predicate Reported(t: seq<Entry>, ops: seq<Op>) {
    forall k | 0 <= k < |t| && t[k].ip != NO_IP :: Learn(t[k].ip, t[k].mac) in ops
  }

  /**
   * Whatever is learnt, evicted or expired: no recognisable address has two entries, and
   * every entry for one carries the latest hardware address reported for it.
   */
  lemma {:induction false} RunUpToDate(start: Table, ops: seq<Op>)
    requires start.entries != [] && forall k | 0 <= k < |start.entries| :: start.entries[k].ip == NO_IP
    ensures var t := Run(start, ops).entries; Unique(t) && UpToDate(t, ops) && Reported(t, ops)
    decreases |ops|
  {
    if ops != [] {
      var n := |ops| - 1;
      RunUpToDate(start, ops[..n]);
      var t, r := Run(start, ops[..n]), Run(start, ops);
      assert ops == ops[..n] + [ops[n]];
      if ops[n].Learn? {
        UpdateKeeps(t.entries, t.now, ops, n);
      } else {
        forall k | 0 <= k < |t.entries| && r.entries[k].ip != NO_IP
          ensures r.entries[k] == t.entries[k] && LastMac(ops, t.entries[k].ip) == LastMac(ops[..n], t.entries[k].ip)
        {
        }
      }
    }
  }

  lemma UpdateKeeps(t: seq<Entry>, now: u8, ops: seq<Op>, n: nat)
    requires t != [] && n < |ops| && n == |ops| - 1 && ops[n].Learn?
    requires Unique(t) && UpToDate(t, ops[..n]) && Reported(t, ops[..n])
    ensures var u := Updated(t, now, ops[n].ip, ops[n].mac); Unique(u) && UpToDate(u, ops) && Reported(u, ops)
  {
    var ip := ops[n].ip;
    var s, u := Slot(t, now, ip), Updated(t, now, ip, ops[n].mac);
    assert forall k | 0 <= k < |t| && k != s :: u[k] == t[k];
    assert ops == ops[..n] + [ops[n]];
    forall k | 0 <= k < |t| && Usable(ip) && t[k].ip == ip ensures k == s {
      assert MatchFrom(t, ip) <= k;
    }
    forall k | 0 <= k < |t| && Usable(u[k].ip) ensures LastMac(ops, u[k].ip) == Some(u[k].mac) {
      if k != s {
        assert u[k].ip != ip;
        assert LastMac(ops, u[k].ip) == LastMac(ops[..n], u[k].ip);
      }
    }
  }

  // ---------------------------------------------------------------- ages

  /** The number of timer calls in a run. */
  function Ticks(ops: seq<Op>): nat
    decreases |ops|
  {
    if ops == [] then 0 else Ticks(ops[..|ops| - 1]) + (if ops[|ops| - 1].Age? then 1 else 0)
  }

  /** No update in the run writes entry `i`. */
  ghost predicate LeftAlone(start: Table, ops: seq<Op>, i: nat)
    requires start.entries != []
  {
    forall n | 0 <= n < |ops| && ops[n].Learn? :: var t := Run(start, ops[..n]); Slot(t.entries, t.now, ops[n].ip) != i
  }

  /**
   * The times are subtracted as ints. An entry that is not written again expires with the 120th
   * timer call if it was written while arptime was at most 135, and otherwise never.
   */
  lemma {:induction false} ExpiresExactly(start: Table, ops: seq<Op>, i: nat)
    requires i < |start.entries| && start.entries[i].ip != NO_IP && start.entries[i].time == start.now
    requires LeftAlone(start, ops, i)
    ensures var t, e := Run(start, ops), start.entries[i];
            && t.now as int == (start.now + Ticks(ops)) % 0x100
            && t.entries[i] == if start.now <= 135 && Ticks(ops) >= 120 then e.(ip := NO_IP) else e
    decreases |ops|
  {
    hide Slot;
    hide Aged;
    if ops != [] {
      var n := |ops| - 1;
      forall m | 0 <= m < n && ops[..n][m].Learn?
        ensures var t := Run(start, ops[..n][..m]); Slot(t.entries, t.now, ops[..n][m].ip) != i
      {
        assert ops[..n][..m] == ops[..m];
      }
      ExpiresExactly(start, ops[..n], i);
      var t := Run(start, ops[..n]);
      AgedStep(t.entries, start.entries[i], start.now, Ticks(ops[..n]), i);
    }
  }

  /** One timer call. */
  lemma AgedStep(t: seq<Entry>, e: Entry, s: u8, k: nat, i: nat)
    requires i < |t| && e.ip != NO_IP && e.time == s && t[i] == if s <= 135 && k >= 120 then e.(ip := NO_IP) else e
    ensures var now := ((s + k) % 0x100 + 1) % 0x100;
            now == (s + k + 1) % 0x100 && Aged(t, now)[i] == if s <= 135 && k + 1 >= 120 then e.(ip := NO_IP) else e
  {
    TickWraps(s, k);
  }

  lemma TickWraps(t: u8, k: nat)
    ensures ((t + k) % 0x100 + 1) % 0x100 == (t + k + 1) % 0x100
    ensures t <= 135 && k < 120 ==> (t + k + 1) % 0x100 == t + k + 1
    ensures (t + k) % 0x100 < 0x100
  {
    var n := t + k;
    var q, r := n / 0x100, n % 0x100;
    assert n == q * 0x100 + r;
    Wraps8(r + 1);
    if r == 0xff { QuotientUnique(n + 1, 0x100, q + 1, 0); } else { QuotientUnique(n + 1, 0x100, q, r + 1); }
    if n + 1 < 0x100 { QuotientUnique(n + 1, 0x100, 0, n + 1); }
  }

  /** How long ago an entry was written, if that is less than 256 timer calls. */
  function AgeOf(e: Entry, now: u8): nat { (now - e.time) % 0x100 }

  /** The entry evicted: the first with the greatest positive difference, or the first of all if none is positive. */
  lemma {:induction false} OldestMeaning(t: seq<Entry>, now: u8, i: nat, age: u8, c: nat)
    requires i <= |t| && c < |t| && c <= i
    requires forall k | 0 <= k < i :: now - t[k].time <= age
    requires if age == 0 then c == 0 else c < i && now - t[c].time == age && forall k | 0 <= k < c :: now - t[k].time < age
    ensures var r := OldestFrom(t, now, i, age, c);
            || (r == 0 && forall k | 0 <= k < |t| :: now - t[k].time <= 0)
            || (&& now - t[r].time > 0 && (forall k | 0 <= k < |t| :: now - t[k].time <= now - t[r].time)
                && (forall k | 0 <= k < r :: now - t[k].time < now - t[r].time))
    decreases |t| - i
  {
    if i < |t| {
      if now - t[i].time > age {
        OldestMeaning(t, now, i + 1, now - t[i].time, i);
      } else {
        OldestMeaning(t, now, i + 1, age, c);
      }
    }
  }

  /**
   * Among entries younger than 256 timer calls the one evicted is an oldest one exactly if arptime has not
   * wrapped since any of them was written, or if it has since all that were not written just now and the
   * first is an oldest one.
   */
  lemma EvictsOldestExactly(t: seq<Entry>, now: u8)
    requires t != []
    ensures var r := OldestFrom(t, now, 0, 0, 0);
            (forall k | 0 <= k < |t| :: AgeOf(t[k], now) <= AgeOf(t[r], now)) <==>
              || (forall k | 0 <= k < |t| :: t[k].time <= now)
              || ((forall k | 0 <= k < |t| :: t[k].time >= now) && forall k | 0 <= k < |t| :: AgeOf(t[k], now) <= AgeOf(t[0], now))
  {
    hide AgeOf;
    OldestMeaning(t, now, 0, 0, 0);
    forall k | 0 <= k < |t| ensures AgeOf(t[k], now) as int == if t[k].time <= now then now - t[k].time else now - t[k].time + 0x100 {
      AgeIs(t[k], now);
    }
  }

  lemma AgeIs(e: Entry, now: u8)
    ensures AgeOf(e, now) as int == if e.time <= now then now - e.time else now - e.time + 0x100
  {
  }

  /** The slot written: an entry for the address, else the first unused one, else the one evicted. */
  lemma SlotMeaning(t: seq<Entry>, now: u8, ip: Ip)
    requires t != []
    ensures var s := Slot(t, now, ip);
            if exists k :: 0 <= k < |t| && t[k].ip == ip && ip.hi != 0 && ip.lo != 0 then
              t[s].ip == ip && forall k | 0 <= k < s :: t[k].ip != ip
            else if exists k :: 0 <= k < |t| && t[k].ip == Ip(0, 0) then
              t[s].ip == Ip(0, 0) && forall k | 0 <= k < s :: t[k].ip != Ip(0, 0)
            else s == OldestFrom(t, now, 0, 0, 0)
  {
    var m, u := MatchFrom(t, ip), Lookup(t, NO_IP);
  }

  // ---------------------------------------------------------------- repeated addresses

  ghost predicate AtMostOne(t: seq<Entry>, ip: Ip) {
    ip != NO_IP ==> forall j, k | 0 <= j < k < |t| :: !(t[j].ip == ip && t[k].ip == ip)
  }

  /** Updates for `ip` never make a second entry for it. */
  ghost predicate NeverRepeats(ip: Ip) {
    forall t: seq<Entry>, now: u8, mac: Mac :: t != [] && AtMostOne(t, ip) ==> AtMostOne(Updated(t, now, ip, mac), ip)
  }

  /** An address with exactly one zero half is not recognised and can be entered again. */
  lemma RepeatsExactlyWhen(ip: Ip)
    ensures NeverRepeats(ip) <==> Usable(ip) || ip == NO_IP
  {
    if Usable(ip) {
      forall t: seq<Entry>, now: u8, mac: Mac | t != [] && AtMostOne(t, ip)
        ensures AtMostOne(Updated(t, now, ip, mac), ip)
      {
        var s, u := Slot(t, now, ip), Updated(t, now, ip, mac);
        assert forall k | 0 <= k < |t| && k != s :: u[k] == t[k];
        forall k | 0 <= k < |t| && t[k].ip == ip ensures k == s {
          assert MatchFrom(t, ip) <= k;
        }
      }
    } else if ip != NO_IP {
      var t := [Entry(ip, NO_MAC, 0), Entry(NO_IP, NO_MAC, 0)];
      assert AtMostOne(t, ip);
      assert MatchFrom(t, ip) == 2;
      assert Lookup(t, NO_IP) == 1;
      var u := Updated(t, 0, ip, NO_MAC);
      assert u[0].ip == ip && u[1].ip == ip;
      assert !AtMostOne(u, ip);
    }
  }

  // ---------------------------------------------------------------- uip_arp_out, uip_arp_arpin, uip_arp_ipin

  datatype Host = Host(ip: Ip, mask: Ip, router: Ip, mac: Mac)

  datatype Packet = Packet(ethDest: Mac, ethSrc: Mac, opcode: u16, senderMac: Mac, senderIp: Ip, targetMac: Mac, targetIp: Ip)

  /** A frame on the wire: an IP datagram with its Ethernet header, or an ARP packet. */
  datatype Frame = Datagram(dest: Mac, src: Mac) | Resolve(packet: Packet)

  /** uip_ipaddr_maskcmp with the host's own address. */
  predicate Local(h: Host, ip: Ip) {
    And(ip.hi, h.mask.hi) == And(h.ip.hi, h.mask.hi) && And(ip.lo, h.mask.lo) == And(h.ip.lo, h.mask.lo)
  }

  function NextHop(h: Host, dest: Ip): Ip { if Local(h, dest) then dest else h.router }

  function Request(h: Host, target: Ip): Packet {
    Packet(ALL_MACS, h.mac, REQUEST, h.mac, h.ip, NO_MAC, target)
  }

  function FrameFor(t: seq<Entry>, h: Host, dest: Ip): Frame {
    var k := Lookup(t, NextHop(h, dest));
    if dest == ALL_HOSTS then Datagram(ALL_MACS, h.mac)
    else if k < |t| then Datagram(t[k].mac, h.mac)
    else Resolve(Request(h, NextHop(h, dest)))
  }

  predicate Addressed(h: Host, p: Packet) { (p.opcode == REQUEST || p.opcode == REPLY) && p.targetIp == h.ip }

  function AfterArp(t: seq<Entry>, now: u8, h: Host, p: Packet): seq<Entry>
    requires t != []
  {
    if Addressed(h, p) then Updated(t, now, p.senderIp, p.senderMac) else t
  }

  function ReplyTo(h: Host, p: Packet): Option<Packet> {
    if Addressed(h, p) && p.opcode == REQUEST then
      Some(Packet(p.senderMac, h.mac, REPLY, h.mac, h.ip, p.senderMac, p.senderIp))
    else None
  }

  /**
   * What uip_arp_out sends after any run: to the address last reported for a recognisable
   * next hop, for other hops to some address reported for them, and for a hop that is not
   * set to whatever an unused entry holds; or a request if no entry has the hop.
   */
  lemma OutMeaning(start: Table, ops: seq<Op>, h: Host, dest: Ip)
    requires start.entries != [] && forall k | 0 <= k < |start.entries| :: start.entries[k].ip == NO_IP
    ensures var t := Run(start, ops).entries;
            // the destination itself if it lies in the host's network, else the router
            var near := And(dest.hi, h.mask.hi) == And(h.ip.hi, h.mask.hi) && And(dest.lo, h.mask.lo) == And(h.ip.lo, h.mask.lo);
            var hop := if near then dest else h.router;
            match FrameFor(t, h, dest)
            case Datagram(to, src) => src == h.mac &&
              if dest == Ip(0xffff, 0xffff) then to == [0xff, 0xff, 0xff, 0xff, 0xff, 0xff]
              else if hop == NO_IP then exists k | 0 <= k < |t| :: t[k].ip == NO_IP && t[k].mac == to
              else if Usable(hop) then LastMac(ops, hop) == Some(to)
              else Learn(hop, to) in ops
            case Resolve(p) =>
              && dest != Ip(0xffff, 0xffff) && p.targetIp == hop && (forall k | 0 <= k < |t| :: t[k].ip != hop)
              && p.opcode == 1 && p.ethDest == ALL_MACS && p.ethSrc == p.senderMac == h.mac && p.senderIp == h.ip
  {
    hide And;
    RunUpToDate(start, ops);
  }

  /** An address just learnt is found, with the address just reported. */
  lemma LearntIsFound(t: seq<Entry>, now: u8, ip: Ip, mac: Mac)
    requires t != [] && Usable(ip)
    ensures var u := Updated(t, now, ip, mac);
            Lookup(u, ip) < |u| && u[Lookup(u, ip)].mac == mac
  {
    var u, s := Updated(t, now, ip, mac), Slot(t, now, ip);
    assert u[s].ip == ip;
    assert forall k | 0 <= k < |t| && t[k].ip == ip :: MatchFrom(t, ip) <= k;
  }

  /**
   * Address resolution: a request that `a` sends for `b` is answered by `b`, the answer
   * goes to `a`, and from then on each sends datagrams for the other to the right card.
   */
  lemma Resolves(ta: seq<Entry>, tb: seq<Entry>, nowA: u8, nowB: u8, a: Host, b: Host, dest: Ip)
    requires ta != [] && tb != [] && Usable(a.ip) && Usable(b.ip)
    requires NextHop(a, dest) == b.ip && FrameFor(ta, a, dest).Resolve?
    ensures var q := FrameFor(ta, a, dest).packet;
            && ReplyTo(b, q).Some? && ReplyTo(b, q).value.ethDest == a.mac
            && FrameFor(AfterArp(ta, nowA, a, ReplyTo(b, q).value), a, dest) == Datagram(b.mac, a.mac)
            && (forall back | NextHop(b, back) == a.ip && back != ALL_HOSTS ::
                  FrameFor(AfterArp(tb, nowB, b, q), b, back) == Datagram(a.mac, b.mac))
            && ReplyTo(a, ReplyTo(b, q).value).None?
  {
    hide Updated;
    hide Local;
    LearntIsFound(ta, nowA, b.ip, b.mac);
    LearntIsFound(tb, nowB, a.ip, a.mac);
  }

  // ---------------------------------------------------------------- the table in place

  class ArpTable {
    const table: array<Entry>
    var now: u8

    constructor (size: u8)
      requires size > 0
      ensures table.Length == size as int && fresh(table)
      ensures forall k | 0 <= k < table.Length :: table[k].ip == NO_IP
    {
      table := new Entry[size](_ => Entry(NO_IP, NO_MAC, 0));
      now := 0;
    }

    /** uip_arp_update. */
    method Update(ip: Ip, mac: Mac)
      requires 0 < table.Length
      modifies table
      ensures table[..] == Updated(old(table[..]), now, ip, mac)
    {
      ghost var t := table[..];
      var i := 0;
      while i < table.Length
        invariant 0 <= i <= table.Length && table[..] == t
        invariant MatchFrom(t, ip, 0) == MatchFrom(t, ip, i)
      {
        if table[i].ip.hi != 0 && table[i].ip.lo != 0 {
          if ip.hi == table[i].ip.hi && ip.lo == table[i].ip.lo {
            table[i] := table[i].(mac := mac, time := now);
            return;
          }
        }
        i := i + 1;
      }
      i := 0;
      while i < table.Length
        invariant 0 <= i <= table.Length && table[..] == t
        invariant Lookup(t, NO_IP, 0) == Lookup(t, NO_IP, i)
      {
        if table[i].ip.hi == 0 && table[i].ip.lo == 0 {
          break;
        }
        i := i + 1;
      }
      if i == table.Length {
        i := Oldest();
      }
      table[i] := Entry(ip, mac, now);
    }

    /** The loop over all ages in uip_arp_update. */
    method Oldest() returns (c: nat)
      requires 0 < table.Length
      ensures c == OldestFrom(table[..], now, 0, 0, 0)
      ensures c < table.Length
    {
      var age: u8, i := 0, 0;
      c := 0;
      while i < table.Length
        invariant 0 <= i <= table.Length && c < table.Length
        invariant OldestFrom(table[..], now, i, age, c) == OldestFrom(table[..], now, 0, 0, 0)
      {
        if now - table[i].time > age {
          age := now - table[i].time;
          c := i;
        }
        i := i + 1;
      }
    }

    /** uip_arp_timer. */
    method Timer()
      modifies this, table
      ensures now == (old(now) + 1) % 0x100 && table[..] == Aged(old(table[..]), now)
    {
      now := (now + 1) % 0x100;
      ghost var aged := Aged(table[..], now);
      var i := 0;
      while i < table.Length
        modifies table
        invariant 0 <= i <= table.Length
        invariant forall k | 0 <= k < i :: table[k] == aged[k]
        invariant forall k | i <= k < table.Length :: table[k] == old(table[k])
      {
        if (table[i].ip.hi != 0 || table[i].ip.lo != 0) && now - table[i].time >= MAX_AGE {
          table[i] := table[i].(ip := NO_IP);
        }
        i := i + 1;
      }
    }

    /** uip_arp_out, without the datagram itself. */
    method Out(h: Host, dest: Ip) returns (f: Frame)
      ensures dest == ALL_HOSTS ==> f == Datagram(ALL_MACS, h.mac)
      // through the first entry for the next hop, or a request for it
      ensures dest != ALL_HOSTS ==>
                var near := And(dest.hi, h.mask.hi) == And(h.ip.hi, h.mask.hi) && And(dest.lo, h.mask.lo) == And(h.ip.lo, h.mask.lo);
                var hop := if near then dest else h.router;
                if exists k :: 0 <= k < table.Length && table[k].ip == hop then
                  exists k :: 0 <= k < table.Length && table[k].ip == hop && (forall j | 0 <= j < k :: table[j].ip != hop)
                              && f == Datagram(table[k].mac, h.mac)
                else f == Resolve(Packet(ALL_MACS, h.mac, REQUEST, h.mac, h.ip, NO_MAC, hop))
      ensures f == FrameFor(table[..], h, dest)
    {
      hide And;
      if dest == ALL_HOSTS {
        return Datagram(ALL_MACS, h.mac);
      }
      var ip := if !Local(h, dest) then h.router else dest;
      var i := 0;
      while i < table.Length
        invariant 0 <= i <= table.Length
        invariant Lookup(table[..], ip, 0) == Lookup(table[..], ip, i)
      {
        if ip == table[i].ip {
          break;
        }
        i := i + 1;
      }
      if i == table.Length {
        return Resolve(Packet(ALL_MACS, h.mac, REQUEST, h.mac, h.ip, NO_MAC, ip));
      }
      f := Datagram(table[i].mac, h.mac);
    }

    /** uip_arp_arpin: `len` is uip_len. */
    method ArpIn(h: Host, p: Packet, len: nat) returns (reply: Option<Packet>)
      requires 0 < table.Length
      modifies table
      ensures len < ARP_LEN ==> reply == None && table[..] == old(table[..])
      ensures len >= ARP_LEN ==> reply == ReplyTo(h, p) && table[..] == AfterArp(old(table[..]), now, h, p)
      // a request for this host is turned round, with this host's address
      ensures reply.Some? <==> len >= ARP_LEN && p.opcode == 1 && p.targetIp == h.ip
      ensures reply.Some? ==>
                var r := reply.value;
                && r.opcode == 2 && r.ethSrc == r.senderMac == h.mac && r.senderIp == h.ip
                && r.ethDest == r.targetMac == p.senderMac && r.targetIp == p.senderIp
    {
      hide Updated;
      reply := None;
      if len < ARP_LEN { return; }
      if p.opcode == REQUEST {
        if p.targetIp == h.ip {
          Update(p.senderIp, p.senderMac);
          var q := p.(opcode := REPLY, targetMac := p.senderMac);
          q := q.(senderMac := h.mac, ethSrc := h.mac, ethDest := q.targetMac);
          reply := Some(q.(targetIp := q.senderIp, senderIp := h.ip));
        }
      } else if p.opcode == REPLY {
        if p.targetIp == h.ip {
          Update(p.senderIp, p.senderMac);
        }
      }
    }

    /** uip_arp_ipin: learn from datagrams of the local network only. */
    method IpIn(h: Host, src: Ip, ethSrc: Mac)
      requires 0 < table.Length
      modifies table
      ensures table[..] == if Local(h, src) then Updated(old(table[..]), now, src, ethSrc) else old(table[..])
    {
      hide Updated;
      if And(src.hi, h.mask.hi) != And(h.ip.hi, h.mask.hi) { return; }
      if And(src.lo, h.mask.lo) != And(h.ip.lo, h.mask.lo) { return; }
      Update(src, ethSrc);
    }
  }
}
