/** Forwarding (uip-fw.c): duplicates, expiring packets, and the TTL with its checksum. */
module Forward {
  import opened Words
  import opened Checksum
  import opened NetBuffer
  import opened Icmp
  import opened FwCache

  const ICMP_TE: u8 := 11
  const UIP_TTL: u8 := 64

  datatype Verdict = Local | Forwarded

  function DestOf(d: seq<u8>, b: nat): Ip
    requires HasHeader(d, b)
  {
    Ip(Pair(d[b + 16], d[b + 17]), Pair(d[b + 18], d[b + 19]))
  }

  /** The destination is the number in bytes 16 to 19, in network order. */
  lemma DestIsNumber(d: seq<u8>, b: nat)
    requires HasHeader(d, b)
    ensures DestOf(d, b).hi * 0x1_0000 + DestOf(d, b).lo == BigEndian(d[b + 16..b + 20])
  {
    hide Pair;
    var s := d[b + 16..b + 20];
    TwoDigits([], s[0], s[1]);
    TwoDigits([s[0], s[1]], s[2], s[3]);
    assert [] + [s[0], s[1]] == [s[0], s[1]] && [s[0], s[1]] + [s[2], s[3]] == s;
  }

  function KeyOf(d: seq<u8>, b: nat): Key
    requires HasHeader(d, b)
  {
    FwCache.Key(Pair(d[b + 4], d[b + 5]), Ip(Pair(d[b + 12], d[b + 13]), Pair(d[b + 14], d[b + 15])),
                DestOf(d, b), d[b + 9], Pair(d[b + 2], d[b + 3]), Pair(d[b + 6], d[b + 7]))
  }

  /** Total length, identification, flags and offset, protocol and addresses. */
  predicate KeyByte(i: nat) { 2 <= i < 8 || i == 9 || 12 <= i < 20 }

  /** The packets at `b` in `d` and at `c` in `e` are the same for the cache. */
  predicate SamePacket(d: seq<u8>, b: nat, e: seq<u8>, c: nat)
    requires HasHeader(d, b) && HasHeader(e, c)
  {
    forall i | 0 <= i < IPH_LEN && KeyByte(i) :: d[b + i] == e[c + i]
  }

  lemma KeysAgree(d: seq<u8>, b: nat, e: seq<u8>, c: nat)
    requires HasHeader(d, b) && HasHeader(e, c)
    ensures KeyOf(d, b) == KeyOf(e, c) <==> SamePacket(d, b, e, c)
  {
    hide Pair;
    PairsAgree(d[b + 2], d[b + 3], e[c + 2], e[c + 3]);
    PairsAgree(d[b + 4], d[b + 5], e[c + 4], e[c + 5]);
    PairsAgree(d[b + 6], d[b + 7], e[c + 6], e[c + 7]);
    PairsAgree(d[b + 12], d[b + 13], e[c + 12], e[c + 13]);
    PairsAgree(d[b + 14], d[b + 15], e[c + 14], e[c + 15]);
    PairsAgree(d[b + 16], d[b + 17], e[c + 16], e[c + 17]);
    PairsAgree(d[b + 18], d[b + 19], e[c + 18], e[c + 19]);
    if SamePacket(d, b, e, c) {
      assert KeyByte(2) && KeyByte(3) && KeyByte(4) && KeyByte(5) && KeyByte(6) && KeyByte(7) && KeyByte(9);
      assert KeyByte(12) && KeyByte(13) && KeyByte(14) && KeyByte(15) && KeyByte(16) && KeyByte(17) && KeyByte(18) && KeyByte(19);
    }
  }

  lemma PairsAgree(a: u8, b: u8, c: u8, d: u8)
    ensures Pair(a, b) == Pair(c, d) <==> a == c && b == d
  {
  }

  const NO_KEY: Key := FwCache.Key(0, Ip(0, 0), Ip(0, 0), 0, 0, 0)
  const BROADCAST: seq<u8> := [0xff, 0xff, 0xff, 0xff]

  /** `q` is the packet `p` one hop further: only TTL and header checksum differ. */
  predicate OneHop(p: seq<u8>, q: seq<u8>) {
    && |q| == |p| && IPH_LEN <= |p| && p[8] > 0 && q[8] == p[8] - 1
    && (forall i | 0 <= i < |p| && i != 8 && i != 10 && i != 11 :: q[i] == p[i])
    && IpAccepts(q, 0) == IpAccepts(p, 0)
  }

  /**
   * `q` is the time-exceeded message that `host` sends to the source of the packet whose
   * first 28 bytes are `p`, after one hop. If the packet was shorter, `p` ends with what lay behind it.
   */
  predicate TimeExceeded(p: seq<u8>, q: seq<u8>, host: seq<u8>) {
    && |p| == 28 && |q| == 56 && LenField(q, 0) == 56 && |host| == 4
    && q[0] == 0x45 && q[8] == UIP_TTL - 1 && q[9] == PROTO_ICMP
    && FourAt(q, 12, host, 0) && FourAt(q, 16, p, 12)
    && q[20] == ICMP_TE && q[21] == 0
    && q[28..56] == p
    && IpAccepts(q, 0)
    && Returned(Fold(WordSum(q, 20, 56))) == 0xffff
  }

  /** The message of RFC 792: type 11, code 0, the header and 8 bytes of the packet, from this host to its source, one hop on. */
  lemma TimeExceededFields(p: seq<u8>, q: seq<u8>, host: seq<u8>)
    requires TimeExceeded(p, q, host)
    ensures |q| == 56 && q[20] == 11 && q[21] == 0 && q[9] == 1 && q[8] == 63 && q[12..16] == host && q[16..20] == p[12..16]
    ensures q[28..56] == p && WordSum(q, 20, 56) % 0xffff == 0 && WordSum(q, 0, 20) % 0xffff == 0
  {
    hide WordSum;
    hide Fold;
    hide Returned;
    Verifies(WordSum(q, 20, 56));
    Verifies(WordSum(q, 0, 20));
  }

  /** BUF->ttl - 1 and the incremental update of the header checksum. */
  method DecrementTtl(nb: Buffer)
    requires nb.Valid()
    modifies nb.buf
    ensures nb.buf[nb.llh + 8] as int == (old(nb.buf[nb.llh + 8]) as int - 1) % 256
    ensures forall i | 0 <= i < nb.buf.Length && i != nb.llh + 8 && i != nb.llh + 10 && i != nb.llh + 11 ::
              nb.buf[i] == old(nb.buf[i])
    ensures old(nb.buf[nb.llh + 8]) > 0 ==> IpAccepts(nb.buf[..], nb.llh) == IpAccepts(old(nb.buf[..]), nb.llh)
  {
    hide WordSum;
    hide Fold;
    hide Returned;
    hide AddSwapped;
    ghost var d := nb.buf[..];
    nb.buf[nb.llh + 8] := (nb.buf[nb.llh + 8] as int - 1) % 256;
    UpdateChecksum(nb, nb.llh + 10, Htons(0x0100));
    ghost var e := nb.buf[..];
    if d[nb.llh + 8] > 0 {
      UpdateKeepsSum(d, e, nb.llh, nb.llh + 20, nb.llh + 8, nb.llh + 10, 1);
      SameVerdict(WordSum(d, nb.llh, nb.llh + 20), WordSum(e, nb.llh, nb.llh + 20));
    }
  }

  lemma SameVerdict(m: nat, n: nat)
    requires m % 0xffff == n % 0xffff
    ensures (Returned(Fold(m)) == 0xffff) == (Returned(Fold(n)) == 0xffff)
  {
    Verifies(m);
    Verifies(n);
  }

  /** memcpy(payload, header, 28), type and code. */
  method QuoteHeader(nb: Buffer)
    requires nb.Valid()
    modifies nb.buf
    ensures forall i | nb.llh + 28 <= i < nb.llh + 56 :: nb.buf[i] == old(nb.buf[i - 28])
    ensures nb.buf[nb.llh + 20] == ICMP_TE && nb.buf[nb.llh + 21] == 0
    ensures forall i | 0 <= i < nb.buf.Length && !(nb.llh + 20 <= i < nb.llh + 22) && !(nb.llh + 28 <= i < nb.llh + 56) ::
              nb.buf[i] == old(nb.buf[i])
  {
    var k := 0;
    while k < 28
      invariant 0 <= k <= 28
      invariant forall i | nb.llh + 28 <= i < nb.llh + 28 + k :: nb.buf[i] == old(nb.buf[i - 28])
      invariant forall i | 0 <= i < nb.buf.Length && !(nb.llh + 28 <= i < nb.llh + 28 + k) :: nb.buf[i] == old(nb.buf[i])
    {
      nb.buf[nb.llh + 28 + k] := nb.buf[nb.llh + k];
      k := k + 1;
    }
    nb.buf[nb.llh + 20] := ICMP_TE;
    nb.buf[nb.llh + 21] := 0;
  }

  /** icmpchksum = 0; icmpchksum = ~uip_chksum(&type, 36), for a message that is not all zero. */
  method FillIcmpChksum(nb: Buffer)
    requires nb.Valid() && nb.buf[nb.llh + 20] > 0
    modifies nb.buf
    ensures Returned(Fold(WordSum(nb.buf[..], nb.llh + 20, nb.llh + 56))) == 0xffff
    ensures forall i | 0 <= i < nb.buf.Length && i != nb.llh + 22 && i != nb.llh + 23 :: nb.buf[i] == old(nb.buf[i])
  {
    hide WordSum;
    hide Fold;
    nb.Store16(nb.llh + 22, 0);
    ghost var zeroed := nb.buf[..];
    var sum := Chksum(0, nb.buf, nb.llh + 20, 36);
    NotZero(zeroed, nb.llh + 20, nb.llh + 56);
    nb.Store16(nb.llh + 22, 0xffff - Htons(sum));
    FillCompletes(zeroed, nb.buf[..], nb.llh + 20, nb.llh + 56, nb.llh + 22, 0);
  }

  lemma NotZero(d: seq<u8>, lo: nat, hi: nat)
    requires lo < hi <= |d| && d[lo] > 0
    ensures Fold(WordSum(d, lo, hi)) != 0
  {
    ZeroSum(d, lo, hi);
  }

  /** The fields of the new IP header, written over the old one. */
  method RewriteHeader(nb: Buffer, host: seq<u8>)
    requires nb.Valid() && |host| == 4
    modifies nb.buf, nb`len
    ensures nb.len == 56 && LenField(nb.buf[..], nb.llh) == 56
    ensures nb.buf[nb.llh] == 0x45 && nb.buf[nb.llh + 8] == UIP_TTL && nb.buf[nb.llh + 9] == PROTO_ICMP
    ensures FourAt(nb.buf[..], nb.llh + 12, host, 0) && FourAt(nb.buf[..], nb.llh + 16, old(nb.buf[..]), nb.llh + 12)
    ensures IpAccepts(nb.buf[..], nb.llh)
    ensures forall i | 0 <= i < nb.buf.Length && nb.llh + 20 <= i :: nb.buf[i] == old(nb.buf[i])
  {
    hide IpAccepts;
    SwapAddresses(nb, host);
    WriteFields(nb);
    nb.FillIpChksum();
  }

  method WriteFields(nb: Buffer)
    requires nb.Valid()
    modifies nb.buf, nb`len
    ensures nb.len == 56 && LenField(nb.buf[..], nb.llh) == 56
    ensures nb.buf[nb.llh] == 0x45 && nb.buf[nb.llh + 8] == UIP_TTL && nb.buf[nb.llh + 9] == PROTO_ICMP
    ensures forall i | 0 <= i < nb.buf.Length && !(nb.llh <= i < nb.llh + 10) :: nb.buf[i] == old(nb.buf[i])
  {
    nb.len := 56;
    nb.buf[nb.llh + 2] := 0;
    nb.buf[nb.llh + 3] := 56;
    nb.buf[nb.llh] := 0x45;
    nb.buf[nb.llh + 1] := 0;
    nb.buf[nb.llh + 6] := 0;
    nb.buf[nb.llh + 7] := 0;
    nb.buf[nb.llh + 8] := UIP_TTL;
    nb.buf[nb.llh + 9] := PROTO_ICMP;
  }

  /** time_exceeded for a packet that is not ICMP, and the hop that follows it. */
  method SendBack(nb: Buffer, host: seq<u8>)
    requires nb.Valid() && |host| == 4
    modifies nb.buf, nb`len
    ensures nb.len == 56 && TimeExceeded(old(nb.buf[nb.llh..nb.llh + 28]), nb.Packet(), host)
  {
    hide IpAccepts;
    hide WordSum;
    hide Fold;
    hide Returned;
    ghost var b, c, p := nb.llh, nb.buf[..], nb.buf[nb.llh..nb.llh + 28];
    QuoteHeader(nb);
    FillIcmpChksum(nb);
    ghost var d := nb.buf[..];
    RewriteHeader(nb, host);
    DecrementTtl(nb);
    ghost var e, q := nb.buf[..], nb.Packet();
    WordSumMoved(d, b + 20, b + 56, q, 20);
    HeaderTestMoved(e, b, q);
    SubSlice(c, b, p, 0, 28);
    SubSlice(e, b, q, 28, 56);
    Quoted(c, e, b);
  }

  lemma Quoted(c: seq<u8>, e: seq<u8>, b: nat)
    requires b + 56 <= |c| == |e| && forall i | b + 28 <= i < b + 56 :: e[i] == c[i - 28]
    ensures e[b + 28..b + 56] == c[b..b + 28]
  {
    var x, y := e[b + 28..b + 56], c[b..b + 28];
    forall k | 0 <= k < 28 ensures x[k] == y[k] {
      assert e[b + 28 + k] == c[b + k];
    }
  }

  lemma HeaderTestMoved(d: seq<u8>, b: nat, q: seq<u8>)
    requires HasHeader(d, b) && HasHeader(q, 0) && forall i | b <= i < b + 20 :: d[i] == q[i - b]
    ensures IpAccepts(d, b) == IpAccepts(q, 0)
  {
    hide WordSum;
    hide Fold;
    hide Returned;
    WordSumMoved(d, b, b + 20, q, 0);
  }

  /** uip_fw_forward for a packet with TTL left: one hop. */
  method Hop(nb: Buffer)
    requires nb.Valid() && IPH_LEN <= nb.len && nb.llh + nb.len <= nb.buf.Length && nb.buf[nb.llh + 8] > 0
    modifies nb.buf
    ensures OneHop(old(nb.Packet()), nb.Packet())
    ensures KeyOf(nb.buf[..], nb.llh) == old(KeyOf(nb.buf[..], nb.llh))
  {
    hide IpAccepts;
    ghost var d, p := nb.buf[..], nb.Packet();
    DecrementTtl(nb);
    ghost var e, q := nb.buf[..], nb.Packet();
    HeaderTestMoved(d, nb.llh, p);
    HeaderTestMoved(e, nb.llh, q);
  }

  lemma HeaderKey(d: seq<u8>, b: nat, h: seq<u8>)
    requires HasHeader(d, b) && h == d[b..b + IPH_LEN]
    ensures HasHeader(h, 0) && KeyOf(h, 0) == KeyOf(d, b)
  {
    KeysAgree(h, 0, d, b);
  }

  lemma BroadcastDest(d: seq<u8>, b: nat)
    requires HasHeader(d, b)
    ensures IsBroadcast(d, b) <==> DestOf(d, b) == Ip(0xffff, 0xffff)
  {
  }

  predicate IsBroadcast(d: seq<u8>, b: nat)
    requires HasHeader(d, b)
  {
    FourAt(d, b + 16, BROADCAST, 0)
  }

  // ---------------------------------------------------------------- interfaces

  /** struct uip_fw_netif: the network behind an interface. */
  datatype Netif = Netif(ip: Ip, mask: Ip)

  datatype Via = Default | Interface(k: nat)

  /** ipaddr_maskcmp. */
  predicate Behind(n: Netif, dest: Ip) {
    And(dest.hi, n.mask.hi) == And(n.ip.hi, n.mask.hi) && And(dest.lo, n.mask.lo) == And(n.ip.lo, n.mask.lo)
  }

  /** The masked halves of the interface's address and of the destination agree. */
  lemma BehindMeans(n: Netif, dest: Ip)
    ensures Behind(n, dest) <==>
              And(dest.hi, n.mask.hi) == And(n.ip.hi, n.mask.hi) && And(dest.lo, n.mask.lo) == And(n.ip.lo, n.mask.lo)
  {
    hide And;
  }

  function FirstBehind(netifs: seq<Netif>, dest: Ip, k: nat := 0): (r: nat)
    requires k <= |netifs|
    ensures k <= r <= |netifs|
    ensures r < |netifs| ==> Behind(netifs[r], dest)
    ensures forall j | k <= j < r :: !Behind(netifs[j], dest)
    decreases |netifs| - k
  {
    if k == |netifs| || Behind(netifs[k], dest) then k else FirstBehind(netifs, dest, k + 1)
  }

  /** Where a packet goes out: everywhere, to the first interface that fits, by default, or nowhere. */
  function Route(netifs: seq<Netif>, hasDefault: bool, dest: Ip): seq<Via> {
    var default := if hasDefault then [Default] else [];
    if dest == Ip(0xffff, 0xffff) then default + seq(|netifs|, k requires 0 <= k < |netifs| => Interface(k))
    else if FirstBehind(netifs, dest) < |netifs| then [Interface(FirstBehind(netifs, dest))]
    else default
  }

  function Deliveries(route: seq<Via>, packet: seq<u8>): (r: seq<(Via, seq<u8>)>)
    ensures |r| == |route|
  {
    seq(|route|, k requires 0 <= k < |route| => (route[k], packet))
  }

  lemma OneMoreDelivery(route: seq<Via>, k: nat, packet: seq<u8>)
    requires k < |route|
    ensures Deliveries(route[..k + 1], packet) == Deliveries(route[..k], packet) + [(route[k], packet)]
  {
  }

  lemma NoDelivery(packet: seq<u8>)
    ensures Deliveries([], packet) == []
  {
  }

  lemma EverywhereRoute(netifs: seq<Netif>, hasDefault: bool)
    ensures var r, d := Route(netifs, hasDefault, Ip(0xffff, 0xffff)), if hasDefault then 1 else 0;
            && |r| == d + |netifs| && (hasDefault ==> r[0] == Default)
            && forall k | d <= k < |r| :: r[k] == Interface(k - d)
  {
  }

  /** A packet for one host leaves once, and not at all exactly when no interface fits and none is the default. */
  lemma RouteMeaning(netifs: seq<Netif>, hasDefault: bool, dest: Ip)
    requires dest != Ip(0xffff, 0xffff)
    ensures var r := Route(netifs, hasDefault, dest);
            && |r| <= 1 && (r == [] <==> !hasDefault && forall k | 0 <= k < |netifs| :: !Behind(netifs[k], dest))
            && (r == [Default] ==> hasDefault && forall k | 0 <= k < |netifs| :: !Behind(netifs[k], dest))
            && (forall k: nat :: r == [Interface(k)] <==>
                  k < |netifs| && Behind(netifs[k], dest) && forall j | 0 <= j < k :: !Behind(netifs[j], dest))
    // an interface fits if the masked halves of its address and of the destination agree
    ensures forall k | 0 <= k < |netifs| :: Behind(netifs[k], dest) <==>
              And(dest.hi, netifs[k].mask.hi) == And(netifs[k].ip.hi, netifs[k].mask.hi)
              && And(dest.lo, netifs[k].mask.lo) == And(netifs[k].ip.lo, netifs[k].mask.lo)
  {
    hide Behind;
    forall k | 0 <= k < |netifs|
      ensures Behind(netifs[k], dest) <==>
                And(dest.hi, netifs[k].mask.hi) == And(netifs[k].ip.hi, netifs[k].mask.hi)
                && And(dest.lo, netifs[k].mask.lo) == And(netifs[k].ip.lo, netifs[k].mask.lo)
    {
      BehindMeans(netifs[k], dest);
    }
    var f := FirstBehind(netifs, dest);
    forall k: nat | k < |netifs| && Behind(netifs[k], dest) && forall j | 0 <= j < k :: !Behind(netifs[j], dest) ensures k == f {
      assert f <= k;
    }
  }

  /** The forwarding module: packet buffer, cache, interfaces, and what has been handed to them. */
  class Forwarder {
    const nb: Buffer
    const cache: array<Entry>
    const host: seq<u8>
    const netifs: seq<Netif>
    const hasDefault: bool
    var sent: seq<(Via, seq<u8>)>

    /** For every entry of the cache the header of the packet it was registered for. */
    ghost var origins: seq<seq<u8>>

    /** A cache that has seen nothing: every timer is zero. */
    constructor (nb: Buffer, size: nat, host: seq<u8>, netifs: seq<Netif>, hasDefault: bool)
      requires size > 0 && |host| == 4
      ensures this.nb == nb && this.host == host && this.netifs == netifs && this.hasDefault == hasDefault
      ensures fresh(cache) && sent == []
      ensures cache.Length == size && TimersOk(cache[..]) && Traced() && forall key :: !Known(cache[..], key)
    {
      this.nb, this.host, this.netifs, this.hasDefault, sent := nb, host, netifs, hasDefault, [];
      origins := seq(size, _ => []);
      cache := new Entry[size](_ => Entry(0, NO_KEY));
    }

    ghost predicate Valid()
      reads this, nb, cache
    {
      && nb.Valid() && |host| == 4 && cache.Length > 0 && TimersOk(cache[..]) && Traced()
      && IPH_LEN <= nb.len && nb.llh + nb.len <= nb.buf.Length
    }

    ghost predicate Traced()
      reads this, cache
    {
      && |origins| == cache.Length
      && forall k | 0 <= k < cache.Length && cache[k].timer != 0 :: HasHeader(origins[k], 0) && cache[k].key == KeyOf(origins[k], 0)
    }

    /** A packet that agrees with the one in the buffer in every key byte is still remembered. */
    ghost predicate Seen()
      requires Traced() && HasHeader(nb.buf[..], nb.llh)
      reads this, nb, nb.buf, cache
    {
      exists k :: 0 <= k < cache.Length && cache[k].timer != 0 && SamePacket(origins[k], 0, nb.buf[..], nb.llh)
    }

    lemma SeenIsKnown()
      requires Traced() && HasHeader(nb.buf[..], nb.llh)
      ensures Seen() <==> Known(cache[..], KeyOf(nb.buf[..], nb.llh))
    {
      hide KeyOf;
      hide SamePacket;
      forall k | 0 <= k < cache.Length && cache[k].timer != 0
        ensures SamePacket(origins[k], 0, nb.buf[..], nb.llh) <==> cache[..][k].key == KeyOf(nb.buf[..], nb.llh)
      {
        KeysAgree(origins[k], 0, nb.buf[..], nb.llh);
      }
    }

    /** The loop over the cache. */
    method IsDuplicate(key: Key) returns (dup: bool)
      ensures dup == Known(cache[..], key)
    {
      var i := 0;
      while i < cache.Length
        invariant 0 <= i <= cache.Length
        invariant forall k | 0 <= k < i :: !(cache[k].timer != 0 && cache[k].key == key)
      {
        if cache[i].timer != 0 && cache[i].key == key {
          assert cache[..][i] == cache[i];
          return true;
        }
        i := i + 1;
      }
      return false;
    }

    /** fwcache_register: the slot found is never NULL. */
    method Register(key: Key, ghost header: seq<u8>)
      requires cache.Length > 0 && TimersOk(cache[..]) && Traced() && HasHeader(header, 0) && key == KeyOf(header, 0)
      modifies cache, this`origins
      ensures cache[..] == Registered(old(cache[..]), key) && TimersOk(cache[..]) && Traced()
    {
      ghost var before := cache[..];
      VictimExactly(before, 0);
      TimersKept(before, key);
      var oldest := FW_TIME;
      var fw: Option<nat> := None;
      var i := 0;
      while i < cache.Length
        invariant 0 <= i <= cache.Length && (fw.Some? ==> fw.value < i)
        invariant VictimFrom(before, 0, None, FW_TIME) == VictimFrom(before, i, fw, oldest)
      {
        if cache[i].timer == 0 {
          fw := Some(i);
          break;
        } else if cache[i].timer <= oldest {
          fw := Some(i);
          oldest := cache[i].timer;
        }
        i := i + 1;
      }
      cache[fw.value] := Entry(FW_TIME, key);
      origins := origins[fw.value := header];
    }

    /** uip_fw_periodic. */
    method Periodic()
      requires TimersOk(cache[..]) && Traced()
      modifies cache
      ensures cache[..] == Ticked(old(cache[..]), 1) && TimersOk(cache[..]) && Traced()
    {
      ghost var before := cache[..];
      assert Ticked(before, 0) == before;
      TimersKept(before, NO_KEY);
      var i := 0;
      while i < cache.Length
        invariant 0 <= i <= cache.Length
        invariant forall k | 0 <= k < i :: cache[k] == Ticked(before, 1)[k]
        invariant forall k | i <= k < cache.Length :: cache[k] == before[k]
      {
        if cache[i].timer > 0 {
          cache[i] := cache[i].(timer := cache[i].timer - 1);
        }
        i := i + 1;
      }
    }

    /** find_netif: the first interface that fits, else the default one, else none. */
    method FindNetif(dest: Ip) returns (via: Option<Via>)
      requires dest != Ip(0xffff, 0xffff)
      ensures Route(netifs, hasDefault, dest) == if via.Some? then [via.value] else []
    {
      hide And;
      var k := 0;
      while k < |netifs|
        invariant 0 <= k <= |netifs|
        invariant FirstBehind(netifs, dest, 0) == FirstBehind(netifs, dest, k)
      {
        if Behind(netifs[k], dest) {
          return Some(Interface(k));
        }
        k := k + 1;
      }
      via := if hasDefault then Some(Default) else None;
    }

    /** netif->output(). */
    method Deliver(via: Via)
      requires nb.llh + nb.len <= nb.buf.Length
      modifies this`sent
      ensures sent == old(sent) + [(via, nb.Packet())]
    {
      sent := sent + [(via, nb.buf[nb.llh..nb.llh + nb.len])];
    }

    /** Link local broadcasts go out on all interfaces. */
    method DeliverEverywhere()
      requires nb.llh + nb.len <= nb.buf.Length
      modifies this`sent
      ensures sent == old(sent) + Deliveries(Route(netifs, hasDefault, Ip(0xffff, 0xffff)), nb.Packet())
    {
      hide Route;
      hide Deliveries;
      ghost var route := Route(netifs, hasDefault, Ip(0xffff, 0xffff));
      ghost var d: nat := if hasDefault then 1 else 0;
      EverywhereRoute(netifs, hasDefault);
      NoDelivery(nb.Packet());
      if hasDefault {
        OneMoreDelivery(route, 0, nb.Packet());
        Deliver(Default);
      }
      var k := 0;
      while k < |netifs|
        invariant 0 <= k <= |netifs| && d + k <= |route|
        invariant sent == old(sent) + Deliveries(route[..d + k], nb.Packet())
      {
        Deliver(Interface(k));
        OneMoreDelivery(route, d + k, nb.Packet());
        k := k + 1;
      }
      assert route[..d + k] == route;
    }

    /** uip_fw_output: register, then hand over to the interfaces of the route. */
    method Output()
      requires cache.Length > 0 && TimersOk(cache[..]) && Traced() && HasHeader(nb.buf[..], nb.llh) && nb.llh + nb.len <= nb.buf.Length
      modifies this`sent, this`origins, cache
      ensures TimersOk(cache[..]) && Traced()
      ensures if nb.len == 0 then sent == old(sent) && cache[..] == old(cache[..])
              else sent == old(sent) + Routed()
                   && cache[..] == Registered(old(cache[..]), KeyOf(nb.buf[..], nb.llh))
    {
      hide Route;
      if nb.len == 0 {
        return;
      }
      ghost var header := nb.buf[nb.llh..nb.llh + IPH_LEN];
      HeaderKey(nb.buf[..], nb.llh, header);
      Register(KeyOf(nb.buf[..], nb.llh), header);
      if IsBroadcast(nb.buf[..], nb.llh) {
        BroadcastDest(nb.buf[..], nb.llh);
        DeliverEverywhere();
        return;
      }
      BroadcastDest(nb.buf[..], nb.llh);
      var via := FindNetif(DestOf(nb.buf[..], nb.llh));
      if via.Some? {
        Deliver(via.value);
      }
    }

    /** The packet in the buffer on every interface of its route. */
    ghost function Routed(): seq<(Via, seq<u8>)>
      requires HasHeader(nb.buf[..], nb.llh) && nb.llh + nb.len <= nb.buf.Length
      reads nb, nb.buf
    {
      Deliveries(Route(netifs, hasDefault, DestOf(nb.buf[..], nb.llh)), nb.Packet())
    }

    /** Is the packet for this host, already forwarded, or an expired broadcast? */
    ghost predicate NotForwarded()
      requires Valid()
      reads this, nb, nb.buf, cache
    {
      || FourAt(nb.buf[..], nb.llh + 16, host, 0)
      || Seen()
      || (nb.buf[nb.llh + 8] <= 1 && IsBroadcast(nb.buf[..], nb.llh))
    }

    /** uip_fw_forward. */
    method Forward() returns (v: Verdict)
      requires Valid()
      modifies this`sent, this`origins, nb`len, nb.buf, cache
      ensures TimersOk(cache[..]) && Traced() && nb.llh + nb.len <= nb.buf.Length
      // nothing happens to packets that are not to be forwarded
      ensures old(NotForwarded()) ==>
                sent == old(sent) && nb.buf[..] == old(nb.buf[..]) && cache[..] == old(cache[..]) && nb.len == old(nb.len)
      // a packet with TTL left goes one hop further and is remembered
      ensures !old(NotForwarded()) && old(nb.buf[nb.llh + 8]) >= 2 ==>
                && sent == old(sent) + Routed() && OneHop(old(nb.Packet()), nb.Packet())
                && cache[..] == Registered(old(cache[..]), old(KeyOf(nb.buf[..], nb.llh)))
      // an expired packet is answered, except for ICMP
      ensures !old(NotForwarded()) && old(nb.buf[nb.llh + 8]) <= 1 && old(nb.buf[nb.llh + 9]) == PROTO_ICMP ==>
                nb.len == 0 && sent == old(sent) && cache[..] == old(cache[..])
      ensures !old(NotForwarded()) && old(nb.buf[nb.llh + 8]) <= 1 && old(nb.buf[nb.llh + 9]) != PROTO_ICMP ==>
                && sent == old(sent) + Routed() && TimeExceeded(old(nb.buf[nb.llh..nb.llh + 28]), nb.Packet(), host)
                && cache[..] == Registered(old(cache[..]), KeyOf(nb.buf[..], nb.llh))
      // only local packets and broadcasts are processed further
      ensures v == if || old(FourAt(nb.buf[..], nb.llh + 16, host, 0))
                      || (!old(Seen()) && IsBroadcast(nb.buf[..], nb.llh))
                   then Local else Forwarded
    {
      hide OneHop;
      hide TimeExceeded;
      hide FourAt;
      hide Route;
      hide Deliveries;
      hide SamePacket;
      hide KeyOf;
      SeenIsKnown();
      if FourAt(nb.buf[..], nb.llh + 16, host, 0) {
        return Local;
      }
      var dup := IsDuplicate(KeyOf(nb.buf[..], nb.llh));
      if dup {
        return Forwarded;
      }
      if nb.buf[nb.llh + 8] <= 1 {
        if IsBroadcast(nb.buf[..], nb.llh) {
          return Local;
        }
        if nb.buf[nb.llh + 9] == PROTO_ICMP {
          nb.len := 0;
          DecrementTtl(nb);
        } else {
          SendBack(nb, host);
        }
      } else {
        Hop(nb);
      }
      Output();
      v := if IsBroadcast(nb.buf[..], nb.llh) then Local else Forwarded;
    }
  }
}
