/** The echo reply: the checksum is adjusted in place instead of being computed again. */
module Icmp {
  import opened Words
  import opened Checksum
  import opened NetBuffer

  const ICMP_ECHO: u8 := 8
  const ICMP_ECHO_REPLY: u8 := 0

  /** Read a 16-bit field the way a little-endian machine does. */
  function Load16(d: seq<u8>, k: nat): (v: u16)
    requires k + 2 <= |d|
    ensures LowByte(v) == d[k] && HighByte(v) == d[k + 1]
  {
    d[k] as int + 256 * (d[k + 1] as int)
  }

  /** The sum of the ICMP message of a packet of length `len`. */
  function MessageSum(d: seq<u8>, b: nat, len: nat): nat
    requires IPH_LEN <= len && b + len <= |d|
  {
    WordSum(d, b + IPH_LEN, b + len)
  }

  /** A word decreases by 256 * w while the checksum word is updated by w: the sum is unchanged. */
  lemma UpdateKeepsSum(d: seq<u8>, e: seq<u8>, lo: nat, hi: nat, k: nat, c: nat, w: u8)
    requires |e| == |d| && lo <= k && k + 2 <= hi <= |d| && lo <= c && c + 2 <= hi
    requires Even(k - lo) && Even(c - lo) && k != c && k + 1 != c && c + 1 != k
    requires d[k] >= w && e[k] == d[k] - w && e[k + 1] == d[k + 1]
    requires var v := AddSwapped(Load16(d, c), w); e[c] == LowByte(v) && e[c + 1] == HighByte(v)
    requires forall i | lo <= i < hi && i != k && i != c && i != c + 1 :: e[i] == d[i]
    ensures WordSum(e, lo, hi) % 0xffff == WordSum(d, lo, hi) % 0xffff
  {
    hide WordSum;
    hide AddSwapped;
    var f := d[k := e[k]];
    WordSumPatched(d, f, lo, hi, k);
    WordSumPatched(f, e, lo, hi, c);
    IncrementalUpdate(Load16(d, c), w);
    var rest := WordSum(d, lo, hi) - Word(d, c) - 256 * w;
    PatchedModulo(WordSum(d, lo, hi), WordSum(e, lo, hi), Word(d, c), Word(e, c), 256 * w);
  }

  lemma PatchedModulo(s: int, t: int, old_word: int, new_word: int, w: int)
    requires t == s - w - old_word + new_word
    requires new_word % 0xffff == (old_word + w) % 0xffff
    ensures t % 0xffff == s % 0xffff
  {
    var q := new_word / 0xffff - (old_word + w) / 0xffff;
    assert new_word == old_word + w + q * 0xffff;
    ModShift(s, q);
  }

  /** Four bytes of `d` at `k` are those of `s` at `j`. */
  predicate FourAt(d: seq<u8>, k: nat, s: seq<u8>, j: nat) {
    && k + 4 <= |d| && j + 4 <= |s|
    && d[k] == s[j] && d[k + 1] == s[j + 1] && d[k + 2] == s[j + 2] && d[k + 3] == s[j + 3]
  }

  /** `e` is the answer to the echo request in `d`. */
  ghost predicate Answers(d: seq<u8>, e: seq<u8>, b: nat, len: nat, host: seq<u8>)
    requires IPH_LEN <= len && b + len <= |d| && |e| == |d| && |host| == 4
  {
    // an echo reply from this host to the sender, otherwise the same packet
    && b + 24 <= |d| && e[b + 20] == ICMP_ECHO_REPLY
    && FourAt(e, b + 12, host, 0) && FourAt(e, b + 16, d, b + 12)
    && (forall i | 0 <= i < |d| && !(b + 12 <= i < b + 20) && i != b + 20 && i != b + 22 && i != b + 23 :: e[i] == d[i])
    && (var v := AddSwapped(Load16(d, b + 22), 8); e[b + 22] == LowByte(v) && e[b + 23] == HighByte(v))
    // whose message sum, if the message holds its checksum, is that of the request,
    // and whose header is as valid as before
    && (24 <= len ==> MessageSum(e, b, len) % 0xffff == MessageSum(d, b, len) % 0xffff)
    && (FourAt(d, b + 16, host, 0) ==> IpAccepts(e, b) == IpAccepts(d, b))
  }

  /** The reply of RFC 792: type 0, the addresses turned round, and the data of the request. */
  lemma ReplyFields(d: seq<u8>, e: seq<u8>, b: nat, len: nat, host: seq<u8>)
    requires IPH_LEN <= len && b + len <= |d| && |e| == |d| && |host| == 4 && Answers(d, e, b, len, host)
    ensures e[b + 20] == 0 && e[b + 21] == d[b + 21] && e[b + 24..] == d[b + 24..] && e[..b + 12] == d[..b + 12]
    ensures e[b + 12..b + 16] == host && e[b + 16..b + 20] == d[b + 12..b + 16]
  {
  }

  /** icmp_input: answer an echo request in place; anything else is dropped. */
  method EchoReply(nb: Buffer, host: seq<u8>)
    requires nb.Valid() && |host| == 4 && IPH_LEN <= nb.len && nb.llh + nb.len <= nb.buf.Length
    modifies nb.buf, nb`len
    ensures old(nb.buf[nb.llh + 20]) != ICMP_ECHO ==> nb.len == 0 && nb.buf[..] == old(nb.buf[..])
    ensures old(nb.buf[nb.llh + 20]) == ICMP_ECHO ==>
              nb.len == old(nb.len) && Answers(old(nb.buf[..]), nb.buf[..], nb.llh, nb.len, host)
  {
    hide WordSum;
    hide IpAccepts;
    hide AddSwapped;
    if nb.buf[nb.llh + 20] != ICMP_ECHO {
      nb.len := 0;
      return;
    }
    ghost var d := nb.buf[..];
    nb.buf[nb.llh + 20] := ICMP_ECHO_REPLY;
    UpdateChecksum(nb, nb.llh + 22, Htons(256 * 8));
    SwapAddresses(nb, host);
    ghost var e := nb.buf[..];
    if 24 <= nb.len {
      UpdateKeepsSum(d, e, nb.llh + 20, nb.llh + nb.len, nb.llh + 20, nb.llh + 22, 8);
    }
    if FourAt(d, nb.llh + 16, host, 0) {
      SwapKeepsTest(d, e, nb.llh, host);
    }
  }

  /** destipaddr = srcipaddr; srcipaddr = uip_hostaddr. */
  method SwapAddresses(nb: Buffer, host: seq<u8>)
    requires nb.Valid() && |host| == 4
    modifies nb.buf
    ensures FourAt(nb.buf[..], nb.llh + 12, host, 0)
    ensures FourAt(nb.buf[..], nb.llh + 16, old(nb.buf[..]), nb.llh + 12)
    ensures forall i | 0 <= i < nb.buf.Length && !(nb.llh + 12 <= i < nb.llh + 20) :: nb.buf[i] == old(nb.buf[i])
  {
    nb.buf[nb.llh + 16] := nb.buf[nb.llh + 12];
    nb.buf[nb.llh + 17] := nb.buf[nb.llh + 13];
    nb.buf[nb.llh + 18] := nb.buf[nb.llh + 14];
    nb.buf[nb.llh + 19] := nb.buf[nb.llh + 15];
    nb.buf[nb.llh + 12] := host[0];
    nb.buf[nb.llh + 13] := host[1];
    nb.buf[nb.llh + 14] := host[2];
    nb.buf[nb.llh + 15] := host[3];
  }

  lemma SwappedComplement(w: u16)
    ensures Htons(0xffff - Htons(w)) == 0xffff - w
  {
    assert w == (w / 256) * 256 + w % 256;
  }

  /** `if(field >= HTONS(0xffff - w')) field += w + 1; else field += w`, with w = HTONS(w'). */
  method UpdateChecksum(nb: Buffer, at: nat, w: u16)
    requires at + 2 <= nb.buf.Length && w <= 255
    modifies nb.buf
    ensures var v := AddSwapped(Load16(old(nb.buf[..]), at), w);
            nb.buf[at] == LowByte(v) && nb.buf[at + 1] == HighByte(v)
    ensures forall i | 0 <= i < nb.buf.Length && i != at && i != at + 1 :: nb.buf[i] == old(nb.buf[i])
  {
    hide Htons;
    SwappedComplement(w);
    var v: u16 := nb.buf[at] as int + 256 * (nb.buf[at + 1] as int);
    assert v == Load16(nb.buf[..], at);
    if v >= Htons(0xffff - Htons(w)) {
      v := (v + w + 1) % 0x1_0000;
    } else {
      v := v + w;
    }
    nb.Store16(at, v);
  }

  /** Exchanging the addresses of a packet addressed to this host keeps its header sum. */
  lemma SwapKeepsTest(d: seq<u8>, e: seq<u8>, b: nat, host: seq<u8>)
    requires |e| == |d| && HasHeader(d, b) && |host| == 4 && FourAt(d, b + 16, host, 0)
    requires FourAt(e, b + 12, host, 0) && FourAt(e, b + 16, d, b + 12)
    requires forall i | b <= i < b + 12 :: e[i] == d[i]
    ensures IpAccepts(e, b) == IpAccepts(d, b)
  {
    hide Fold;
    hide Returned;
    hide WordSum;
    AddressSum(d, b);
    AddressSum(e, b);
    WordSumMoved(d, b, b + 12, e, b);
  }

  lemma AddressSum(d: seq<u8>, b: nat)
    requires HasHeader(d, b)
    ensures WordSum(d, b, b + 20) ==
            WordSum(d, b, b + 12) + Word(d, b + 12) + Word(d, b + 14) + Word(d, b + 16) + Word(d, b + 18)
  {
    OneMoreWord(d, b, b + 12);
    OneMoreWord(d, b, b + 14);
    OneMoreWord(d, b, b + 16);
    OneMoreWord(d, b, b + 18);
  }

  lemma {:induction false} ZeroSum(d: seq<u8>, lo: nat, hi: nat)
    requires lo <= hi <= |d|
    ensures WordSum(d, lo, hi) == 0 <==> forall i | lo <= i < hi :: d[i] == 0
    decreases hi - lo
  {
    hide Even;
    if lo < hi {
      EvenIsNotOne(hi - lo);
      var k := if Even(hi - lo) then hi - 2 else hi - 1;
      ZeroSum(d, lo, k);
      forall i | lo <= i < hi && d[i] != 0 ensures WordSum(d, lo, hi) > 0 {
        if i < k {
          assert WordSum(d, lo, k) > 0;
        }
      }
    }
  }

  lemma EvenIsNotOne(n: nat)
    ensures Even(n) ==> n != 1
  {
  }

  /**
   * A request whose message sums to 0xffff gives a reply whose message sums to 0xffff,
   * unless the reply is all zero; that happens exactly when the request holds nothing
   * but its type and its checksum.
   */
  lemma ReplyVerifies(d: seq<u8>, e: seq<u8>, b: nat, len: nat, host: seq<u8>)
    requires 24 <= len && b + len <= |d| && |e| == |d| && |host| == 4
    requires d[b + 20] == ICMP_ECHO && Answers(d, e, b, len, host)
    requires Fold(MessageSum(d, b, len)) == 0xffff
    ensures Fold(MessageSum(e, b, len)) == 0xffff <==>
            exists i :: b + 20 < i < b + len && i != b + 22 && i != b + 23 && d[i] != 0
  {
    FoldMeans(MessageSum(d, b, len));
    FoldMeans(MessageSum(e, b, len));
    ZeroSum(e, b + 20, b + len);
    if forall i | b + 20 < i < b + len && i != b + 22 && i != b + 23 :: d[i] == 0 {
      EmptyRequest(d, b, len);
      assert Load16(d, b + 22) == 0xfff7;
      assert forall i | b + 20 <= i < b + len :: e[i] == 0;
    } else {
      var i :| b + 20 < i < b + len && i != b + 22 && i != b + 23 && d[i] != 0;
      assert e[i] == d[i];
    }
  }

  lemma SmallEven()
    ensures Even(2) && Even(4) && Even(10)
  {
  }

  lemma OnlySum(w: u16)
    requires (0x800 + w) % 0xffff == 0
    ensures w == 0xf7ff
  {
  }

  /** The only valid request with nothing in it has checksum 0xf7ff. */
  lemma EmptyRequest(d: seq<u8>, b: nat, len: nat)
    requires 24 <= len && b + len <= |d| && d[b + 20] == ICMP_ECHO
    requires forall i | b + 20 < i < b + len && i != b + 22 && i != b + 23 :: d[i] == 0
    requires MessageSum(d, b, len) % 0xffff == 0
    ensures d[b + 22] == 0xf7 && d[b + 23] == 0xff
  {
    hide WordSum;
    hide Even;
    SmallEven();
    ZeroSum(d, b + 24, b + len);
    WordSumSplit(d, b + 20, b + 24, b + len);
    OneMoreWord(d, b + 20, b + 22);
    OneWord(d, b + 20);
    OnlySum(Pair(d[b + 22], d[b + 23]));
  }

  /** Type, code and the checksum of nothing else behind any IP header. */
  predicate BareMessage(d: seq<u8>) {
    |d| == 24 && d[20] == ICMP_ECHO && d[21] == 0 && d[22] == 0xf7 && d[23] == 0xff
  }

  /** Such a request is valid, and every answer to it is a message of zeros whose sum is 0. */
  lemma BareRequestFails(d: seq<u8>, e: seq<u8>, host: seq<u8>)
    requires BareMessage(d) && |host| == 4 && |e| == 24
    ensures Fold(MessageSum(d, 0, 24)) == 0xffff
    ensures Answers(d, e, 0, 24, host) ==> e[20..24] == [0, 0, 0, 0] && Fold(MessageSum(e, 0, 24)) == 0
  {
    hide Answers;
    hide WordSum;
    BareSum(d);
    FoldMeans(0xffff);
    if Answers(d, e, 0, 24, host) {
      BareAnswer(d, e, host);
      ZeroSum(e, 20, 24);
      FoldMeans(0);
    }
  }

  /** A header of 20 bytes with its checksum filled in. */
  function Completed(h: seq<u8>): (g: seq<u8>)
    requires |h| == IPH_LEN
    ensures |g| == IPH_LEN && forall i | 0 <= i < IPH_LEN && i != 10 && i != 11 :: g[i] == h[i]
  {
    var v: u16 := 0xffff - Returned(Fold(WordSum(h, 0, IPH_LEN)));
    h[10 := LowByte(v)][11 := HighByte(v)]
  }

  lemma CompletedVerifies(h: seq<u8>)
    requires |h| == IPH_LEN && h[10] == 0 && h[11] == 0
    ensures Returned(Fold(WordSum(Completed(h), 0, IPH_LEN))) == 0xffff
  {
    hide WordSum;
    hide Fold;
    hide Returned;
    hide LowByte;
    hide HighByte;
    SmallEven();
    FillCompletes(h, Completed(h), 0, IPH_LEN, 10, 0);
  }

  function BareHeader(source: seq<u8>, host: seq<u8>): (h: seq<u8>)
    requires |source| == 4 && |host| == 4
    ensures |h| == IPH_LEN && h[12..16] == source && h[16..20] == host
  {
    [0x45, 0, 0, 24, 0, 0, 0, 0, 64, 1, 0, 0] + source + host
  }

  /** The packet between any two addresses. */
  function BareRequest(source: seq<u8>, host: seq<u8>): (d: seq<u8>)
    requires |source| == 4 && |host| == 4
    ensures |d| == 24
  {
    Completed(BareHeader(source, host)) + [ICMP_ECHO, 0, 0xf7, 0xff]
  }

  /** Its header verifies as well, so it is one the stack answers. */
  lemma BareRequestAccepted(source: seq<u8>, host: seq<u8>)
    requires |source| == 4 && |host| == 4
    ensures var d := BareRequest(source, host);
            BareMessage(d) && LenField(d, 0) == 24 && IpAccepts(d, 0) && d[12..16] == source && d[16..20] == host
  {
    hide WordSum;
    hide Fold;
    hide Returned;
    hide Completed;
    var h, d := BareHeader(source, host), BareRequest(source, host);
    CompletedVerifies(h);
    WordSumMoved(Completed(h), 0, IPH_LEN, d, 0);
    assert d[12..16] == h[12..16] && d[16..20] == h[16..20];
  }

  lemma BareSum(d: seq<u8>)
    requires BareMessage(d)
    ensures MessageSum(d, 0, 24) == 0xffff
  {
    OneMoreWord(d, 20, 20);
    OneMoreWord(d, 20, 22);
  }

  lemma BareAnswer(d: seq<u8>, e: seq<u8>, host: seq<u8>)
    requires BareMessage(d) && |e| == 24 && |host| == 4 && Answers(d, e, 0, 24, host)
    ensures e[20..24] == [0, 0, 0, 0]
  {
    hide IpAccepts;
    hide WordSum;
    assert Load16(d, 22) == 0xfff7;
    assert e[21] == d[21];
  }
}
