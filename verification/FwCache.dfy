/** The forwarding cache (uip-fw.c): which packets have been forwarded recently. */
module FwCache {
  import opened Words

  const FW_TIME: u16 := 20

  /** The header fields that identify a packet. */
  datatype Key = Key(ipid: u16, src: Ip, dest: Ip, proto: u8, len: u16, offset: u16)

  /** struct fwcache_entry; an entry is live while its timer runs. */
  datatype Entry = Entry(timer: u16, key: Key)

  predicate Known(cache: seq<Entry>, key: Key) {
    exists k | 0 <= k < |cache| :: cache[k].timer != 0 && cache[k].key == key
  }

  predicate TimersOk(cache: seq<Entry>) { forall k | 0 <= k < |cache| :: cache[k].timer <= FW_TIME }

  /** The search of fwcache_register from `i` on; `best` has timer `oldest`. */
  function VictimFrom(cache: seq<Entry>, i: nat, best: Option<nat>, oldest: u16): (r: Option<nat>)
    requires i <= |cache| && (best.Some? ==> best.value < i)
    ensures r.Some? ==> r.value < |cache|
    decreases |cache| - i
  {
    if i == |cache| then best
    else if cache[i].timer == 0 then Some(i)
    else if cache[i].timer <= oldest then VictimFrom(cache, i + 1, Some(i), cache[i].timer)
    else VictimFrom(cache, i + 1, best, oldest)
  }

  /** Slot `v` is overwritten: the first free one, or else the last of those with the least time left. */
  predicate Chosen(cache: seq<Entry>, v: nat) {
    && v < |cache|
    && if cache[v].timer == 0 then forall k | 0 <= k < v :: cache[k].timer > 0
       else (forall k | 0 <= k < |cache| :: 0 < cache[v].timer <= cache[k].timer)
            && (forall k | v < k < |cache| :: cache[v].timer < cache[k].timer)
  }

  lemma {:induction false} VictimMeaning(cache: seq<Entry>, i: nat, best: Option<nat>, oldest: u16)
    requires i <= |cache| && TimersOk(cache) && (best.Some? ==> best.value < i)
    requires if best.Some? then oldest == cache[best.value].timer else oldest == FW_TIME && i == 0
    requires forall k | 0 <= k < i :: 0 < cache[k].timer && oldest <= cache[k].timer
    requires best.Some? ==> forall k | best.value < k < i :: oldest < cache[k].timer
    ensures var r := VictimFrom(cache, i, best, oldest);
            if r.Some? then Chosen(cache, r.value) else |cache| == 0
    decreases |cache| - i
  {
    if i < |cache| && cache[i].timer != 0 {
      if cache[i].timer <= oldest {
        VictimMeaning(cache, i + 1, Some(i), cache[i].timer);
      } else {
        VictimMeaning(cache, i + 1, best, oldest);
      }
    }
  }

  /** The slot that fwcache_register overwrites. */
  function Victim(cache: seq<Entry>): Option<nat> { VictimFrom(cache, 0, None, FW_TIME) }

  lemma VictimExactly(cache: seq<Entry>, v: nat)
    requires TimersOk(cache)
    ensures Victim(cache) == Some(v) <==> Chosen(cache, v)
    ensures Victim(cache).None? <==> cache == []
  {
    VictimMeaning(cache, 0, None, FW_TIME);
  }

  /** fwcache_register. */
  function Registered(cache: seq<Entry>, key: Key): (r: seq<Entry>)
    ensures |r| == |cache|
  {
    var v := VictimFrom(cache, 0, None, FW_TIME);
    if v.Some? then cache[v.value := Entry(FW_TIME, key)] else cache
  }

  /** uip_fw_periodic, `n` times. */
  function Ticked(cache: seq<Entry>, n: nat): (r: seq<Entry>)
    ensures |r| == |cache|
    decreases n
  {
    if n == 0 then cache
    else
      var c := Ticked(cache, n - 1);
      seq(|c|, k requires 0 <= k < |c| => if c[k].timer > 0 then c[k].(timer := c[k].timer - 1) else c[k])
  }

  lemma {:induction false} TickedTimers(cache: seq<Entry>, n: nat, k: nat)
    requires k < |cache|
    ensures Ticked(cache, n)[k].key == cache[k].key
    ensures Ticked(cache, n)[k].timer as int == if cache[k].timer > n then cache[k].timer - n else 0
    decreases n
  {
    if n > 0 { TickedTimers(cache, n - 1, k); }
  }

  lemma TimersKept(cache: seq<Entry>, key: Key)
    requires TimersOk(cache)
    ensures TimersOk(Registered(cache, key)) && TimersOk(Ticked(cache, 1))
  {
    forall k | 0 <= k < |cache| ensures Ticked(cache, 1)[k].timer <= FW_TIME {
      TickedTimers(cache, 1, k);
    }
  }

  // ---------------------------------------------------------------- runs

  /** A packet is forwarded, or a period passes. */
  datatype Op = Forwards(key: Key) | Period

  function After(cache: seq<Entry>, ops: seq<Op>): (r: seq<Entry>)
    ensures |r| == |cache|
    decreases |ops|
  {
    if ops == [] then cache
    else
      var c := After(cache, ops[..|ops| - 1]);
      match ops[|ops| - 1]
      case Forwards(key) => Registered(c, key)
      case Period => Ticked(c, 1)
  }

  function Periods(ops: seq<Op>): nat
    decreases |ops|
  {
    if ops == [] then 0 else Periods(ops[..|ops| - 1]) + (if ops[|ops| - 1].Period? then 1 else 0)
  }

  /** Slot `v` is overwritten by none of the operations. */
  predicate Spared(cache: seq<Entry>, ops: seq<Op>, v: nat) {
    forall j | 0 <= j < |ops| && ops[j].Forwards? :: Victim(After(cache, ops[..j])) != Some(v)
  }

  lemma SparedPrefix(cache: seq<Entry>, ops: seq<Op>, v: nat)
    requires ops != [] && Spared(cache, ops, v)
    ensures Spared(cache, ops[..|ops| - 1], v)
    ensures ops[|ops| - 1].Forwards? ==> Victim(After(cache, ops[..|ops| - 1])) != Some(v)
  {
    var init := ops[..|ops| - 1];
    forall j | 0 <= j < |init| && init[j].Forwards? ensures Victim(After(cache, init[..j])) != Some(v) {
      assert init[..j] == ops[..j] && ops[j] == init[j];
    }
  }

  /** An entry counts down through any packets forwarded meanwhile until one of them takes its slot. */
  lemma {:induction false} EntryLasts(cache: seq<Entry>, ops: seq<Op>, v: nat)
    requires v < |cache| && Spared(cache, ops, v)
    ensures After(cache, ops)[v].key == cache[v].key
    ensures After(cache, ops)[v].timer as int == if cache[v].timer > Periods(ops) then cache[v].timer - Periods(ops) else 0
    decreases |ops|
  {
    if ops != [] {
      var init := ops[..|ops| - 1];
      SparedPrefix(cache, ops, v);
      EntryLasts(cache, init, v);
      if ops[|ops| - 1].Period? {
        TickedTimers(After(cache, init), 1, v);
      }
    }
  }

  /**
   * A forwarded packet is recognised for the next 19 periods, whatever else is forwarded,
   * unless a later packet takes its slot: the first free one, or if all entries are live the
   * last of those with the least time left.
   */
  lemma RegisteredIsKnown(cache: seq<Entry>, key: Key, ops: seq<Op>)
    requires cache != [] && TimersOk(cache)
    ensures var c := Registered(cache, key);
            && Victim(cache).Some? && c[Victim(cache).value] == Entry(FW_TIME, key)
            && var v := Victim(cache).value;
            Spared(c, ops, v) ==>
              && (Periods(ops) < 20 ==> Known(After(c, ops), key))
              && (After(c, ops)[v].timer == 0 <==> Periods(ops) >= 20)
  {
    hide Spared;
    VictimExactly(cache, 0);
    var c, v := Registered(cache, key), Victim(cache).value;
    if Spared(c, ops, v) {
      EntryLasts(c, ops, v);
      assert Periods(ops) < FW_TIME ==> After(c, ops)[v].timer != 0 && After(c, ops)[v].key == key;
    }
  }

  /** What forwarding one packet leaves known: itself, and what is held outside the slot it takes. */
  lemma RegisteringForgets(cache: seq<Entry>, key: Key, other: Key)
    requires cache != [] && TimersOk(cache)
    ensures Known(Registered(cache, key), other) <==>
              other == key || exists k | 0 <= k < |cache| :: !Chosen(cache, k) && cache[k].timer != 0 && cache[k].key == other
  {
    VictimExactly(cache, 0);
    var v := Victim(cache).value;
    forall k: nat ensures Chosen(cache, k) <==> k == v {
      VictimExactly(cache, k);
    }
    var r := Registered(cache, key);
    assert r[v] == Entry(FW_TIME, key);
    assert forall k | 0 <= k < |cache| && k != v :: r[k] == cache[k];
    if k :| 0 <= k < |cache| && !Chosen(cache, k) && cache[k].timer != 0 && cache[k].key == other {
      assert r[k].key == other;
    }
    if k :| 0 <= k < |r| && r[k].timer != 0 && r[k].key == other && k != v {
      assert !Chosen(cache, k);
    }
  }

  /**
   * Packets forwarded in one period into a full cache overwrite one another: the packet
   * forwarded last is forgotten at once by the next, and its duplicate is forwarded again.
   */
  lemma NewestForgottenFirst(cache: seq<Entry>, a: Key, b: Key)
    requires cache != [] && a != b && forall k | 0 <= k < |cache| :: cache[k].timer == FW_TIME && cache[k].key != a
    ensures Known(Registered(cache, a), a) && !Known(Registered(Registered(cache, a), b), a)
  {
    var v := |cache| - 1;
    VictimExactly(cache, v);
    var c := Registered(cache, a);
    assert c[v] == Entry(FW_TIME, a);
    VictimExactly(c, v);
  }
}
