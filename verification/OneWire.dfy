/**
 * The 1-Wire master (onewire.c) on a bus with a stable set of devices. The bus is the
 * interface of ow_reset and ow_bit_io: a wired AND of what the selected devices send.
 */
module OneWire {
  import opened Words
  import opened RomCode
  import opened SearchTree

  const OW_SEARCH_ROM: u8 := 0xF0
  const OW_SEARCH_FIRST: u8 := 0xFF
  const OW_PRESENCE_ERR: u8 := 0xFF
  const OW_DATA_ERR: u8 := 0xFE
  const OW_LAST_DEVICE: u8 := 0
  const OW_ROMCODE_SIZE: nat := 8

  /** The command SEARCH ROM as it is sent: four zeros and four ones. */
  lemma SearchRomBits()
    ensures ByteBits(OW_SEARCH_ROM) == [false, false, false, false, true, true, true, true]
  {
    assert LowBits(0xF0, 8) == [false, false, false, false, true, true, true, true];
  }

  /** What the devices wait for: command bits, or the three slots of one search position. */
  datatype Phase = Command(bits: seq<bool>) | SendBit(pos: nat) | SendComplement(pos: nat) | Select(pos: nat) | Idle

  class Bus {
    const attached: set<Code>
    const shorted: bool
    /** The devices that can be heard: none on a line held low. */
    const devices: set<Code> := if shorted then {} else attached
    var selected: set<Code>
    var phase: Phase

    constructor (attached: set<Code>, shorted: bool)
      ensures this.attached == attached && this.shorted == shorted && phase == Idle
    {
      this.attached, this.shorted, selected, phase := attached, shorted, {}, Idle;
    }

    /** ow_reset: nonzero when no device pulls the line low, or when it stays low. */
    method Reset() returns (err: bool)
      modifies this
      ensures err <==> attached == {} || shorted
      ensures err <==> devices == {}
      ensures phase == Command([]) && selected == {}
    {
      selected, phase := {}, Command([]);
      err := attached == {} && !shorted;
      if shorted {
        err := true;
      }
    }

    /** The phase after the command bits so far. */
    static function AfterBits(bits: seq<bool>): Phase {
      if |bits| < 8 then Command(bits)
      else if bits == ByteBits(OW_SEARCH_ROM) then SendBit(0)
      else Idle
    }

    /** ow_bit_io: the line is high only if the master and every sending device leave it high. */
    method BitIo(b: bool) returns (r: bool)
      modifies this
      ensures match old(phase)
              case Command(bits) =>
                && r == b && phase == AfterBits(bits + [b])
                && selected == (if phase == SendBit(0) then devices else old(selected))
              case SendBit(pos) =>
                && r == (b && forall c | c in selected && pos < 64 :: c[pos])
                && phase == SendComplement(pos) && selected == old(selected)
              case SendComplement(pos) =>
                && r == (b && forall c | c in selected && pos < 64 :: !c[pos])
                && phase == Select(pos) && selected == old(selected)
              case Select(pos) =>
                && r == b
                && phase == (if pos + 1 < 64 then SendBit(pos + 1) else Idle)
                && selected == (set c | c in old(selected) && pos < 64 && c[pos] == b)
              case Idle => r == b && phase == Idle && selected == old(selected)
    {
      r := b;
      match phase
      case Command(bits) =>
        phase := AfterBits(bits + [b]);
        if phase == SendBit(0) {
          selected := devices;
        }
      case SendBit(pos) =>
        if exists c :: c in selected && pos < 64 && !c[pos] {
          r := false;
        }
        phase := SendComplement(pos);
      case SendComplement(pos) =>
        if exists c :: c in selected && pos < 64 && c[pos] {
          r := false;
        }
        phase := Select(pos);
      case Select(pos) =>
        selected := set c | c in selected && pos < 64 && c[pos] == b;
        phase := if pos + 1 < 64 then SendBit(pos + 1) else Idle;
      case Idle =>
    }
  }

  /** ow_byte_wr for a command byte: eight bit slots, the byte comes back unchanged. */
  method ByteWr(bus: Bus, b0: u8) returns (b: u8)
    requires bus.phase == Command([])
    modifies bus
    ensures bus.phase == Bus.AfterBits(ByteBits(b0))
    ensures bus.phase == SendBit(0) ==> bus.selected == bus.devices
    ensures ByteBits(b) == ByteBits(b0)
  {
    hide ByteBits;
    b := b0;
    var i := 8;
    ghost var bits := ByteBits(b0);
    while i > 0
      invariant 0 <= i <= 8
      invariant ByteBits(b) == bits[8 - i..] + bits[..8 - i]
      invariant bus.phase == Bus.AfterBits(bits[..8 - i])
      invariant bus.phase == SendBit(0) ==> bus.selected == bus.devices
    {
      ghost var t := 8 - i;
      ShiftInBits(b, bits[t]);
      assert ByteBits(b)[0] == bits[t];
      assert bits[..t + 1] == bits[..t] + [bits[t]];
      var j := bus.BitIo(b % 2 == 1);
      b := ShiftIn(b, j);
      i := i - 1;
    }
    assert bits[..8] == bits;
  }

  lemma {:induction false} BitOfByte(s: seq<u8>, k: nat, t: nat)
    requires k < |s| && t < 8
    ensures BytesBits(s)[8 * k + t] == ByteBits(s[k])[t]
    decreases |s|
  {
    if k < |s| - 1 {
      BitOfByte(s[..|s| - 1], k, t);
    }
  }

  lemma ForkOfLonger(devices: set<Code>, path: seq<bool>, b: bool)
    requires |path| < 64
    ensures LastFork(devices, path + [b]) ==
            if b && Has(devices, path, false) then 64 - |path| else LastFork(devices, path)
  {
    assert (path + [b])[..|path|] == path;
  }

  lemma MatchingLonger(devices: set<Code>, path: seq<bool>, b: bool)
    requires |path| < 64
    ensures Matching(devices, path + [b]) == set c | c in Matching(devices, path) && c[|path|] == b
  {
    forall c: Code ensures path + [b] <= c <==> path <= c && c[|path|] == b {
      if path <= c && c[|path|] == b { assert c[..|path| + 1] == path + [b]; }
    }
  }

  /**
   * One search position: read the bit and its complement, choose, write the choice.
   * `i` counts the positions left, `idBit` is the bit of the previous code there.
   */
  method SearchPosition(bus: Bus, diff: u8, i: u8, idBit: bool, nextDiff: u8, ghost prev: Code, ghost path: seq<bool>)
    returns (dataError: bool, b: bool, next: u8)
    requires |path| < 64 && i as int == 64 - |path| && idBit == prev[|path|]
    requires bus.phase == SendBit(|path|)
    requires bus.selected == Matching(bus.devices, path) && bus.selected != {}
    requires nextDiff == LastFork(bus.devices, path)
    modifies bus
    ensures !dataError
    ensures b == Choice(bus.devices, diff, prev, path)
    ensures next == LastFork(bus.devices, path + [b])
    ensures bus.selected == Matching(bus.devices, path + [b])
    ensures bus.phase == if |path| < 63 then SendBit(|path| + 1) else Idle
  {
    next := nextDiff;
    ghost var some :| some in bus.selected;
    assert Has(bus.devices, path, some[|path|]);
    b := bus.BitIo(true);
    assert b <==> !Has(bus.devices, path, false);
    var complement := bus.BitIo(true);
    assert complement <==> !Has(bus.devices, path, true);
    dataError := false;
    if complement {
      if b {
        return true, b, next;
      }
    } else if !b {
      if diff > i || (idBit && diff != i) {
        b := true;
        next := i;
      }
    }
    ForkOfLonger(bus.devices, path, b);
    MatchingLonger(bus.devices, path, b);
    var written := bus.BitIo(b);
  }

  /** The code bits known after `done` bytes and `t` bits of the next one. */
  lemma IdBitAt(id: seq<u8>, prev: Code, k: nat, t: nat)
    requires |id| == 8 && prev == IdCode(id) && k < 8 && t < 8
    ensures ByteBits(id[k])[t] == prev[8 * k + t]
  {
    BitOfByte(id, k, t);
  }

  /** The pass has reached position `n` of its path. */
  ghost predicate Reached(bus: Bus, diff: u8, prev: Code, n: nat, next: u8)
    reads bus
  {
    && n <= 64
    && bus.phase == (if n < 64 then SendBit(n) else Idle)
    && bus.selected == Matching(bus.devices, Path(bus.devices, diff, prev, n))
    && next == LastFork(bus.devices, Path(bus.devices, diff, prev, n))
  }

  /**
   * The byte under the search after `t` of its positions: what is left of the previous
   * code's byte, then the bits found.
   */
  ghost predicate Register(b: u8, prev: Code, path: seq<bool>, k: nat, t: nat) {
    && k < 8 && t <= 8 && |path| == 8 * k + t
    && ByteBits(b) == prev[8 * k + t..8 * k + 8] + path[8 * k..]
  }

  lemma RegisterStep(b: u8, prev: Code, path: seq<bool>, k: nat, t: nat, bit: bool)
    requires Register(b, prev, path, k, t) && t < 8
    ensures (b % 2 == 1) == prev[8 * k + t]
    ensures Register(ShiftIn(b, bit), prev, path + [bit], k, t + 1)
  {
    hide ByteBits;
    ShiftInBits(b, bit);
    var rest := prev[8 * k + t..8 * k + 8];
    assert rest[1..] == prev[8 * k + t + 1..8 * k + 8];
    assert (path + [bit])[8 * k..] == path[8 * k..] + [bit];
    assert ByteBits(b)[1..] == rest[1..] + path[8 * k..];
  }

  lemma PathStep(devices: set<Code>, diff: u8, prev: Code, n: nat)
    requires n < 64
    ensures var path := Path(devices, diff, prev, n);
            Path(devices, diff, prev, n + 1) == path + [Choice(devices, diff, prev, path)]
  {
  }

  /** The eight positions of one byte of the code. */
  method SearchByte(bus: Bus, diff: u8, id: array<u8>, k: nat, nextDiff: u8, ghost prev: Code) returns (dataError: bool, next: u8)
    requires id.Length == 8 && k < 8 && bus.devices != {}
    requires Register(id[k], prev, Path(bus.devices, diff, prev, 8 * k), k, 0)
    requires Reached(bus, diff, prev, 8 * k, nextDiff)
    modifies bus, id
    ensures forall m | 0 <= m < 8 && m != k :: id[m] == old(id[m])
    ensures !dataError
    ensures Register(id[k], prev, Path(bus.devices, diff, prev, 8 * k + 8), k, 8)
    ensures Reached(bus, diff, prev, 8 * k + 8, next)
  {
    hide Choice;
    hide LastFork;
    hide Matching;
    hide Register;
    hide Path;
    next := nextDiff;
    var j := 8;
    while j > 0
      invariant 0 <= j <= 8
      invariant Reached(bus, diff, prev, 8 * k + 8 - j, next)
      invariant Register(id[k], prev, Path(bus.devices, diff, prev, 8 * k + 8 - j), k, 8 - j)
      invariant forall m | 0 <= m < 8 && m != k :: id[m] == old(id[m])
    {
      ghost var n := 8 * k + 8 - j;
      ghost var path := Path(bus.devices, diff, prev, n);
      PathInTree(bus.devices, diff, prev, n);
      PathStep(bus.devices, diff, prev, n);
      RegisterStep(id[k], prev, path, k, 8 - j, Choice(bus.devices, diff, prev, path));
      var b;
      dataError, b, next := SearchPosition(bus, diff, 64 - 8 * k - (8 - j), id[k] % 2 == 1, next, prev, path);
      if dataError {
        return;
      }
      id[k] := ShiftIn(id[k], b);
      j := j - 1;
    }
    dataError := false;
  }

  lemma IdByte(id: seq<u8>, prev: Code, path: seq<bool>, k: nat)
    requires |id| == 8 && prev == IdCode(id) && k < 8 && |path| == 8 * k
    ensures Register(id[k], prev, path, k, 0)
  {
    hide ByteBits;
    forall t | 0 <= t < 8 ensures ByteBits(id[k])[t] == prev[8 * k + t] {
      IdBitAt(id, prev, k, t);
    }
    assert ByteBits(id[k]) == prev[8 * k..8 * k + 8];
  }

  /** The bytes searched so far spell the path so far. */
  lemma OneMoreByte(devices: set<Code>, diff: u8, prev: Code, before: seq<u8>, after: seq<u8>, k: nat)
    requires |before| == |after| == 8 && k < 8 && forall m | 0 <= m < k :: after[m] == before[m]
    requires BytesBits(before[..k]) == Path(devices, diff, prev, 8 * k)
    requires Register(after[k], prev, Path(devices, diff, prev, 8 * k + 8), k, 8)
    ensures BytesBits(after[..k + 1]) == Path(devices, diff, prev, 8 * k + 8)
  {
    hide ByteBits;
    hide Path;
    PathPrefix(devices, diff, prev, 8 * k, 8 * k + 8);
    assert after[..k + 1][..k] == after[..k] == before[..k];
    assert BytesBits(after[..k + 1]) == BytesBits(after[..k]) + ByteBits(after[k]);
  }

  lemma NothingSearched(bus: Bus, diff: u8, prev: Code, id: seq<u8>)
    requires bus.phase == SendBit(0) && bus.selected == bus.devices && |id| == 8
    ensures Reached(bus, diff, prev, 0, OW_LAST_DEVICE)
    ensures BytesBits(id[..0]) == Path(bus.devices, diff, prev, 8 * 0)
  {
    assert Matching(bus.devices, []) == bus.devices;
  }

  /** The two nested loops over the 64 positions. */
  method SearchPositions(bus: Bus, diff: u8, id: array<u8>) returns (r: u8)
    requires id.Length == 8 && bus.devices != {}
    requires bus.phase == SendBit(0) && bus.selected == bus.devices
    modifies bus, id
    ensures IdCode(id[..]) == FoundCode(bus.devices, diff, IdCode(old(id[..])))
    ensures r == LastFork(bus.devices, IdCode(id[..]))
  {
    hide BytesBits;
    hide IdCode;
    hide Reached;
    hide Register;
    hide Path;
    hide LastFork;
    hide FoundCode;
    var nextDiff := OW_LAST_DEVICE;
    ghost var before := id[..];
    ghost var prev := IdCode(before);
    var k := 0;
    NothingSearched(bus, diff, prev, id[..]);
    assert before[..0] == id[..0];
    while k < 8
      invariant 0 <= k <= 8
      invariant BytesBits(id[..k]) == Path(bus.devices, diff, prev, 8 * k)
      invariant forall m | k <= m < 8 :: id[m] == before[m]
      invariant Reached(bus, diff, prev, 8 * k, nextDiff)
    {
      IdByte(before, prev, Path(bus.devices, diff, prev, 8 * k), k);
      ghost var was := id[..];
      var dataError;
      dataError, nextDiff := SearchByte(bus, diff, id, k, nextDiff, prev);
      if dataError {
        return OW_DATA_ERR;
      }
      OneMoreByte(bus.devices, diff, prev, was, id[..], k);
      k := k + 1;
    }
    assert id[..8] == id[..];
    FullyReached(bus, diff, prev, nextDiff, id[..]);
    r := nextDiff;
  }

  lemma FullyReached(bus: Bus, diff: u8, prev: Code, next: u8, id: seq<u8>)
    requires Reached(bus, diff, prev, 64, next)
    requires |id| == 8 && BytesBits(id) == Path(bus.devices, diff, prev, 64)
    ensures IdCode(id) == FoundCode(bus.devices, diff, prev)
    ensures next == LastFork(bus.devices, IdCode(id))
  {
  }

  /** The code in an id buffer. */
  function CodeIn(id: array<u8>): Code
    requires id.Length == 8
    reads id
  {
    IdCode(id[..])
  }

  /** One pass of the ROM search over the previous code in `id`. */
  method RomSearch(bus: Bus, diff: u8, id: array<u8>) returns (r: u8)
    requires id.Length == 8
    modifies bus, id
    ensures bus.devices == {} ==> r == OW_PRESENCE_ERR && id[..] == old(id[..])
    ensures bus.devices != {} ==>
              && CodeIn(id) == FoundCode(bus.devices, diff, old(CodeIn(id)))
              && r == LastFork(bus.devices, CodeIn(id))
  {
    var err := bus.Reset();
    if err {
      return OW_PRESENCE_ERR;
    }
    var echo := ByteWr(bus, OW_SEARCH_ROM);
    r := SearchPositions(bus, diff, id);
  }

  /** find_sensor. */
  method FindSensor(bus: Bus, diff: u8, id: array<u8>) returns (r: u8)
    requires id.Length == 8
    modifies bus, id
    ensures bus.devices == {} ==> r == OW_PRESENCE_ERR
    ensures bus.devices != {} ==>
              && CodeIn(id) == FoundCode(bus.devices, diff, old(CodeIn(id)))
              && r == LastFork(bus.devices, CodeIn(id))
  {
    r := RomSearch(bus, diff, id);
  }

  // ---------------------------------------------------------------- all sensors

  /** How many codes the search stores: all of them, or as many as asked for. */
  function Wanted(devices: set<Code>, maxSensors: int): nat {
    if maxSensors > 255 then |devices|
    else Min(|devices|, if maxSensors < 0 then 0 else maxSensors)
  }

  /** Slot `k % 256` holds entry `k` of the list; only the last 256 entries survive. */
  predicate Stored(scan: seq<u8>, found: seq<Code>) {
    forall k: nat | k < |found| && |found| - 256 <= k :: Slot(scan, k % 256, found[k])
  }

  predicate Slot(scan: seq<u8>, s: nat, code: Code) {
    8 * s + 8 <= |scan| && IdCode(scan[8 * s..8 * s + 8]) == code
  }

  /** `after` is `before` with the eight bytes at `at` replaced by `id`. */
  predicate Written(before: seq<u8>, after: seq<u8>, at: nat, id: seq<u8>) {
    && |id| == 8 && at + 8 <= |before| == |after|
    && (forall m | 0 <= m < 8 :: after[at + m] == id[m])
    && (forall m | 0 <= m < |after| && !(at <= m < at + 8) :: after[m] == before[m])
  }

  method CopyId(scan: array<u8>, at: nat, id: array<u8>)
    requires id.Length == 8 && at + 8 <= scan.Length && scan != id
    modifies scan
    ensures Written(old(scan[..]), scan[..], at, id[..])
  {
    var i := 0;
    while i < 8
      invariant 0 <= i <= 8
      invariant forall m | 0 <= m < i :: scan[at + m] == id[m]
      invariant forall m | 0 <= m < scan.Length && !(at <= m < at + i) :: scan[m] == old(scan[m])
    {
      scan[at + i] := id[i];
      i := i + 1;
    }
  }

  lemma OtherSlotKept(before: seq<u8>, after: seq<u8>, a: nat, b: nat, id: seq<u8>)
    requires Written(before, after, 8 * a, id) && a != b && 8 * b + 8 <= |before|
    ensures after[8 * b..8 * b + 8] == before[8 * b..8 * b + 8]
  {
    assert 8 * b + 8 <= 8 * a || 8 * a + 8 <= 8 * b;
  }

  lemma SlotsDiffer(k: nat, n: nat)
    requires k < n < k + 256
    ensures k % 256 != n % 256
  {
  }

  lemma StoredMore(before: seq<u8>, after: seq<u8>, found: seq<Code>, id: seq<u8>, x: Code)
    requires Stored(before, found)
    requires Written(before, after, 8 * (|found| % 256), id) && IdCode(id) == x
    ensures Stored(after, found + [x])
  {
    hide IdCode;
    hide Written;
    var n := |found|;
    WrittenSlot(before, after, n % 256, id);
    forall k: nat | k < n && n + 1 - 256 <= k ensures Slot(after, k % 256, found[k]) {
      assert Slot(before, k % 256, found[k]);
      SlotsDiffer(k, n);
      OtherSlotKept(before, after, n % 256, k % 256, id);
    }
    assert Slot(after, n % 256, x);
  }

  lemma WrittenSlot(before: seq<u8>, after: seq<u8>, a: nat, id: seq<u8>)
    requires Written(before, after, 8 * a, id)
    ensures |after| == |before| && 8 * a + 8 <= |after| && after[8 * a..8 * a + 8] == id
  {
  }

  ghost predicate StoredIn(scan: array<u8>, found: seq<Code>)
    reads scan
  {
    Stored(scan[..], found)
  }

  /** The copying loop of search_sensors adds one entry. */
  method StoreId(scan: array<u8>, n: u8, id: array<u8>, ghost found: seq<Code>)
    requires id.Length == 8 && 8 * n + 8 <= scan.Length && scan != id
    requires n == |found| % 256 && StoredIn(scan, found)
    modifies scan
    ensures StoredIn(scan, found + [CodeIn(id)])
  {
    ghost var before := scan[..];
    CopyId(scan, 8 * n, id);
    StoredMore(before, scan[..], found, id[..], CodeIn(id));
  }

  /** The list so far, the code in the id buffer and the value of diff fit together. */
  ghost predicate Progress(devices: set<Code>, found: seq<Code>, code: Code, diff: u8) {
    && Listing(devices, found) && |found| <= |devices|
    && (found == [] ==> diff == OW_SEARCH_FIRST)
    && (found != [] ==> code == found[|found| - 1] && diff == LastFork(devices, code))
  }

  lemma ProgressStep(devices: set<Code>, found: seq<Code>, code: Code, diff: u8, x: Code)
    requires devices != {} && Progress(devices, found, code, diff) && diff != OW_LAST_DEVICE
    requires x == FoundCode(devices, diff, code)
    ensures Progress(devices, found + [x], x, LastFork(devices, x))
    ensures LastFork(devices, x) == OW_LAST_DEVICE <==> |found| + 1 == |devices|
    ensures |found| + 1 <= |devices|
  {
    hide LastFork;
    hide FoundCode;
    hide TopOf;
    ListingIsTop(devices, found);
    if found == [] {
      FirstOfList(devices, code);
      assert found + [x] == [x];
    } else {
      NextOfList(devices, found);
    }
    TopIsListing(devices, found, x);
    ListComplete(devices, found + [x]);
  }

  lemma ProgressComplete(devices: set<Code>, found: seq<Code>, code: Code, diff: u8)
    requires Progress(devices, found, code, diff)
    ensures Listing(devices, found)
    ensures diff == OW_LAST_DEVICE ==> |found| == |devices|
  {
    ListingIsTop(devices, found);
    if found != [] {
      ListComplete(devices, found);
    }
  }

  lemma NothingYet(devices: set<Code>, code: Code, scan: array<u8>)
    ensures Progress(devices, [], code, OW_SEARCH_FIRST) && StoredIn(scan, [])
  {
  }

  lemma NoDevices(devices: set<Code>, found: seq<Code>, code: Code, diff: u8)
    requires devices == {} && Progress(devices, found, code, diff)
    ensures found == [] && Listing(devices, found)
  {
  }

  /** The search stops with every device stored, or with as many as there is room for. */
  lemma WantedReached(devices: set<Code>, maxSensors: int, n: nat, counter: u8, all: bool)
    requires n <= |devices| && (all ==> n == |devices|) && counter == n % 256
    requires 0 < maxSensors <= 255 ==> n <= maxSensors
    requires maxSensors <= 0 ==> n == 0
    requires all || counter >= maxSensors
    ensures n == Wanted(devices, maxSensors)
  {
  }

  lemma CountWraps(n: nat)
    ensures (n % 256 + 1) % 256 == (n + 1) % 256
  {
  }

  /**
   * search_sensors: `found` is the list of codes in the order of the search. Both
   * counters are 8 bits wide, so the result is the number stored modulo 256.
   */
  method SearchSensors(bus: Bus, maxSensors: int, scan: array<u8>) returns (nSensors: u8, ghost found: seq<Code>)
    requires 8 * Min(maxSensors, 256) <= scan.Length
    modifies bus, scan
    ensures Listing(bus.devices, found) && |found| == Wanted(bus.devices, maxSensors)
    ensures nSensors == |found| % 256 && StoredIn(scan, found)
  {
    hide Path;
    hide Progress;
    hide FoundCode;
    hide LastFork;
    hide StoredIn;
    hide CodeIn;
    hide Listing;
    hide Wanted;
    var id := new u8[OW_ROMCODE_SIZE];
    nSensors := 0;
    found := [];
    var diff := OW_SEARCH_FIRST;
    ghost var code := CodeIn(id);
    NothingYet(bus.devices, code, scan);
    while diff != OW_LAST_DEVICE && nSensors < maxSensors
      invariant code == CodeIn(id) && Progress(bus.devices, found, code, diff)
      invariant StoredIn(scan, found) && nSensors == |found| % 256
      invariant 0 < maxSensors <= 255 ==> |found| <= maxSensors
      invariant maxSensors <= 0 ==> found == []
      invariant diff == OW_LAST_DEVICE ==> |found| == |bus.devices|
      invariant |found| <= |bus.devices|
      decreases |bus.devices| - |found|
    {
      ghost var asked := diff;
      diff := FindSensor(bus, diff, id);
      if diff == OW_PRESENCE_ERR {
        NoDevices(bus.devices, found, code, asked);
        WantedReached(bus.devices, maxSensors, 0, 0, true);
        return;
      }
      if diff == OW_DATA_ERR {
        break;
      }
      ghost var x := CodeIn(id);
      ProgressStep(bus.devices, found, code, asked, x);
      StoreId(scan, nSensors, id, found);
      CountWraps(|found|);
      found, code := found + [x], x;
      nSensors := (nSensors + 1) % 256;
    }
    ProgressComplete(bus.devices, found, code, diff);
    WantedReached(bus.devices, maxSensors, |found|, nSensors, diff == OW_LAST_DEVICE);
  }
}
