/**
 * The 1-Wire ROM search as a walk down the tree of codes: which branch every pass
 * takes, and why successive passes list all codes exactly once.
 */
module SearchTree {
  import opened Words
  import opened RomCode

  /** The devices that are still selected after the bits of `path`. */
  function Matching(devices: set<Code>, path: seq<bool>): set<Code> {
    set c | c in devices && path <= c
  }

  /** Some selected device has bit `b` next. */
  predicate Has(devices: set<Code>, path: seq<bool>, b: bool) {
    |path| < 64 && exists c :: c in Matching(devices, path) && c[|path|] == b
  }

  /** The bit written at position |path|; `i` counts the remaining positions as the code does. */
  function Choice(devices: set<Code>, diff: u8, prev: Code, path: seq<bool>): bool
    requires |path| < 64
  {
    var i := 64 - |path|;
    if Has(devices, path, false) && Has(devices, path, true) then
      diff > i || (prev[|path|] && diff != i)
    else Has(devices, path, true)
  }

  /** The first `n` bits of the code found by one pass. */
  function Path(devices: set<Code>, diff: u8, prev: Code, n: nat): (p: seq<bool>)
    requires n <= 64
    ensures |p| == n
    decreases n
  {
    if n == 0 then []
    else
      var p := Path(devices, diff, prev, n - 1);
      p + [Choice(devices, diff, prev, p)]
  }

  /** Where the last 1-branch with a 0-alternative was taken, as the count `i`; 0 if nowhere. */
  function LastFork(devices: set<Code>, path: seq<bool>): (d: u8)
    requires |path| <= 64
    ensures d <= 64
    decreases |path|
  {
    if path == [] then 0
    else
      var q := |path| - 1;
      if path[q] && Has(devices, path[..q], false) then 64 - q else LastFork(devices, path[..q])
  }

  function FoundCode(devices: set<Code>, diff: u8, prev: Code): Code { Path(devices, diff, prev, 64) }

  // ---------------------------------------------------------------- one pass

  lemma HasWitness(devices: set<Code>, c: Code, n: nat)
    requires c in devices && n < 64
    ensures Has(devices, c[..n], c[n])
  {
    assert c in Matching(devices, c[..n]);
  }

  /** The walk never leaves the tree: the path is always a prefix of some device. */
  lemma {:induction false} PathInTree(devices: set<Code>, diff: u8, prev: Code, n: nat)
    requires devices != {} && n <= 64
    ensures Matching(devices, Path(devices, diff, prev, n)) != {}
    decreases n
  {
    if n == 0 {
      var c :| c in devices;
      assert c in Matching(devices, []);
    } else {
      var p := Path(devices, diff, prev, n - 1);
      PathInTree(devices, diff, prev, n - 1);
      var c :| c in Matching(devices, p);
      assert c[|p|] == true || c[|p|] == false;
      assert Has(devices, p, c[|p|]);
      var b := Choice(devices, diff, prev, p);
      var d :| d in Matching(devices, p) && d[|p|] == b;
      assert p + [b] <= d;
      assert d in Matching(devices, p + [b]);
    }
  }

  lemma FoundIsDevice(devices: set<Code>, diff: u8, prev: Code)
    requires devices != {}
    ensures FoundCode(devices, diff, prev) in devices
  {
    PathInTree(devices, diff, prev, 64);
    var c :| c in Matching(devices, Path(devices, diff, prev, 64));
    assert c == FoundCode(devices, diff, prev);
  }

  /** Later positions of the path extend earlier ones. */
  lemma {:induction false} PathPrefix(devices: set<Code>, diff: u8, prev: Code, m: nat, n: nat)
    requires m <= n <= 64
    ensures Path(devices, diff, prev, n)[..m] == Path(devices, diff, prev, m)
    decreases n
  {
    if m < n {
      PathPrefix(devices, diff, prev, m, n - 1);
    }
  }

  lemma PathBit(devices: set<Code>, diff: u8, prev: Code, n: nat)
    requires n < 64
    ensures var x := FoundCode(devices, diff, prev);
            x[..n] == Path(devices, diff, prev, n) && x[n] == Choice(devices, diff, prev, x[..n])
  {
    PathPrefix(devices, diff, prev, n, 64);
    PathPrefix(devices, diff, prev, n + 1, 64);
    var x := FoundCode(devices, diff, prev);
    assert x[n] == x[..n + 1][n];
  }

  /** Below the fork position the pass is greedy: nothing that shares `m` bits is greater. */
  lemma Greedy(devices: set<Code>, diff: u8, prev: Code, m: nat, c: Code)
    requires m <= 64 && 64 - m < diff && c in devices
    requires c[..m] == Path(devices, diff, prev, m)
    ensures c == FoundCode(devices, diff, prev) || Less(c, FoundCode(devices, diff, prev))
  {
    var x := FoundCode(devices, diff, prev);
    PathPrefix(devices, diff, prev, m, 64);
    if c != x {
      var p := DifferenceExists(c, x, m);
      PathBit(devices, diff, prev, p);
      HasWitness(devices, c, p);
      if p < m {
        PrefixAgrees(c, x, m);
      }
      assert x[p];
    }
  }

  /** OW_SEARCH_FIRST finds the greatest code. */
  lemma FirstIsGreatest(devices: set<Code>, prev: Code, c: Code)
    requires c in devices
    ensures c == FoundCode(devices, 255, prev) || Less(c, FoundCode(devices, 255, prev))
  {
    assert c[..0] == Path(devices, 255, prev, 0);
    Greedy(devices, 255, prev, 0, c);
  }

  /** Up to the fork of the previous pass the path is repeated. */
  lemma {:induction false} PathRepeats(devices: set<Code>, prev: Code, n: nat)
    requires prev in devices && n <= 64 - LastFork(devices, prev)
    ensures Path(devices, LastFork(devices, prev), prev, n) == prev[..n]
    decreases n
  {
    if n > 0 {
      PathRepeats(devices, prev, n - 1);
      HasWitness(devices, prev, n - 1);
      assert prev[..n] == prev[..n - 1] + [prev[n - 1]];
    }
  }

  /** LastFork is the deepest position with a 1 and a 0-alternative. */
  lemma {:induction false} ForkIsDeepest(devices: set<Code>, path: seq<bool>, q: nat)
    requires |path| <= 64 && q < |path| && path[q] && Has(devices, path[..q], false)
    ensures LastFork(devices, path) > 0 && q <= 64 - LastFork(devices, path)
    decreases |path|
  {
    var k := |path| - 1;
    if q < k && !(path[k] && Has(devices, path[..k], false)) {
      assert path[..k][..q] == path[..q];
      ForkIsDeepest(devices, path[..k], q);
    }
  }

  lemma {:induction false} ForkIsFork(devices: set<Code>, path: seq<bool>)
    requires |path| <= 64 && LastFork(devices, path) > 0
    ensures var q := 64 - LastFork(devices, path);
            q < |path| && path[q] && Has(devices, path[..q], false)
    decreases |path|
  {
    var k := |path| - 1;
    if !(path[k] && Has(devices, path[..k], false)) {
      ForkIsFork(devices, path[..k]);
      var q := 64 - LastFork(devices, path);
      assert path[..k][..q] == path[..q];
    }
  }

  /** A device below `x` leaves it at one of its forks. */
  lemma SmallerLeavesAtFork(devices: set<Code>, x: Code, c: Code) returns (q: nat)
    requires c in devices && Less(c, x)
    ensures FirstDifference(c, x, q) && x[q] && !c[q]
    ensures LastFork(devices, x) > 0 && q <= 64 - LastFork(devices, x)
  {
    q :| FirstDifference(c, x, q) && x[q];
    HasWitness(devices, c, q);
    ForkIsDeepest(devices, x, q);
  }

  /** The returned diff is OW_LAST_DEVICE exactly when no device is below the code found. */
  lemma LastDeviceMeans(devices: set<Code>, x: Code)
    requires x in devices
    ensures LastFork(devices, x) == 0 <==> forall c | c in devices :: !Less(c, x)
  {
    if LastFork(devices, x) > 0 {
      ForkIsFork(devices, x);
      var q: nat := 64 - LastFork(devices, x);
      var c :| c in Matching(devices, x[..q]) && !c[q];
      assert FirstDifference(c, x, q);
      assert c in devices && Less(c, x);
    } else {
      forall c | c in devices ensures !Less(c, x) {
        if Less(c, x) { var q := SmallerLeavesAtFork(devices, x, c); }
      }
    }
  }

  /** At the fork of the previous pass the other branch is taken. */
  lemma TurnsAtFork(devices: set<Code>, prev: Code) returns (q: nat)
    requires prev in devices && LastFork(devices, prev) > 0
    ensures q == 64 - LastFork(devices, prev) && q < 64
    ensures var x := FoundCode(devices, LastFork(devices, prev), prev);
            x[..q] == prev[..q] && !x[q] && prev[q]
  {
    q := 64 - LastFork(devices, prev);
    ForkIsFork(devices, prev);
    PathRepeats(devices, prev, q);
    PathBit(devices, LastFork(devices, prev), prev, q);
    HasWitness(devices, prev, q);
  }

  /** A pass after `prev` finds the greatest device below it. */
  lemma NextIsNext(devices: set<Code>, prev: Code, c: Code)
    requires prev in devices && LastFork(devices, prev) > 0 && c in devices
    ensures var x := FoundCode(devices, LastFork(devices, prev), prev);
            Less(x, prev) && (Less(c, prev) ==> c == x || Less(c, x))
  {
    hide Matching;
    hide Has;
    hide Choice;
    hide LastFork;
    var diff := LastFork(devices, prev);
    var x := FoundCode(devices, diff, prev);
    var q := TurnsAtFork(devices, prev);
    assert FirstDifference(x, prev, q);
    if Less(c, prev) {
      var p := SmallerLeavesAtFork(devices, prev, c);
      PrefixAgrees(x, prev, q);
      PrefixAgrees(c, prev, p);
      if p < q {
        assert FirstDifference(c, x, p);
      } else {
        PathPrefix(devices, diff, prev, q + 1, 64);
        assert c[..q + 1] == x[..q + 1];
        Greedy(devices, diff, prev, q + 1, c);
      }
    }
  }

  // ---------------------------------------------------------------- all passes

  /** `found` lists the |found| greatest devices in descending order. */
  ghost predicate TopOf(devices: set<Code>, found: seq<Code>) {
    && (forall k | 0 <= k < |found| :: found[k] in devices)
    && (forall j, k | 0 <= j < k < |found| :: Less(found[k], found[j]))
    && (forall c, k | c in devices && c !in found && 0 <= k < |found| :: Less(c, found[k]))
  }

  /** The first pass starts the list. */
  lemma FirstOfList(devices: set<Code>, prev: Code)
    requires devices != {}
    ensures TopOf(devices, [FoundCode(devices, 255, prev)])
  {
    FoundIsDevice(devices, 255, prev);
    forall c | c in devices ensures c == FoundCode(devices, 255, prev) || Less(c, FoundCode(devices, 255, prev)) {
      FirstIsGreatest(devices, prev, c);
    }
  }

  /** Every further pass extends the list by one device. */
  lemma NextOfList(devices: set<Code>, found: seq<Code>)
    requires TopOf(devices, found) && found != []
    requires LastFork(devices, found[|found| - 1]) > 0
    ensures var prev := found[|found| - 1];
            TopOf(devices, found + [FoundCode(devices, LastFork(devices, prev), prev)])
  {
    hide Less;
    hide Path;
    hide LastFork;
    var n := |found|;
    var prev := found[n - 1];
    var x := FoundCode(devices, LastFork(devices, prev), prev);
    FoundIsDevice(devices, LastFork(devices, prev), prev);
    NextIsNext(devices, prev, prev);
    forall k | 0 <= k < n ensures Less(x, found[k]) {
      if k < n - 1 { Transitive(x, prev, found[k]); }
    }
    var more := found + [x];
    forall c | c in devices && c !in more ensures c !in found && Less(c, x) {
      assert more[n] == x;
      assert forall k | 0 <= k < n :: more[k] == found[k];
      NextIsNext(devices, prev, c);
      assert Less(c, found[n - 1]);
    }
  }

  /** When the last pass reports the last device, every device has been listed, once. */
  lemma ListComplete(devices: set<Code>, found: seq<Code>)
    requires TopOf(devices, found) && found != []
    ensures LastFork(devices, found[|found| - 1]) == 0 <==> |found| == |devices|
    ensures |found| <= |devices|
    ensures LastFork(devices, found[|found| - 1]) == 0 ==> forall c :: c in devices <==> c in found
  {
    hide LastFork;
    hide Less;
    var last := found[|found| - 1];
    LastDeviceMeans(devices, last);
    ListLength(found);
    var listed := set c | c in found;
    assert listed <= devices;
    if LastFork(devices, last) == 0 {
      assert listed == devices;
    } else {
      var c :| c in devices && Less(c, last);
      Asymmetric(c, last);
      forall k | 0 <= k < |found| ensures found[k] != c {
        if k < |found| - 1 { Asymmetric(last, found[k]); }
      }
      assert c in devices - listed;
      SubsetSize(listed, devices);
      assert listed < devices;
      ProperSubsetSize(listed, devices, c);
    }
    SubsetSize(listed, devices);
  }

  lemma {:induction false} SubsetSize(a: set<Code>, b: set<Code>)
    requires a <= b
    ensures |a| <= |b|
    decreases a
  {
    if a != {} {
      var c :| c in a;
      SubsetSize(a - {c}, b - {c});
    }
  }

  lemma ProperSubsetSize(a: set<Code>, b: set<Code>, c: Code)
    requires a <= b && c in b && c !in a
    ensures |a| < |b|
  {
    SubsetSize(a, b - {c});
  }

  /** A descending list has as many members as entries. */
  lemma {:induction false} ListLength(found: seq<Code>)
    requires forall j, k | 0 <= j < k < |found| :: Less(found[k], found[j])
    ensures |set c | c in found| == |found|
    decreases |found|
  {
    if found != [] {
      var n := |found| - 1;
      var init, last := found[..n], found[n];
      ListLength(init);
      forall k | 0 <= k < n ensures found[k] != last { Asymmetric(last, found[k]); }
      var members := set c | c in init;
      assert found == init + [last];
      assert (set c | c in found) == members + {last};
      assert last !in members;
    }
  }

  // ---------------------------------------------------------------- the list as a specification

  /** `x` is the greatest device that is not listed. */
  ghost predicate GreatestLeft(devices: set<Code>, listed: seq<Code>, x: Code) {
    x in devices && x !in listed && forall c | c in devices && c !in listed && c != x :: Less(c, x)
  }

  /** Every entry is the greatest device that is not listed before it. */
  ghost predicate Listing(devices: set<Code>, found: seq<Code>)
    decreases |found|
  {
    found == [] ||
    var n := |found| - 1;
    Listing(devices, found[..n]) && GreatestLeft(devices, found[..n], found[n])
  }

  lemma TopOfMore(devices: set<Code>, init: seq<Code>, last: Code)
    requires TopOf(devices, init) && GreatestLeft(devices, init, last)
    ensures TopOf(devices, init + [last])
  {
    hide Less;
    var found := init + [last];
    forall j, k | 0 <= j < k < |found| ensures Less(found[k], found[j]) {
      assert found[j] == init[j];
      if k < |init| { assert found[k] == init[k]; }
    }
    forall c, k | c in devices && c !in found && 0 <= k < |found| ensures Less(c, found[k]) {
      assert c !in init && found[|init|] == last;
      if k < |init| { assert found[k] == init[k]; }
    }
  }

  lemma {:induction false} ListingIsTop(devices: set<Code>, found: seq<Code>)
    requires Listing(devices, found)
    ensures TopOf(devices, found)
    decreases |found|
  {
    hide Less;
    hide GreatestLeft;
    if found != [] {
      var n := |found| - 1;
      ListingIsTop(devices, found[..n]);
      TopOfMore(devices, found[..n], found[n]);
      assert found == found[..n] + [found[n]];
    }
  }

  lemma TopIsListing(devices: set<Code>, found: seq<Code>, x: Code)
    requires Listing(devices, found) && TopOf(devices, found + [x])
    ensures Listing(devices, found + [x])
  {
    var more := found + [x];
    assert more[..|found|] == found && more[|found|] == x;
    forall k | 0 <= k < |found| ensures found[k] != x {
      assert more[k] == found[k];
      Asymmetric(x, found[k]);
    }
    forall c | c in devices && c !in found && c != x ensures Less(c, x) {
      assert c !in more;
      assert Less(c, more[|found|]);
    }
  }

  /** A listing names devices once each, in descending order, and has no gaps. */
  lemma ListingMeans(devices: set<Code>, found: seq<Code>)
    requires Listing(devices, found)
    ensures forall k | 0 <= k < |found| :: found[k] in devices
    ensures forall j, k | 0 <= j < k < |found| :: found[j] != found[k] && Less(found[k], found[j])
    ensures |found| <= |devices|
    ensures |found| == |devices| ==> forall c :: c in devices <==> c in found
  {
    ListingIsTop(devices, found);
    forall j, k | 0 <= j < k < |found| ensures found[j] != found[k] {
      Asymmetric(found[k], found[j]);
    }
    if found != [] {
      hide LastFork;
      ListComplete(devices, found);
    }
  }

  lemma GreatestLeftUnique(devices: set<Code>, listed: seq<Code>, x: Code, y: Code)
    requires GreatestLeft(devices, listed, x) && GreatestLeft(devices, listed, y)
    ensures x == y
  {
    hide Less;
    if x != y {
      Asymmetric(x, y);
    }
  }

  /** There is one order: a shorter listing is the beginning of a longer one. */
  lemma {:induction false} ListingUnique(devices: set<Code>, a: seq<Code>, b: seq<Code>)
    requires Listing(devices, a) && Listing(devices, b) && |a| <= |b|
    ensures a <= b
    decreases |a| + |b|
  {
    hide Less;
    hide GreatestLeft;
    if |a| < |b| {
      ListingUnique(devices, a, b[..|b| - 1]);
      assert b == b[..|b| - 1] + [b[|b| - 1]];
    } else if a != [] {
      var n := |a| - 1;
      ListingUnique(devices, a[..n], b[..n]);
      assert a[..n] == b[..n];
      GreatestLeftUnique(devices, a[..n], a[n], b[n]);
      assert a == a[..n] + [a[n]] && b == b[..n] + [b[n]];
    }
  }
}
