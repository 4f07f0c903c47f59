/** What a sequence of protosocket reads should return for a byte stream. */
module PsockSpec {
  import opened Words

  /** psock_readto with its end marker, or psock_readbuf. */
  datatype Request = ReadTo(marker: u8) | ReadBuf

  /** `before` and then the bytes p .. q-1 of `d`. */
  function Taking(before: seq<u8>, d: seq<u8>, p: nat, q: nat): (r: seq<u8>)
    requires p <= q <= |d|
    ensures |r| == |before| + (q - p)
    ensures p == q ==> r == before
  {
    before + d[p..q]
  }

  lemma TakingMore(before: seq<u8>, d: seq<u8>, p: nat, q: nat, r: nat)
    requires p <= q <= r <= |d|
    ensures Taking(Taking(before, d, p, q), d, q, r) == Taking(before, d, p, r)
  {
    assert d[p..r] == d[p..q] + d[q..r];
  }

  lemma TakingOne(before: seq<u8>, d: seq<u8>, p: nat, q: nat)
    requires p <= q < |d|
    ensures Taking(before, d, p, q) + [d[q]] == Taking(before, d, p, q + 1)
  {
    assert d[p..q + 1] == d[p..q] + [d[q]];
  }

  /** The first position of `c` from `at` on, or the length. */
  function Find(s: seq<u8>, c: u8, at: nat): (k: nat)
    requires at <= |s|
    ensures at <= k <= |s|
    ensures k < |s| ==> s[k] == c
    ensures forall i | at <= i < k :: s[i] != c
    decreases |s| - at
  {
    if at == |s| || s[at] == c then at else Find(s, c, at + 1)
  }

  lemma FindIs(s: seq<u8>, c: u8, at: nat, k: nat)
    requires at <= k <= |s| && (forall i | at <= i < k :: s[i] != c) && (k < |s| ==> s[k] == c)
    ensures Find(s, c, at) == k
  {
  }

  /** Where the request that starts at `at` ends, if the stream reaches that far. */
  function End(req: Request, size: nat, s: seq<u8>, at: nat): (e: Option<nat>)
    requires at <= |s|
    ensures e.Some? ==> at <= e.value <= |s|
  {
    match req
    case ReadTo(c) => var k := Find(s, c, at); if k < |s| then Some(k + 1) else None
    case ReadBuf => if at + size <= |s| then Some(at + size) else None
  }

  /** What is left in the application's buffer: at most `size` bytes of what was consumed. */
  function Kept(size: nat, s: seq<u8>, at: nat, end: nat): (r: seq<u8>)
    requires at <= end <= |s|
    ensures r <= s[at..end] && |r| == Min(size, end - at)
  {
    s[at..at + Min(size, end - at)]
  }

  /** The results of requests i, i+1, ... read one after the other from position `at` on. */
  function Results(reqs: seq<Request>, size: nat, s: seq<u8>, i: nat, at: nat): seq<seq<u8>>
    requires i <= |reqs| && at <= |s|
    decreases |reqs| - i
  {
    if i == |reqs| then []
    else match End(reqs[i], size, s, at)
      case None => []
      case Some(e) => [Kept(size, s, at, e)] + Results(reqs, size, s, i + 1, e)
  }

  /** Request `req`, started at `at`, is complete at `e` and not before. */
  predicate Complete(req: Request, size: nat, s: seq<u8>, at: nat, e: nat)
    ensures Complete(req, size, s, at, e) ==> at <= e <= |s|
  {
    && at <= e <= |s|
    && match req
       case ReadTo(c) => at < e && s[e - 1] == c && forall i | at <= i < e - 1 :: s[i] != c
       case ReadBuf => e - at == size
  }

  /** It cannot be completed by the stream so far. */
  predicate Short(req: Request, size: nat, s: seq<u8>, at: nat) {
    match req
    case ReadTo(c) => forall i | at <= i < |s| :: s[i] != c
    case ReadBuf => |s| - at < size
  }

  lemma EndMeaning(req: Request, size: nat, s: seq<u8>, at: nat)
    requires at <= |s|
    ensures match End(req, size, s, at) case Some(e) => Complete(req, size, s, at, e) case None => Short(req, size, s, at)
  {
  }

  /** Result `k` is what was kept of the stretch from ends[k] to ends[k + 1], which completes its request. */
  predicate Stretch(reqs: seq<Request>, size: nat, s: seq<u8>, ends: seq<nat>, r: seq<seq<u8>>, k: nat)
    requires k < |r| < |ends| && |r| <= |reqs|
  {
    && Complete(reqs[k], size, s, ends[k], ends[k + 1])
    && r[k] == s[ends[k]..ends[k] + Min(size, ends[k + 1] - ends[k])]
  }

  /**
   * The results cut the stream: `ends` are the positions where one request ends and the next one starts, every
   * result holds the first bytes of its stretch, and the first request without a result is not complete.
   */
  lemma {:induction false} ResultsMeaning(reqs: seq<Request>, size: nat, s: seq<u8>, i: nat, at: nat) returns (ends: seq<nat>)
    requires i <= |reqs| && at <= |s|
    ensures var r := Results(reqs, size, s, i, at);
            && |ends| == |r| + 1 && ends[0] == at && i + |r| <= |reqs|
            && (forall k: nat | k < |r| :: Stretch(reqs[i..], size, s, ends, r, k))
            && (i + |r| < |reqs| ==> ends[|r|] <= |s| && Short(reqs[i + |r|], size, s, ends[|r|]))
    decreases |reqs| - i
  {
    hide Complete;
    hide Short;
    hide Stretch;
    hide End;
    if i < |reqs| { EndMeaning(reqs[i], size, s, at); }
    if i == |reqs| || End(reqs[i], size, s, at).None? {
      ends := [at];
    } else {
      var e := End(reqs[i], size, s, at).value;
      var rest := ResultsMeaning(reqs, size, s, i + 1, e);
      ends := [at] + rest;
      var r, q := Results(reqs, size, s, i, at), Results(reqs, size, s, i + 1, e);
      assert r == [Kept(size, s, at, e)] + q;
      forall k: nat | k < |r| ensures Stretch(reqs[i..], size, s, ends, r, k) {
        if k > 0 {
          StretchTail(reqs[i..], reqs[i + 1..], size, s, at, rest, r, q, k - 1);
        } else {
          FirstStretch(reqs[i..], size, s, ends, r);
        }
      }
    }
  }

  lemma StretchTail(reqs: seq<Request>, more: seq<Request>, size: nat, s: seq<u8>, at: nat, rest: seq<nat>, r: seq<seq<u8>>,
                    q: seq<seq<u8>>, k: nat)
    requires reqs != [] && more == reqs[1..] && k < |q| < |rest| && |q| <= |more| && r != [] && q == r[1..]
    requires Stretch(more, size, s, rest, q, k)
    ensures Stretch(reqs, size, s, [at] + rest, r, k + 1)
  {
  }

  lemma FirstStretch(reqs: seq<Request>, size: nat, s: seq<u8>, ends: seq<nat>, r: seq<seq<u8>>)
    requires 0 < |r| < |ends| && |r| <= |reqs| && Complete(reqs[0], size, s, ends[0], ends[1])
    requires r[0] == Kept(size, s, ends[0], ends[1])
    ensures Stretch(reqs, size, s, ends, r, 0)
  {
  }

  /** A request that is complete stays so, at the same place, when more data follows. */
  lemma EndStable(req: Request, size: nat, s: seq<u8>, more: seq<u8>, at: nat)
    requires at <= |s| && End(req, size, s, at).Some?
    ensures End(req, size, s + more, at) == End(req, size, s, at)
  {
    if req.ReadTo? {
      FindIs(s + more, req.marker, at, Find(s, req.marker, at));
    }
  }

  /** More data never changes a result that has been returned. */
  lemma {:induction false} ResultsExtend(reqs: seq<Request>, size: nat, s: seq<u8>, more: seq<u8>, i: nat, at: nat)
    requires i <= |reqs| && at <= |s|
    ensures Results(reqs, size, s, i, at) <= Results(reqs, size, s + more, i, at)
    decreases |reqs| - i
  {
    if i < |reqs| && End(reqs[i], size, s, at).Some? {
      var e := End(reqs[i], size, s, at).value;
      EndStable(reqs[i], size, s, more, at);
      assert Kept(size, s + more, at, e) == Kept(size, s, at, e) by {
        var m := at + Min(size, e - at);
        assert (s + more)[at..m] == s[at..m];
      }
      ResultsExtend(reqs, size, s, more, i + 1, e);
    }
  }
}
