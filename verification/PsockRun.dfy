/** Whole runs of protosocket reads: the results depend only on the byte stream. */
module PsockRun {
  import opened Words
  import opened PsockSpec
  import opened Psock

  /** The bytes that a list of events brings, however it is cut. */
  function Stream(events: seq<Event>): seq<u8>
    decreases |events|
  {
    if events == [] then []
    else Stream(events[..|events| - 1]) + Protosocket.Data(events[|events| - 1])
  }

  /** The data of `ev` is the stretch of `s` from `fed` on. */
  ghost predicate Carries(s: seq<u8>, fed: nat, ev: Event) {
    var d := Protosocket.Data(ev);
    fed + |d| <= |s| && forall i | 0 <= i < |d| :: s[fed + i] == d[i]
  }

  /** The request that started at `at` is not complete at `pos`. */
  predicate Pending(req: Request, size: nat, s: seq<u8>, at: nat, pos: nat) {
    && at <= pos <= |s|
    && match req
       case ReadTo(c) => forall i | at <= i < pos :: s[i] != c
       case ReadBuf => pos - at < size
  }

  lemma PendingAtEnd(req: Request, size: nat, s: seq<u8>, at: nat)
    requires Pending(req, size, s, at, |s|)
    ensures End(req, size, s, at).None?
  {
    if req.ReadTo? { FindIs(s, req.marker, at, |s|); }
  }

  /** Bytes taken from the event are bytes taken from the stream. */
  lemma TakingFromStream(s: seq<u8>, fed: nat, ev: Event, at: nat, p: nat, q: nat)
    requires Carries(s, fed, ev) && p <= q <= |Protosocket.Data(ev)| && at <= fed + p
    ensures Taking(Taking([], s, at, fed + p), Protosocket.Data(ev), p, q) == Taking([], s, at, fed + q)
  {
    var d := Protosocket.Data(ev);
    assert d[p..q] == s[fed + p..fed + q] by {
      forall i | 0 <= i < q - p ensures d[p..q][i] == s[fed + p..fed + q][i] {
        assert s[fed + (p + i)] == d[p + i];
      }
    }
    assert s[at..fed + q] == s[at..fed + p] + s[fed + p..fed + q];
  }

  /** The end of a read up to a marker, found in the event's data. */
  lemma EndOfReadTo(s: seq<u8>, fed: nat, ev: Event, at: nat, p: nat, c: u8, size: nat)
    requires Carries(s, fed, ev) && p <= |Protosocket.Data(ev)|
    requires Pending(PsockSpec.ReadTo(c), size, s, at, fed + p)
    ensures var d, e := Protosocket.Data(ev), Find(Protosocket.Data(ev), c, p);
            if e < |d| then End(PsockSpec.ReadTo(c), size, s, at) == Some(fed + e + 1)
            else Pending(PsockSpec.ReadTo(c), size, s, at, fed + |d|)
  {
    var d := Protosocket.Data(ev);
    var e := Find(d, c, p);
    forall i | at <= i < fed + e ensures s[i] != c {
      if fed + p <= i { assert s[fed + (i - fed)] == d[i - fed]; }
    }
    if e < |d| {
      assert s[fed + e] == d[e];
      FindIs(s, c, at, fed + e);
    }
  }

  /** Where the pending request stands: its bytes so far and the position behind them. */
  ghost predicate Stands(ps: Protosocket, req: Request, s: seq<u8>, at: nat, pos: nat)
    reads ps
  {
    && Pending(req, ps.buffer.Length, s, at, pos)
    && (if ps.waiting then ps.got == Taking([], s, at, pos) else at == pos)
  }

  /** One read call in the application's protothread. */
  method ServeOne(ps: Protosocket, req: Request, ev: Event, ghost s: seq<u8>, ghost fed: nat, ghost at: nat)
    returns (status: Status)
    requires ps.Valid() && ps.InEvent(ev, ps.Position()) && Carries(s, fed, ev)
    requires Stands(ps, req, s, at, fed + ps.Position())
    modifies ps, ps.buffer
    ensures ps.Valid() && ps.waiting == (status == Waiting)
    ensures status == Ended ==>
              && ps.InEvent(ev, ps.Position())
              && End(req, ps.buffer.Length, s, at) == Some(fed + ps.Position())
              && ps.got == Taking([], s, at, fed + ps.Position())
    ensures status == Waiting ==>
              ps.AtRest() && Stands(ps, req, s, at, fed + |Protosocket.Data(ev)|)
  {
    hide Carries;
    hide Taking;
    hide Find;
    ghost var d, p := Protosocket.Data(ev), ps.Position();
    ghost var before := if ps.waiting then ps.got else [];
    CarriesWithin(s, fed, ev);
    TakingStart(s, at);
    assert before == Taking([], s, at, fed + p);
    match req
    case ReadTo(c) =>
      EndOfReadTo(s, fed, ev, at, p, c, ps.buffer.Length);
      ghost var e := Find(d, c, p);
      TakingFromStream(s, fed, ev, at, p, if e < |d| then e + 1 else |d|);
      status := ps.ReadTo(c, ev);
    case ReadBuf =>
      ghost var e := p + ps.buffer.Length - |before|;
      TakingFromStream(s, fed, ev, at, p, if e <= |d| then e else |d|);
      status := ps.ReadBuf(ev);
  }

  lemma CarriesWithin(s: seq<u8>, fed: nat, ev: Event)
    requires Carries(s, fed, ev)
    ensures fed + |Protosocket.Data(ev)| <= |s|
  {
  }

  lemma TakingStart(s: seq<u8>, at: nat)
    requires at <= |s|
    ensures Taking([], s, at, at) == []
  {
  }

  // ---------------------------------------------------------------- the application

  /** What has been returned and what is still to come make up the specified results. */
  ghost predicate OnTrack(ps: Protosocket, reqs: seq<Request>, s: seq<u8>, results: seq<seq<u8>>, next: nat, at: nat) {
    && next <= |reqs| && at <= |s|
    && Results(reqs, ps.buffer.Length, s, 0, 0) == results + Results(reqs, ps.buffer.Length, s, next, at)
  }

  lemma OnTrackStep(ps: Protosocket, reqs: seq<Request>, s: seq<u8>, results: seq<seq<u8>>, next: nat, at: nat, e: nat, r: seq<u8>)
    requires OnTrack(ps, reqs, s, results, next, at) && next < |reqs|
    requires End(reqs[next], ps.buffer.Length, s, at) == Some(e) && r == Kept(ps.buffer.Length, s, at, e)
    ensures OnTrack(ps, reqs, s, results + [r], next + 1, e)
  {
    var rest := Results(reqs, ps.buffer.Length, s, next + 1, e);
    assert results + ([r] + rest) == results + [r] + rest;
  }

  /** The stored bytes are the first ones consumed. */
  lemma StoredIsKept(ps: Protosocket, s: seq<u8>, at: nat, pos: nat)
    requires ps.Valid() && at <= pos <= |s| && ps.got == Taking([], s, at, pos)
    ensures ps.buffer[..ps.ptr] == Kept(ps.buffer.Length, s, at, pos)
  {
    assert ps.got == s[at..pos];
    var k, b := Kept(ps.buffer.Length, s, at, pos), ps.buffer[..ps.ptr];
    hide Kept;
    forall i | 0 <= i < |k| ensures b[i] == k[i] {
      assert ps.got[i] == s[at..pos][i] == k[i];
    }
  }

  /** One call of the application: it makes its reads back to back until one has to wait. */
  method AppCall(ps: Protosocket, reqs: seq<Request>, ev: Event, next0: nat, results0: seq<seq<u8>>,
                 ghost s: seq<u8>, ghost fed: nat, ghost at0: nat)
    returns (next: nat, results: seq<seq<u8>>, ghost at: nat)
    requires ps.Valid() && ps.AtRest() && Carries(s, fed, ev)
    requires OnTrack(ps, reqs, s, results0, next0, at0)
    requires next0 < |reqs| ==> Stands(ps, reqs[next0], s, at0, fed)
    modifies ps, ps.buffer
    ensures ps.Valid() && next0 <= next
    ensures OnTrack(ps, reqs, s, results, next, at)
    ensures next < |reqs| ==> ps.AtRest() && Stands(ps, reqs[next], s, at, fed + |Protosocket.Data(ev)|)
  {
    hide Taking;
    hide OnTrack;
    next, results, at := next0, results0, at0;
    OnTrackRange(ps, reqs, s, results, next, at);
    while next < |reqs|
      invariant ps.Valid() && next0 <= next <= |reqs|
      invariant OnTrack(ps, reqs, s, results, next, at)
      invariant next < |reqs| ==> ps.InEvent(ev, ps.Position()) && Stands(ps, reqs[next], s, at, fed + ps.Position())
    {
      var status := ServeOne(ps, reqs[next], ev, s, fed, at);
      if status == Waiting {
        return;
      }
      var r := ps.buffer[..ps.ptr];
      ghost var pos := fed + ps.Position();
      StoredIsKept(ps, s, at, pos);
      OnTrackStep(ps, reqs, s, results, next, at, pos, r);
      next, results, at := next + 1, results + [r], pos;
    }
  }

  lemma OnTrackRange(ps: Protosocket, reqs: seq<Request>, s: seq<u8>, results: seq<seq<u8>>, next: nat, at: nat)
    requires OnTrack(ps, reqs, s, results, next, at)
    ensures next <= |reqs| && at <= |s|
  {
  }

  /** The data of event `k` starts where the data before it ended. */
  lemma {:induction false} EventCarried(events: seq<Event>, k: nat, n: nat)
    requires k < n <= |events|
    ensures Carries(Stream(events[..n]), |Stream(events[..k])|, events[k])
    decreases n
  {
    var d := Protosocket.Data(events[n - 1]);
    assert events[..n][..n - 1] == events[..n - 1];
    assert Stream(events[..n]) == Stream(events[..n - 1]) + d;
    if k < n - 1 {
      EventCarried(events, k, n - 1);
    }
  }

  /**
   * A whole run: for every list of reads, every byte stream, every way of cutting it into
   * segments and every placing of polls, the results are the specified ones.
   */
  method Run(ps: Protosocket, reqs: seq<Request>, events: seq<Event>) returns (results: seq<seq<u8>>)
    requires ps.Valid() && ps.AtRest() && !ps.waiting
    modifies ps, ps.buffer
    ensures results == Results(reqs, ps.buffer.Length, Stream(events), 0, 0)
  {
    hide Taking;
    hide OnTrack;
    hide Carries;
    hide Pending;
    hide Stream;
    ghost var s, fed, at := Stream(events), 0, 0;
    var next := 0;
    results := [];
    StartOnTrack(ps, reqs, s);
    StreamStart(events);
    if reqs != [] { NothingRead(reqs[0], ps.buffer.Length, s); }
    var k := 0;
    while k < |events| && next < |reqs|
      invariant 0 <= k <= |events| && next <= |reqs| && ps.Valid()
      invariant fed == |Stream(events[..k])|
      invariant OnTrack(ps, reqs, s, results, next, at)
      invariant next < |reqs| ==> ps.AtRest() && Stands(ps, reqs[next], s, at, fed)
    {
      CarriedInRun(events, k);
      next, results, at := AppCall(ps, reqs, events[k], next, results, s, fed, at);
      OnTrackRange(ps, reqs, s, results, next, at);
      fed := fed + |Protosocket.Data(events[k])|;
      k := k + 1;
    }
    if next < |reqs| {
      assert events[..k] == events;
      PendingAtEnd(reqs[next], ps.buffer.Length, s, at);
    }
    RunEnds(ps, reqs, s, results, next, at);
  }

  lemma StreamStart(events: seq<Event>)
    ensures Stream(events[..0]) == []
  {
  }

  /** Event `k` brings the next stretch of the whole stream. */
  lemma CarriedInRun(events: seq<Event>, k: nat)
    requires k < |events|
    ensures Carries(Stream(events), |Stream(events[..k])|, events[k])
    ensures |Stream(events[..k + 1])| == |Stream(events[..k])| + |Protosocket.Data(events[k])|
  {
    hide Carries;
    EventCarried(events, k, |events|);
    assert events[..|events|] == events && events[..k + 1][..k] == events[..k];
  }

  lemma NothingRead(req: Request, size: nat, s: seq<u8>)
    requires size > 0
    ensures Pending(req, size, s, 0, 0)
  {
  }

  lemma StartOnTrack(ps: Protosocket, reqs: seq<Request>, s: seq<u8>)
    ensures OnTrack(ps, reqs, s, [], 0, 0)
  {
  }

  lemma RunEnds(ps: Protosocket, reqs: seq<Request>, s: seq<u8>, results: seq<seq<u8>>, next: nat, at: nat)
    requires OnTrack(ps, reqs, s, results, next, at)
    requires next < |reqs| ==> End(reqs[next], ps.buffer.Length, s, at).None?
    ensures results == Results(reqs, ps.buffer.Length, s, 0, 0)
  {
  }
}
