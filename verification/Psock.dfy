/** Protosocket reads (psock.c): protothreads that continue where the last segment ended. */
module Psock {
  import opened Words
  import opened PsockSpec

  datatype State = Idle | Read | BlockedNewdata

  /** Why the application is called: uip_newdata() with uip_appdata, or a poll without data. */
  datatype Event = Event(newdata: bool, data: seq<u8>)

  datatype Status = Ended | Waiting

  class Protosocket {
    const buffer: array<u8>
    var ptr: nat          // buf.ptr
    var left: nat         // buf.left
    var state: State
    var readptr: nat
    var readlen: nat
    var waiting: bool     // the continuation in psockpt
    ghost var got: seq<u8>  // what the current request has consumed

    constructor (buffer: array<u8>)
      requires 0 < buffer.Length < 0x1_0000
      ensures this.buffer == buffer && Valid() && AtRest() && !waiting
    {
      this.buffer := buffer;
      ptr, left, state, readptr, readlen, waiting := 0, buffer.Length, Idle, 0, 0, false;
      got := [];
    }

    /** The buffer holds the first bytes of what was consumed. */
    ghost predicate Valid()
      reads this, buffer
    {
      && 0 < buffer.Length < 0x1_0000
      && ptr == Min(buffer.Length, |got|) && left == buffer.Length - ptr
      && forall i | 0 <= i < ptr :: buffer[i] == got[i]
    }

    /** Between events nothing of an old segment is left to be read. */
    ghost predicate AtRest()
      reads this
    {
      readlen == 0 && state != Read
    }

    /** During an event: how much of its data has been consumed. */
    ghost predicate InEvent(ev: Event, at: nat)
      reads this
    {
      && at <= |Data(ev)|
      && (if state == Read then ev.newdata && readptr == at && readlen == |Data(ev)| - at else at == 0 && readlen == 0)
    }

    static function Data(ev: Event): seq<u8> { if ev.newdata then ev.data else [] }

    /** buf_setup. */
    method Setup()
      requires 0 < buffer.Length < 0x1_0000
      modifies this`ptr, this`left, this`got
      ensures Valid() && got == []
    {
      ptr, left := 0, buffer.Length;
      got := [];
    }

    /** Copy `n` bytes into the buffer (memcpy). */
    method Copy(data: seq<u8>, n: nat)
      requires Valid() && n <= left && readptr + n <= |data|
      modifies this`ptr, this`left, this`got, this`readptr, this`readlen, buffer
      requires n <= readlen
      ensures Valid() && got == Taking(old(got), data, old(readptr), old(readptr) + n)
      ensures readptr == old(readptr) + n && readlen == old(readlen) - n
    {
      var k := 0;
      while k < n
        modifies buffer
        invariant 0 <= k <= n
        invariant forall i | 0 <= i < ptr :: buffer[i] == old(buffer[i])
        invariant forall i | ptr <= i < ptr + k :: buffer[i] == data[i - ptr + readptr]
      {
        buffer[ptr + k] := data[readptr + k];
        k := k + 1;
      }
      got := Taking(got, data, readptr, readptr + n);
      ptr, left, readptr, readlen := ptr + n, left - n, readptr + n, readlen - n;
    }

    /** buf_bufdata: true when the buffer is full. */
    method BufData(data: seq<u8>) returns (full: bool)
      requires Valid() && readptr + readlen <= |data|
      modifies this`ptr, this`left, this`got, this`readptr, this`readlen, buffer
      ensures Valid() && full == (old(readlen) >= old(left))
      ensures var n := Min(old(readlen), old(left));
              && got == Taking(old(got), data, old(readptr), old(readptr) + n)
              && readptr == old(readptr) + n && readlen == old(readlen) - n
    {
      if readlen < left {
        Copy(data, readlen);
        full := false;
      } else if readlen == left {
        Copy(data, readlen);
        full := true;
      } else {
        Copy(data, left);
        full := true;
      }
    }

    /** buf_bufto: consume through the marker, or everything; bytes that do not fit are dropped. */
    method BufTo(marker: u8, data: seq<u8>) returns (found: bool)
      requires Valid() && readptr + readlen <= |data|
      modifies this`ptr, this`left, this`got, this`readptr, this`readlen, buffer
      ensures Valid() && old(readptr) <= readptr && readptr + readlen == old(readptr + readlen)
      ensures got == Taking(old(got), data, old(readptr), readptr)
      ensures found ==> old(readptr) < readptr && data[readptr - 1] == marker
      ensures forall i | old(readptr) <= i < (if found then readptr - 1 else readptr) :: data[i] != marker
      ensures !found ==> readlen == 0
    {
      hide Taking;
      found := false;
      while left > 0 && readlen > 0
        invariant Valid() && old(readptr) <= readptr && readptr + readlen == old(readptr + readlen)
        invariant got == Taking(old(got), data, old(readptr), readptr)
        invariant forall i | old(readptr) <= i < readptr :: data[i] != marker
        decreases readlen
      {
        var c := data[readptr];
        TakingOne(old(got), data, old(readptr), readptr);
        buffer[ptr] := c;
        got := got + [c];
        readptr, ptr, readlen, left := readptr + 1, ptr + 1, readlen - 1, left - 1;
        if c == marker {
          return true;
        }
      }
      if readlen == 0 {
        return false;
      }
      while readlen > 0
        invariant Valid() && left == 0 && old(readptr) <= readptr && readptr + readlen == old(readptr + readlen)
        invariant got == Taking(old(got), data, old(readptr), readptr)
        invariant forall i | old(readptr) <= i < readptr :: data[i] != marker
        decreases readlen
      {
        var c := data[readptr];
        TakingOne(old(got), data, old(readptr), readptr);
        got := got + [c];
        readlen, readptr := readlen - 1, readptr + 1;
        if c == marker {
          return true;
        }
      }
    }

    /** psock_newdata. */
    method NewData(ev: Event) returns (r: bool)
      modifies this`state
      ensures r == (readlen > 0 || (old(state) != Read && ev.newdata))
      ensures state == if readlen == 0 && old(state) == Read then BlockedNewdata else old(state)
    {
      if readlen > 0 {
        r := true;
      } else if state == Read {
        state := BlockedNewdata;
        r := false;
      } else {
        r := ev.newdata;
      }
    }

    /** The position in the data of `ev` that the next byte is read from. */
    ghost function Position(): nat
      reads this
    {
      if state == Read then readptr else 0
    }

    /** The wait for new data inside both read loops. */
    method AwaitData(ev: Event) returns (more: bool)
      requires InEvent(ev, Position())
      modifies this`state, this`waiting, this`readptr, this`readlen
      ensures more ==> InEvent(ev, old(Position())) && state == Read
      ensures more && old(state) == Read ==> 0 < readlen == old(readlen)
      ensures !more ==> AtRest() && waiting && old(Position()) == |Data(ev)|
    {
      if readlen == 0 {
        waiting := true;
        more := NewData(ev);
        if !more {
          return;
        }
        state := Read;
        readptr := 0;
        readlen := |ev.data|;
      }
      more := true;
    }

    /** psock_readto: one call; it returns Waiting when the event's data is used up. */
    method ReadTo(marker: u8, ev: Event) returns (status: Status)
      requires Valid() && InEvent(ev, Position())
      modifies this, buffer
      ensures Valid() && waiting == (status == Waiting)
      ensures var d, p := Data(ev), old(Position());
              var e := Find(d, marker, p);
              var before := if old(waiting) then old(got) else [];
              if e < |d| then
                status == Ended && InEvent(ev, Position()) && Position() == e + 1 && got == Taking(before, d, p, e + 1)
              else
                status == Waiting && AtRest() && got == Taking(before, d, p, |d|)
    {
      hide Find;
      hide Taking;
      if !waiting {
        Setup();
      }
      ghost var d, p, before := Data(ev), Position(), got;
      while true
        invariant Valid() && InEvent(ev, Position()) && p <= Position()
        invariant got == Taking(before, d, p, Position())
        invariant forall i | p <= i < Position() :: d[i] != marker
        decreases state != Read, readlen
      {
        var more := AwaitData(ev);
        if !more {
          FindIs(d, marker, p, |d|);
          return Waiting;
        }
        ghost var q := readptr;
        var found := BufTo(marker, ev.data);
        TakingMore(before, d, p, q, readptr);
        if found {
          FindIs(d, marker, p, readptr - 1);
          break;
        }
      }
      waiting := false;
      status := Ended;
    }

    /** psock_readbuf. */
    method ReadBuf(ev: Event) returns (status: Status)
      requires Valid() && InEvent(ev, Position()) && (waiting ==> |got| < buffer.Length)
      modifies this, buffer
      ensures Valid() && waiting == (status == Waiting)
      ensures var d, p := Data(ev), old(Position());
              var before := if old(waiting) then old(got) else [];
              var e := p + buffer.Length - |before|;
              if e <= |d| then
                status == Ended && InEvent(ev, Position()) && Position() == e && got == Taking(before, d, p, e)
              else
                status == Waiting && AtRest() && got == Taking(before, d, p, |d|) && |got| < buffer.Length
    {
      hide Taking;
      if !waiting {
        Setup();
      }
      ghost var d, p, before := Data(ev), Position(), got;
      while true
        invariant Valid() && InEvent(ev, Position()) && p <= Position()
        invariant got == Taking(before, d, p, Position()) && |got| < buffer.Length
        decreases state != Read, readlen
      {
        var more := AwaitData(ev);
        if !more {
          return Waiting;
        }
        ghost var q := readptr;
        var full := BufData(ev.data);
        TakingMore(before, d, p, q, readptr);
        if full {
          break;
        }
      }
      waiting := false;
      status := Ended;
    }
  }
}
