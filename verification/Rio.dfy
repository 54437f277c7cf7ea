// The Rio buffered reader: a stream arrives from the kernel in pieces of any size, with
// interruptions, and the reader hides the pieces behind an 8192-byte buffer.
module Rio {
  import opened Sequences

  const RIO_BUFSIZE: nat := 8192
  const NEWLINE: bv8 := 10
  const SIZE_MAX: nat := 0xFFFF_FFFF_FFFF_FFFF

  // What one read does: it is interrupted (EINTR), fails for another reason, or moves at
  // most `size` bytes.  After the last event calls move all that they can.
  datatype Event = Interrupt | Fail | Chunk(size: Positive)

  // What one write does: like a read, or it accepts nothing and leaves errno as it was,
  // which may be EINTR from before.
  datatype WriteEvent = Interrupted | Failed | AcceptsNone(stale: bool) | Accepts(size: Positive)

  // The caller takes these for failures: the call moved nothing and errno is not EINTR.
  predicate Refuses(event: WriteEvent) {
    event.Failed? || (event.AcceptsNone? && !event.stale)
  }

  function Refusals(writes: seq<WriteEvent>): nat {
    if writes == [] then 0 else (if Refuses(writes[0]) then 1 else 0) + Refusals(writes[1..])
  }

  function Fails(schedule: seq<Event>): nat {
    if schedule == [] then 0
    else (if schedule[0].Fail? then 1 else 0) + Fails(schedule[1..])
  }

  function Min(a: nat, b: nat): nat {
    if a <= b then a else b
  }

  // Where a line read from `at` ends: after the first newline, at the limit, or at the end of the stream.
  function LineEnd(stream: Bytes, at: nat, limit: nat): (end: nat)
    requires at <= |stream|
    ensures at <= end <= Min(at + limit, |stream|)
    decreases limit
  {
    if limit == 0 || at == |stream| then at
    else if stream[at] == NEWLINE then at + 1
    else LineEnd(stream, at + 1, limit - 1)
  }

  // How many bytes rio_readlineb may store: maxlen - 1, which wraps around for maxlen 0.
  function Limit(maxlen: nat): nat {
    if maxlen == 0 then SIZE_MAX else maxlen - 1
  }

  // With room for maxlen bytes, a line is at most maxlen - 1 of them, so that the zero byte
  // fits too, or with maxlen 0 at most 2^64 - 1; it is shorter only after a newline, which is
  // byte 10, or at the end of the stream.
  lemma LineFits(stream: Bytes, at: nat, maxlen: nat)
    requires at <= |stream|
    ensures var end, most := LineEnd(stream, at, Limit(maxlen)),
                             if maxlen == 0 then 0xFFFF_FFFF_FFFF_FFFF else maxlen - 1;
            && at <= end <= |stream| && end - at <= most
            && (forall i | at <= i < end - 1 :: stream[i] != 10)
            && (end - at < most ==> end == |stream| || (end > at && stream[end - 1] == 10))
  {
    LineEndIff(stream, at, Limit(maxlen), LineEnd(stream, at, Limit(maxlen)));
  }

  lemma LineShort(stream: Bytes, at: nat, maxlen: nat)
    requires at <= |stream|
    ensures maxlen >= 1 ==> LineEnd(stream, at, Limit(maxlen)) - at <= maxlen - 1
  {
  }

  lemma LineEndStep(stream: Bytes, at: nat, limit: nat)
    requires at <= |stream|
    ensures limit == 0 || at == |stream| ==> LineEnd(stream, at, limit) == at
    ensures limit > 0 && at < |stream| ==>
              LineEnd(stream, at, limit) ==
              if stream[at] == NEWLINE then at + 1 else LineEnd(stream, at + 1, limit - 1)
  {
  }

  ghost predicate EndsLine(stream: Bytes, at: nat, limit: nat, end: nat) {
    && at <= end <= Min(at + limit, |stream|)
    && (forall i :: at <= i < end - 1 ==> stream[i] != NEWLINE)
    && (end == Min(at + limit, |stream|) || (end > at && stream[end - 1] == NEWLINE))
  }

  lemma {:induction false} LineEndIff(stream: Bytes, at: nat, limit: nat, end: nat)
    requires at <= |stream|
    ensures EndsLine(stream, at, limit, end) <==> end == LineEnd(stream, at, limit)
    decreases limit
  {
    if limit > 0 && at < |stream| && stream[at] != NEWLINE {
      LineEndIff(stream, at + 1, limit - 1, end);
      if end == at {
        assert !EndsLine(stream, at, limit, end);
      }
    }
  }

  // An open descriptor, as the source's read(2) and write(2) see it.
  class Descriptor {
    const stream: Bytes
    var pos: nat
    var written: Bytes
    var schedule: seq<Event>
    var writes: seq<WriteEvent>

    constructor (stream: Bytes, schedule: seq<Event>, writes: seq<WriteEvent>)
      ensures this.stream == stream && this.schedule == schedule && this.writes == writes
      ensures pos == 0 && written == []
    {
      this.stream, this.schedule, this.writes := stream, schedule, writes;
      pos, written := 0, [];
    }

    predicate Valid()
      reads this
    {
      pos <= |stream|
    }

    method Read(buf: array<bv8>) returns (count: int, interrupted: bool)
      requires Valid() && buf.Length > 0
      modifies `pos, `schedule, buf
      ensures Valid() && -1 <= count <= buf.Length
      ensures count < 0 ==> pos == old(pos)
      ensures count >= 0 ==> pos == old(pos) + count && buf[..count] == stream[old(pos)..pos]
      ensures count == 0 ==> pos == |stream|
      ensures |schedule| <= |old(schedule)|
      ensures interrupted ==> count < 0 && |schedule| < |old(schedule)|
      ensures Fails(schedule) == Fails(old(schedule)) - (if count < 0 && !interrupted then 1 else 0)
    {
      var most := buf.Length;
      if schedule != [] {
        var event := schedule[0];
        schedule := schedule[1..];
        match event {
          case Interrupt => return -1, true;
          case Fail => return -1, false;
          case Chunk(size) => most := Min(size, most);
        }
      }
      count, interrupted := Min(most, |stream| - pos), false;
      forall i | 0 <= i < count {
        buf[i] := stream[pos + i];
      }
      pos := pos + count;
    }

    // interrupted says that errno is EINTR when nothing was accepted.
    method Write(data: Bytes) returns (count: int, interrupted: bool)
      requires data != []
      modifies `written, `writes
      ensures -1 <= count <= |data|
      ensures written == old(written) + data[..if count < 0 then 0 else count]
      ensures |writes| <= |old(writes)| && (count <= 0 ==> |writes| < |old(writes)|)
      ensures Refusals(writes) == Refusals(old(writes)) - (if count <= 0 && !interrupted then 1 else 0)
    {
      var most := |data|;
      if writes != [] {
        var event := writes[0];
        writes := writes[1..];
        match event {
          case Interrupted => return -1, true;
          case Failed => return -1, false;
          case AcceptsNone(stale) => return 0, stale;
          case Accepts(size) => most := Min(size, most);
        }
      }
      written := written + data[..most];
      return most, false;
    }
  }

  // All of data is written whatever the kernel accepts at a time; a refusal leaves a proper prefix.
  method WriteN(fd: Descriptor, data: Bytes) returns (count: int)
    modifies fd`written, fd`writes
    ensures count == -1 || count == |data|
    ensures count == |data| ==> fd.written == old(fd.written) + data
    ensures count == -1 ==> exists sent :: 0 <= sent < |data| && fd.written == old(fd.written) + data[..sent]
    ensures Refusals(fd.writes) == Refusals(old(fd.writes)) - (if count < 0 then 1 else 0)
  {
    var bufp := 0;
    while bufp < |data|
      invariant bufp <= |data|
      invariant fd.written == old(fd.written) + data[..bufp]
      invariant Refusals(fd.writes) == Refusals(old(fd.writes))
      decreases |data| - bufp, |fd.writes|
    {
      var nwritten, interrupted := fd.Write(data[bufp..]);
      if nwritten <= 0 {
        if interrupted {
          nwritten := 0;
        } else {
          return -1;
        }
      }
      assert data[..bufp] + data[bufp..][..nwritten] == data[..bufp + nwritten];
      bufp := bufp + nwritten;
    }
    assert data[..bufp] == data;
    return |data|;
  }

  lemma Halves(s: Bytes, from: nat, to: nat, k: nat)
    requires from + k <= to <= |s|
    ensures s[from..to][..k] == s[from..from + k] && s[from..to][k..] == s[from + k..to]
  {
  }

  lemma Longer(stream: Bytes, from: nat, to: nat, line: Bytes, c: bv8)
    requires from <= to < |stream| && line == stream[from..to] && c == stream[to]
    ensures line + [c] == stream[from..to + 1]
  {
  }

  // memcpy
  method Copy(to: array<bv8>, off: nat, from: array<bv8>, start: nat, count: nat)
    requires to != from && off + count <= to.Length && start + count <= from.Length
    modifies to
    ensures to[off..off + count] == old(from[start..start + count])
    ensures forall i :: 0 <= i < to.Length && !(off <= i < off + count) ==> to[i] == old(to[i])
  {
    forall i | off <= i < off + count {
      to[i] := from[start + (i - off)];
    }
  }

  // *bufp = c
  method Store(to: array<bv8>, n: nat, c: bv8)
    requires n < to.Length
    modifies to
    ensures to[..n + 1] == old(to[..n]) + [c]
    ensures forall i :: n < i < to.Length ==> to[i] == old(to[i])
  {
    to[n] := c;
  }

  class Reader {
    var fd: Descriptor
    var cnt: int
    var bufptr: nat
    const buf: array<bv8>

    ghost predicate Valid()
      reads this, fd, buf
    {
      && fd.Valid() && buf.Length == RIO_BUFSIZE
      && (cnt > 0 ==>
            && cnt <= fd.pos && bufptr + cnt <= buf.Length
            && buf[bufptr..bufptr + cnt] == fd.stream[fd.pos - cnt..fd.pos])
    }

    // Where in the stream the next delivered byte comes from: what the kernel gave, less what is buffered.
    ghost function At(): (at: nat)
      requires Valid()
      reads this, fd, buf
      ensures at <= |fd.stream|
    {
      if cnt > 0 then fd.pos - cnt else fd.pos
    }

    constructor (fd: Descriptor)
      requires fd.Valid()
      ensures Valid() && At() == fd.pos && this.fd == fd && fresh(buf) && buf.Length == 8192
    {
      buf := new bv8[RIO_BUFSIZE];
      this.fd, cnt, bufptr := fd, 0, 0;
    }

    method ReadInitB(fd: Descriptor)
      requires fd.Valid() && buf.Length == RIO_BUFSIZE
      modifies this
      ensures Valid() && At() == fd.pos && this.fd == fd
    {
      this.fd, cnt, bufptr := fd, 0, 0;
    }

    // Refill the empty buffer.  Anything but a failure ends with bytes to hand out or at the end of the stream.
    method Refill() returns (count: int)
      requires Valid()
      modifies `cnt, `bufptr, fd`pos, fd`schedule, buf
      ensures Valid() && At() == old(At())
      ensures count == -1 || count == 0 || (count == 1 && cnt > 0)
      ensures count <= 0 ==> cnt <= 0
      ensures old(cnt) > 0 ==> count == 1 && cnt == old(cnt) && fd.pos == old(fd.pos) && fd.schedule == old(fd.schedule)
      ensures count == 0 ==> At() == |fd.stream|
      ensures Fails(fd.schedule) == Fails(old(fd.schedule)) - (if count < 0 then 1 else 0)
    {
      hide Fails;
      while cnt <= 0
        invariant Valid() && At() == old(At())
        invariant old(cnt) > 0 ==> cnt == old(cnt) && fd.pos == old(fd.pos) && fd.schedule == old(fd.schedule)
        invariant Fails(fd.schedule) == Fails(old(fd.schedule))
        decreases |fd.schedule| + (if cnt <= 0 then 1 else 0)
      {
        var interrupted;
        cnt, interrupted := fd.Read(buf);
        if cnt < 0 {
          if !interrupted {
            return -1;
          }
        } else if cnt == 0 {
          return 0;
        } else {
          bufptr := 0;
          assert buf[0..cnt] == buf[..cnt];
        }
      }
      return 1;
    }

    // Hand out the first bytes of the buffer.
    method Take(usrbuf: array<bv8>, off: nat, count: nat)
      requires Valid() && 0 < cnt && count <= cnt && off + count <= usrbuf.Length && usrbuf != buf
      modifies `cnt, `bufptr, usrbuf
      ensures Valid() && At() == old(At()) + count && cnt == old(cnt) - count
      ensures usrbuf[off..off + count] == fd.stream[old(At())..At()]
      ensures forall i :: 0 <= i < usrbuf.Length && !(off <= i < off + count) ==> usrbuf[i] == old(usrbuf[i])
    {
      Halves(buf[..], bufptr, bufptr + cnt, count);
      Halves(fd.stream, fd.pos - cnt, fd.pos, count);
      Copy(usrbuf, off, buf, bufptr, count);
      bufptr := bufptr + count;
      cnt := cnt - count;
    }

    method Read(usrbuf: array<bv8>, off: nat, n: nat) returns (count: int)
      requires Valid() && off + n <= usrbuf.Length && usrbuf != buf
      modifies `cnt, `bufptr, fd`pos, fd`schedule, buf, usrbuf
      ensures Valid() && -1 <= count <= n
      ensures At() == old(At()) + (if count < 0 then 0 else count)
      ensures count >= 0 ==> count == n || cnt <= 0
      ensures old(cnt) > 0 ==> count >= 0 && fd.pos == old(fd.pos) && fd.schedule == old(fd.schedule)
      ensures count == 0 && n > 0 ==> At() == |fd.stream|
      ensures count >= 0 ==> usrbuf[off..off + count] == fd.stream[old(At())..At()]
      ensures forall i :: 0 <= i < usrbuf.Length && !(off <= i < off + count) ==> usrbuf[i] == old(usrbuf[i])
      ensures Fails(fd.schedule) == Fails(old(fd.schedule)) - (if count < 0 then 1 else 0)
    {
      hide Fails, Reader.Valid, Reader.At;
      var ready := Refill();
      if ready <= 0 {
        return ready;
      }
      count := if cnt < n then cnt else n;
      Take(usrbuf, off, count);
    }

    method ReadNB(usrbuf: array<bv8>, n: nat) returns (count: int)
      requires Valid() && n <= usrbuf.Length && usrbuf != buf
      modifies `cnt, `bufptr, fd`pos, fd`schedule, buf, usrbuf
      ensures Valid() && old(At()) <= At()
      ensures count == -1 || At() == old(At()) + count
      ensures count == -1 || count == n || (count < n && At() == |fd.stream|)
      ensures count == -1 ==> At() < old(At()) + n
      ensures usrbuf[..At() - old(At())] == fd.stream[old(At())..At()]
      ensures forall i :: At() - old(At()) <= i < usrbuf.Length ==> usrbuf[i] == old(usrbuf[i])
      ensures Fails(fd.schedule) == Fails(old(fd.schedule)) - (if count < 0 then 1 else 0)
    {
      hide Fails, Reader.Valid, Reader.At;
      ghost var stream, at := fd.stream, At();
      var bufp := 0;
      while bufp < n
        invariant Valid() && bufp <= n
        invariant At() == at + bufp
        invariant usrbuf[..bufp] == stream[at..At()]
        invariant forall i :: bufp <= i < usrbuf.Length ==> usrbuf[i] == old(usrbuf[i])
        invariant Fails(fd.schedule) == Fails(old(fd.schedule))
      {
        ghost var before := usrbuf[..bufp];
        var nread := Read(usrbuf, bufp, n - bufp);
        if nread < 0 {
          return -1;
        } else if nread == 0 {
          break;
        }
        assert usrbuf[..bufp] == before;
        assert usrbuf[..bufp + nread] == usrbuf[..bufp] + usrbuf[bufp..bufp + nread];
        assert stream[at..At()] == stream[at..at + bufp] + stream[at + bufp..At()];
        bufp := bufp + nread;
      }
      return bufp;
    }

    // rio_read of a single byte into a local variable.
    method ReadByte() returns (rc: int, c: bv8)
      requires Valid()
      modifies `cnt, `bufptr, fd`pos, fd`schedule, buf
      ensures Valid() && -1 <= rc <= 1
      ensures At() == old(At()) + (if rc < 0 then 0 else rc)
      ensures rc == 0 ==> At() == |fd.stream|
      ensures rc == 1 ==> c == fd.stream[old(At())]
      ensures Fails(fd.schedule) == Fails(old(fd.schedule)) - (if rc < 0 then 1 else 0)
    {
      hide Fails;
      var local := new bv8[1];
      rc := Read(local, 0, 1);
      c := local[0];
      assert rc == 1 ==> c == local[0..1][0];
    }

    // One byte more of the line that began at `from`, stored behind the n it has.
    method ReadInto(usrbuf: array<bv8>, n: nat, ghost from: nat) returns (rc: int, c: bv8)
      requires Valid() && usrbuf != buf && n < usrbuf.Length
      requires At() == from + n && usrbuf[..n] == fd.stream[from..At()]
      modifies `cnt, `bufptr, fd`pos, fd`schedule, buf, usrbuf
      ensures Valid() && -1 <= rc <= 1
      ensures At() == old(At()) + (if rc < 0 then 0 else rc)
      ensures rc == 0 ==> At() == |fd.stream|
      ensures rc == 1 ==> c == fd.stream[old(At())]
      ensures usrbuf[..At() - from] == fd.stream[from..At()]
      ensures forall i :: At() - from <= i < usrbuf.Length ==> usrbuf[i] == old(usrbuf[i])
      ensures Fails(fd.schedule) == Fails(old(fd.schedule)) - (if rc < 0 then 1 else 0)
    {
      hide Fails, Reader.Valid, Reader.At;
      rc, c := ReadByte();
      if rc == 1 {
        Longer(fd.stream, from, from + n, usrbuf[..n], c);
        Store(usrbuf, n, c);
      }
    }

    // The buffer must hold the line and the zero byte after it: it has maxlen >= 1 bytes, or
    // enough for the line that comes.
    method ReadLineB(usrbuf: array<bv8>, maxlen: nat) returns (count: int)
      requires Valid() && usrbuf != buf
      requires 1 <= maxlen <= usrbuf.Length || LineEnd(fd.stream, At(), Limit(maxlen)) - At() < usrbuf.Length
      modifies `cnt, `bufptr, fd`pos, fd`schedule, buf, usrbuf
      ensures Valid() && old(At()) <= At() <= LineEnd(fd.stream, old(At()), Limit(maxlen))
      ensures At() - old(At()) < usrbuf.Length
      ensures count == -1 || At() == old(At()) + count == LineEnd(fd.stream, old(At()), Limit(maxlen))
      ensures maxlen >= 1 ==> count <= maxlen - 1
      ensures count == -1 ==> At() < LineEnd(fd.stream, old(At()), Limit(maxlen)) || At() == |fd.stream|
      ensures usrbuf[..At() - old(At())] == fd.stream[old(At())..At()]
      ensures count >= 0 ==> usrbuf[count] == 0
      ensures forall i :: At() - old(At()) <= i < usrbuf.Length && i != count ==> usrbuf[i] == old(usrbuf[i])
      ensures Fails(fd.schedule) == Fails(old(fd.schedule)) - (if count < 0 then 1 else 0)
    {
      hide Fails, LineEnd, Limit, Reader.Valid, Reader.At;
      ghost var stream, at := fd.stream, At();
      LineShort(stream, at, maxlen);
      var limit := Limit(maxlen);
      ghost var end := LineEnd(stream, at, limit);
      assert end - at < usrbuf.Length && (maxlen >= 1 ==> end - at <= maxlen - 1);
      var n := 0;
      while n < limit
        invariant Valid() && n <= limit
        invariant At() == at + n
        invariant end == LineEnd(stream, At(), limit - n)
        invariant usrbuf[..n] == stream[at..At()]
        invariant forall i :: n <= i < usrbuf.Length ==> usrbuf[i] == old(usrbuf[i])
        invariant Fails(fd.schedule) == Fails(old(fd.schedule))
      {
        LineEndStep(stream, At(), limit - n);
        var rc, c := ReadInto(usrbuf, n, at);
        if rc == 1 {
          n := n + 1;
          if c == NEWLINE {
            break;
          }
        } else if rc == 0 {
          break;
        } else {
          return -1;
        }
      }
      LineEndStep(stream, At(), limit - n);
      usrbuf[n] := 0;
      return n;
    }
  }

  // A caller's requests, and what they deliver of a stream: no schedule appears here.
  datatype Request = Exactly(n: nat) | Line(maxlen: nat)

  function Next(stream: Bytes, at: nat, request: Request): (end: nat)
    requires at <= |stream|
    ensures at <= end <= |stream|
  {
    match request
    case Exactly(n) => Min(at + n, |stream|)
    case Line(maxlen) => LineEnd(stream, at, Limit(maxlen))
  }

  function EndOf(stream: Bytes, at: nat, requests: seq<Request>): (end: nat)
    requires at <= |stream|
    ensures at <= end <= |stream|
    decreases |requests|
  {
    if requests == [] then at else EndOf(stream, Next(stream, at, requests[0]), requests[1..])
  }

  function Delivered(stream: Bytes, at: nat, requests: seq<Request>): (results: seq<Bytes>)
    requires at <= |stream|
    ensures |results| == |requests|
    decreases |requests|
  {
    if requests == [] then []
    else
      var end := Next(stream, at, requests[0]);
      [stream[at..end]] + Delivered(stream, end, requests[1..])
  }

  function Joined(pieces: seq<Bytes>): Bytes {
    if pieces == [] then [] else pieces[0] + Joined(pieces[1..])
  }

  // Nothing lost, repeated or reordered: the pieces put together are a stretch of the stream.
  lemma {:induction false} NothingLost(stream: Bytes, at: nat, requests: seq<Request>)
    requires at <= |stream|
    ensures Joined(Delivered(stream, at, requests)) == stream[at..EndOf(stream, at, requests)]
    decreases |requests|
  {
    if requests != [] {
      var end := Next(stream, at, requests[0]);
      var last := EndOf(stream, at, requests);
      NothingLost(stream, end, requests[1..]);
      assert stream[at..last] == stream[at..end] + stream[end..last];
      assert Delivered(stream, at, requests)[1..] == Delivered(stream, end, requests[1..]);
    }
  }

  predicate Wants(request: Request) {
    match request
    case Exactly(n) => n > 0
    case Line(maxlen) => maxlen != 1
  }

  // Enough requests that each leave room for a byte deliver the whole rest of the stream.
  lemma {:induction false} EverythingArrives(stream: Bytes, at: nat, requests: seq<Request>)
    requires at <= |stream| && |requests| >= |stream| - at
    requires forall r | r in requests :: Wants(r)
    ensures EndOf(stream, at, requests) == |stream|
    decreases |requests|
  {
    if requests != [] {
      assert Wants(requests[0]);
      EverythingArrives(stream, Next(stream, at, requests[0]), requests[1..]);
    }
  }

  // One call of the reader, on a buffer of the caller's that holds what is asked for.
  method Serve(reader: Reader, request: Request) returns (ok: bool, piece: Bytes)
    requires reader.Valid()
    modifies reader`cnt, reader`bufptr, reader.fd`pos, reader.fd`schedule, reader.buf
    ensures reader.Valid()
    ensures ok ==> reader.At() == Next(reader.fd.stream, old(reader.At()), request)
    ensures ok ==> piece == reader.fd.stream[old(reader.At())..reader.At()]
    ensures Fails(reader.fd.schedule) == Fails(old(reader.fd.schedule)) - (if ok then 0 else 1)
  {
    hide Fails, LineEnd, Limit, Reader.Valid, Reader.At;
    var count;
    var usrbuf := new bv8[|reader.fd.stream| + match request { case Exactly(n) => n case Line(_) => 1 }];
    match request {
      case Exactly(n) => count := reader.ReadNB(usrbuf, n);
      case Line(maxlen) => count := reader.ReadLineB(usrbuf, maxlen);
    }
    ok := count >= 0;
    piece := if ok then usrbuf[..count] else [];
  }

  // Whatever the kernel's schedule of short reads and interruptions, a run of requests delivers the same.
  method ServeAll(fd: Descriptor, requests: seq<Request>) returns (results: seq<Bytes>)
    requires fd.Valid() && Fails(fd.schedule) == 0
    modifies fd`pos, fd`schedule
    ensures results == Delivered(fd.stream, old(fd.pos), requests)
    ensures Joined(results) == fd.stream[old(fd.pos)..EndOf(fd.stream, old(fd.pos), requests)]
  {
    hide Fails, Next, Joined, Reader.Valid, Reader.At;
    var reader := new Reader(fd);
    ghost var stream, at := fd.stream, fd.pos;
    results := [];
    for i := 0 to |requests|
      invariant reader.Valid() && reader.fd == fd && fresh(reader) && fresh(reader.buf)
      invariant Fails(fd.schedule) == 0
      invariant results + Delivered(stream, reader.At(), requests[i..]) == Delivered(stream, at, requests)
    {
      var ok, piece := Serve(reader, requests[i]);
      assert requests[i..][1..] == requests[i + 1..];
      results := results + [piece];
    }
    NothingLost(stream, at, requests);
  }
}
