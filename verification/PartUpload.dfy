/** Uploading a file in parts: which parts there are, how one is streamed to disk, and what is assembled from them. */
module PartUpload {
  import opened Octets
  import opened Wrappers

  const MAX_UPLOAD_BYTES := 5 * 1024 * 1024 * 1024
  const MAX_PART_BYTES := 64 * 1024 * 1024
  const MAX_PARTS := 100000
  const FLUSH_BYTES := 4 * 1024 * 1024

  datatype Session = Session(total: nat, partSize: nat, partCount: nat)

  datatype Started = Started(session: Session) | Refused(code: nat)

  function CeilDiv(a: nat, b: nat): nat
    requires b > 0
  {
    (a + b - 1) / b
  }

  /** The checks on the numbers of a new upload. */
  function StartUpload(total: nat, partSize: nat, partCount: nat): (r: Started)
    ensures r.Started? ==> Tiled(r.session)
    ensures r.Started? <==>
              && 1 <= total <= 5368709120 && 1 <= partSize <= 67108864 && 1 <= partCount <= 100000
              && (partCount - 1) * partSize < total <= partCount * partSize
    ensures r == Refused(413) <==>
              1 <= total && 1 <= partSize && 1 <= partCount && (total > 5368709120 || partSize > 67108864)
    ensures r == Refused(422) <==> total == 0 || partSize == 0 || partCount == 0
    ensures r.Started? ==> r.session == Session(total, partSize, partCount)
  {
    CeilDivCovers(total, partSize, partCount);
    if total < 1 || partSize < 1 || partCount < 1 then Refused(422)
    else if total > MAX_UPLOAD_BYTES || partSize > MAX_PART_BYTES then Refused(413)
    else if partCount > MAX_PARTS || partCount != CeilDiv(total, partSize) then Refused(400)
    else Started(Session(total, partSize, partCount))
  }

  /** n parts of size b cover a, and n - 1 do not, exactly if n is the quotient rounded up. */
  lemma CeilDivCovers(a: nat, b: nat, n: nat)
    ensures a > 0 && b > 0 && n > 0 ==> (n == CeilDiv(a, b) <==> (n - 1) * b < a <= n * b)
  {
    if a > 0 && b > 0 && n > 0 {
      var q := CeilDiv(a, b);
      assert (q - 1) * b == q * b - b;
      assert q * b <= a + b - 1 < q * b + b;
      if n < q {
        Times(n, q - 1, b);
      } else if n > q {
        Times(q, n - 1, b);
      }
    }
  }

  lemma Times(a: nat, b: nat, n: nat)
    requires a <= b
    ensures a * n <= b * n
  {
  }

  /** The announced number of parts is the one that covers the file. */
  predicate Tiled(s: Session) {
    s.total > 0 && s.partSize > 0 && s.partCount > 0 && (s.partCount - 1) * s.partSize < s.total <= s.partCount * s.partSize
  }

  function PartLength(s: Session, i: nat): int {
    if i == s.partCount - 1 then s.total - i * s.partSize else s.partSize
  }

  function PartStart(s: Session, i: nat): nat {
    i * s.partSize
  }

  lemma PartFits(s: Session, i: nat)
    requires Tiled(s) && i < s.partCount
    ensures 0 < PartLength(s, i) <= s.partSize && PartStart(s, i) + PartLength(s, i) <= s.total
    ensures PartStart(s, i) + PartLength(s, i) == if i + 1 < s.partCount then PartStart(s, i + 1) else s.total
  {
    assert (i + 1) * s.partSize == i * s.partSize + s.partSize;
    assert s.partCount * s.partSize == (s.partCount - 1) * s.partSize + s.partSize;
    if i + 1 < s.partCount {
      Times(i + 1, s.partCount - 1, s.partSize);
    }
  }

  /** Every byte of the file is in exactly one part. */
  lemma PartsTile(s: Session, at: nat)
    requires Tiled(s) && at < s.total
    ensures at / s.partSize < s.partCount
    ensures forall i: nat :: i < s.partCount ==>
              (PartStart(s, i) <= at < PartStart(s, i) + PartLength(s, i) <==> i == at / s.partSize)
  {
    var q := at / s.partSize;
    assert q * s.partSize <= at < q * s.partSize + s.partSize;
    if q >= s.partCount {
      Times(s.partCount, q, s.partSize);
    }
    PartFits(s, q);
    assert q < s.partCount - 1 ==> PartLength(s, q) == s.partSize;
    forall i: nat | i < s.partCount && i != q
      ensures !(PartStart(s, i) <= at < PartStart(s, i) + PartLength(s, i))
    {
      PartFits(s, i);
      assert (i + 1) * s.partSize == i * s.partSize + s.partSize;
      assert (q + 1) * s.partSize == q * s.partSize + s.partSize;
      if i < q {
        Times(i + 1, q, s.partSize);
      } else {
        Times(q + 1, i, s.partSize);
      }
    }
  }

  /** Two parts share no byte. */
  lemma PartsApart(s: Session, i: nat, j: nat)
    requires Tiled(s) && i < j < s.partCount
    ensures PartStart(s, i) + PartLength(s, i) <= PartStart(s, j)
  {
    PartFits(s, i);
    Times(i + 1, j, s.partSize);
  }

  // ---------- Writing ----------

  /** The file with data written at the given place. */
  ghost function Written(file: Bytes, at: nat, data: Bytes): (f: Bytes)
    requires at + |data| <= |file|
    ensures |f| == |file|
  {
    file[..at] + data + file[at + |data|..]
  }

  lemma WrittenTwice(file: Bytes, at: nat, a: Bytes, b: Bytes)
    requires at + |a| + |b| <= |file|
    ensures Written(Written(file, at, a), at + |a|, b) == Written(file, at, a + b)
  {
  }

  /** Nothing outside the given range differs. */
  ghost predicate SameOutside(f: Bytes, g: Bytes, at: nat, len: nat) {
    |f| == |g| && forall k :: 0 <= k < |f| && !(at <= k < at + len) ==> f[k] == g[k]
  }

  /** What a body's stream delivers, piece by piece; it may stall. */
  datatype Event = Piece(bytes: Bytes) | Stall

  datatype Outcome = Accepted | TooLarge | Stalled | Short | Misdeclared | OutOfRange

  function Body(events: seq<Event>): Bytes {
    if events == [] then [] else (if events[0].Piece? then events[0].bytes else []) + Body(events[1..])
  }

  /** How a stream ends that has already delivered `had` bytes of the expected ones. */
  function Verdict(events: seq<Event>, had: nat, expected: nat): (r: Outcome)
    ensures r != OutOfRange && r != Misdeclared
  {
    if events == [] then if had == expected then Accepted else Short
    else if events[0].Stall? then Stalled
    else if had + |events[0].bytes| > expected then TooLarge
    else Verdict(events[1..], had + |events[0].bytes|, expected)
  }

  /** A stream is accepted exactly if it never stalls and delivers as many bytes as expected. */
  lemma {:induction false} AcceptedIff(events: seq<Event>, had: nat, expected: nat)
    ensures Verdict(events, had, expected) == Accepted <==> Stall !in events && had + |Body(events)| == expected
  {
    if events == [] {
    } else {
      AcceptedIff(events[1..], if events[0].Piece? then had + |events[0].bytes| else had, expected);
      assert events == [events[0]] + events[1..];
    }
  }

  /** The stream has neither stalled nor delivered too much before event i. */
  ghost predicate FineUpto(events: seq<Event>, i: nat, had: nat, expected: nat) {
    i <= |events| && Stall !in events[..i] && had + |Body(events[..i])| <= expected
  }

  lemma FineOneLater(events: seq<Event>, i: nat, had: nat, expected: nat)
    requires events != [] && events[0].Piece? && had + |events[0].bytes| <= expected && i < |events|
    ensures FineUpto(events, i + 1, had, expected) <==> FineUpto(events[1..], i, had + |events[0].bytes|, expected)
    ensures Body(events[..i + 1]) == events[0].bytes + Body(events[1..][..i])
  {
    assert events[..i + 1][1..] == events[1..][..i];
    assert events[..i + 1] == [events[0]] + events[1..][..i];
  }

  /** The first thing that goes wrong decides: a stall, or the piece that exceeds what was announced. */
  lemma {:induction false} VerdictIs(events: seq<Event>, had: nat, expected: nat) returns (i: nat)
    requires had <= expected
    ensures FineUpto(events, i, had, expected)
    ensures match Verdict(events, had, expected)
            case Accepted => i == |events| && had + |Body(events)| == expected
            case Short => i == |events| && had + |Body(events)| < expected
            case Stalled => i < |events| && events[i].Stall?
            case TooLarge => i < |events| && events[i].Piece? && had + |Body(events[..i])| + |events[i].bytes| > expected
            case _ => false
  {
    if events == [] || events[0].Stall? || had + |events[0].bytes| > expected {
      i := 0;
    } else {
      var j := VerdictIs(events[1..], had + |events[0].bytes|, expected);
      i := j + 1;
      FineOneLater(events, j, had, expected);
      assert events[..|events|] == events && events[1..][..|events| - 1] == events[1..];
    }
  }

  /** got is what the first i events have delivered. */
  ghost predicate Delivered(events: seq<Event>, i: nat, got: Bytes, expected: nat) {
    && i <= |events| && got + Body(events[i..]) == Body(events)
    && Verdict(events[i..], |got|, expected) == Verdict(events, 0, expected)
  }

  lemma Deliver(events: seq<Event>, i: nat, got: Bytes, expected: nat)
    requires i < |events| && Delivered(events, i, got, expected) && |got| <= expected
    ensures events[i].Stall? ==> Verdict(events, 0, expected) == Stalled
    ensures events[i].Piece? && |got| + |events[i].bytes| > expected ==> Verdict(events, 0, expected) == TooLarge
    ensures events[i].Piece? && |got| + |events[i].bytes| <= expected ==>
              Delivered(events, i + 1, got + events[i].bytes, expected)
    ensures events[i].Piece? && events[i].bytes == [] ==> got + events[i].bytes == got
  {
    assert events[i..][1..] == events[i + 1..];
    if events[i].Piece? {
      var a, b := events[i].bytes, Body(events[i + 1..]);
      assert (got + a) + b == got + (a + b);
    }
  }

  lemma AllDelivered(events: seq<Event>, got: Bytes, expected: nat)
    requires Delivered(events, |events|, got, expected)
    ensures got == Body(events)
    ensures Verdict(events, 0, expected) == if |got| == expected then Accepted else Short
  {
  }

  /** The files of one session: the data and a marker for each complete part. */
  class SessionDir {
    var data: Bytes
    var markers: set<nat>

    constructor (total: nat)
      ensures data == Zeros(total) && markers == {}
    {
      data := Zeros(total);
      markers := {};
    }

    /** Writes all of a buffer, in as many steps as the system takes. */
    method PwriteAll(buf: Bytes, offset: nat)
      requires offset + |buf| <= |data|
      modifies this`data
      ensures data == Written(old(data), offset, buf)
    {
      var view, at := buf, offset;
      while view != []
        invariant at == offset + |buf| - |view| && |view| <= |buf| && view == buf[|buf| - |view|..]
        invariant data == Written(old(data), offset, buf[..|buf| - |view|])
        decreases |view|
      {
        var n :| 1 <= n <= |view|;
        var k := |buf| - |view|;
        WrittenTwice(old(data), offset, buf[..k], view[..n]);
        assert buf[..k] + view[..n] == buf[..k + n];
        data := data[..at] + view[..n] + data[at + n..];
        view := view[n..];
        at := at + n;
      }
      assert buf[..|buf|] == buf;
    }

    /** Streams one part to its place. Its marker goes first and comes back only when every byte is on disk. */
    method WritePartStreamed(index: nat, offset: nat, expected: nat, events: seq<Event>) returns (r: Outcome)
      requires offset + expected <= |data|
      modifies this
      ensures r == Verdict(events, 0, expected)
      ensures markers == if r == Accepted then old(markers) + {index} else old(markers) - {index}
      ensures r == Accepted ==> |Body(events)| == expected && data == Written(old(data), offset, Body(events))
      ensures SameOutside(old(data), data, offset, expected)
    {
      markers := markers - {index};
      var written: nat, flushed: nat, buf := 0, 0, [];
      ghost var before := data;
      ghost var got: Bytes := [];
      assert Written(before, offset, []) == before;
      for i := 0 to |events|
        invariant markers == old(markers) - {index}
        invariant written == |got| <= expected && Progress(before, offset, got, flushed, buf)
        invariant Delivered(events, i, got, expected)
      {
        WrittenInRange(before, offset, got[..flushed], expected);
        Deliver(events, i, got, expected);
        if events[i].Stall? {
          return Stalled;
        }
        var chunk := events[i].bytes;
        if chunk != [] {
          if written + |chunk| > expected {
            return TooLarge;
          }
          flushed, buf := Take(before, offset, got, flushed, buf, chunk);
          got := got + chunk;
          written := written + |chunk|;
        }
      }
      if buf != [] {
        Flush(before, offset, flushed, got, buf);
      }
      assert got[..|got|] == got;
      WrittenInRange(before, offset, got, expected);
      AllDelivered(events, got, expected);
      if written != expected {
        return Short;
      }
      markers := markers + {index};
      return Accepted;
    }

    /** The bytes got so far are on disk up to `flushed`, and after that in the buffer. */
    ghost predicate Progress(before: Bytes, offset: nat, got: Bytes, flushed: nat, buf: Bytes)
      reads this
    {
      && offset + |got| <= |before| && flushed <= |got| && buf == got[flushed..]
      && data == Written(before, offset, got[..flushed])
    }

    /** Adds a chunk to the buffer, and writes the buffer out when it is large. */
    method Take(ghost before: Bytes, offset: nat, ghost got: Bytes, flushed: nat, buf: Bytes, chunk: Bytes)
      returns (flushed': nat, buf': Bytes)
      requires Progress(before, offset, got, flushed, buf) && offset + |got| + |chunk| <= |before|
      modifies this`data
      ensures Progress(before, offset, got + chunk, flushed', buf')
    {
      ghost var more := got + chunk;
      flushed', buf' := flushed, buf + chunk;
      assert more[..flushed] == got[..flushed];
      if |buf'| >= FLUSH_BYTES {
        Flush(before, offset, flushed, more, buf');
        flushed', buf' := flushed + |buf'|, [];
        assert more[..flushed'] == more;
      }
    }

    method Flush(ghost before: Bytes, offset: nat, flushed: nat, ghost got: Bytes, buf: Bytes)
      requires Progress(before, offset, got, flushed, buf)
      modifies this`data
      ensures data == Written(before, offset, got)
    {
      WrittenTwice(before, offset, got[..flushed], buf);
      assert got[..flushed] + buf == got;
      PwriteAll(buf, offset + flushed);
    }
  }

  lemma WrittenInRange(file: Bytes, at: nat, data: Bytes, len: nat)
    requires |data| <= len && at + len <= |file|
    ensures SameOutside(file, Written(file, at, data), at, len)
  {
  }

  // ---------- The server's view of one upload ----------

  /** The part's place in the file holds the body. */
  ghost predicate Holds(s: Session, data: Bytes, i: nat, body: Bytes)
    requires Tiled(s) && i < s.partCount && |data| == s.total
  {
    PartFits(s, i);
    |body| == PartLength(s, i) && data[PartStart(s, i)..PartStart(s, i) + PartLength(s, i)] == body
  }

  ghost predicate AllHold(s: Session, data: Bytes, markers: set<nat>, accepted: map<nat, Bytes>) {
    && Tiled(s) && |data| == s.total
    && forall i :: i in markers ==> i < s.partCount && i in accepted && Holds(s, data, i, accepted[i])
  }

  /** The bodies of the first n parts, one after the other. */
  ghost function Assembled(bodies: map<nat, Bytes>, n: nat): Bytes
    requires forall i :: 0 <= i < n ==> i in bodies
  {
    if n == 0 then [] else Assembled(bodies, n - 1) + bodies[n - 1]
  }

  /** Where part n starts; the file's end for n past the last part. */
  ghost function PartEnd(s: Session, n: nat): nat {
    if n < s.partCount then PartStart(s, n) else s.total
  }

  lemma {:induction false} AssembledUpTo(s: Session, data: Bytes, bodies: map<nat, Bytes>, n: nat)
    requires Tiled(s) && |data| == s.total && n <= s.partCount
    requires forall i :: 0 <= i < n ==> i in bodies && Holds(s, data, i, bodies[i])
    ensures PartEnd(s, n) <= s.total && Assembled(bodies, n) == data[..PartEnd(s, n)]
  {
    if n == 0 {
    } else {
      AssembledUpTo(s, data, bodies, n - 1);
      PartFits(s, n - 1);
      assert Holds(s, data, n - 1, bodies[n - 1]);
      var a, b := PartStart(s, n - 1), PartEnd(s, n);
      assert data[..a] + data[a..b] == data[..b];
    }
  }

  /** When every part is in place the file is the bodies in order. */
  lemma WholeFile(s: Session, data: Bytes, bodies: map<nat, Bytes>)
    requires Tiled(s) && |data| == s.total
    requires forall i :: 0 <= i < s.partCount ==> i in bodies && Holds(s, data, i, bodies[i])
    ensures data == Assembled(bodies, s.partCount)
  {
    AssembledUpTo(s, data, bodies, s.partCount);
    assert data[..s.total] == data;
  }

  /** A write inside one part leaves every other part as it is. */
  lemma OthersHold(s: Session, f: Bytes, g: Bytes, i: nat, j: nat, body: Bytes)
    requires Tiled(s) && |f| == s.total && i < s.partCount && j < s.partCount && i != j
    requires PartLength(s, i) >= 0 && SameOutside(f, g, PartStart(s, i), PartLength(s, i))
    requires Holds(s, f, j, body)
    ensures Holds(s, g, j, body)
  {
    PartFits(s, j);
    if i < j {
      PartsApart(s, i, j);
    } else {
      PartsApart(s, j, i);
    }
    var a, b := PartStart(s, j), PartStart(s, j) + PartLength(s, j);
    assert g[a..b] == f[a..b];
  }

  /** The server's handling of one upload. accepted records the last body that was accepted for each part. */
  class Upload {
    const session: Session
    const dir: SessionDir
    ghost var accepted: map<nat, Bytes>
    var blob: Option<Bytes>

    ghost predicate Valid()
      reads this, dir
    {
      blob.None? ==> AllHold(session, dir.data, dir.markers, accepted)
    }

    constructor (s: Session)
      requires Tiled(s)
      ensures Valid() && session == s && accepted == map[] && blob == None && fresh(dir)
    {
      session := s;
      dir := new SessionDir(s.total);
      accepted := map[];
      blob := None;
    }

    /** Takes the body of one part; a part that is refused midway loses its marker, but no other part is touched. */
    method UploadPart(index: int, declared: Option<nat>, events: seq<Event>) returns (r: Outcome)
      requires Valid() && blob == None
      modifies this, dir
      ensures Valid() && blob == None
      ensures r == if !(0 <= index < session.partCount) then OutOfRange
                   else if declared.Some? && declared.value != PartLength(session, index) then Misdeclared
                   else Verdict(events, 0, if PartLength(session, index) < 0 then 0 else PartLength(session, index))
      ensures r == Accepted ==> index >= 0 && accepted == old(accepted)[index := Body(events)]
      ensures r != Accepted ==> accepted == old(accepted)
      ensures r == Accepted ==> dir.markers == old(dir.markers) + {index}
      ensures r == OutOfRange || r == Misdeclared ==> dir.markers == old(dir.markers) && dir.data == old(dir.data)
      ensures r == Stalled || r == TooLarge || r == Short ==> dir.markers == old(dir.markers) - {index}
    {
      if !(0 <= index < session.partCount) {
        return OutOfRange;
      }
      PartFits(session, index);
      var expected := PartLength(session, index);
      if declared.Some? && declared.value != expected {
        return Misdeclared;
      }
      ghost var before, data := accepted, dir.data;
      r := dir.WritePartStreamed(index, index * session.partSize, expected, events);
      if r == Accepted {
        accepted := accepted[index := Body(events)];
      }
      PartTaken(session, data, dir.data, old(dir.markers), before, index, if r == Accepted then Some(Body(events)) else None);
    }

    /** Hands over the file, if every part is there: then it is the accepted bodies in order. */
    method Complete() returns (ok: bool)
      requires Valid() && blob == None
      modifies this`blob
      ensures ok <==> forall i :: 0 <= i < session.partCount ==> i in dir.markers
      ensures ok ==> && (forall i :: 0 <= i < session.partCount ==> i in accepted)
                     && blob == Some(Assembled(accepted, session.partCount)) && |blob.value| == session.total
      ensures !ok ==> Valid() && blob == None
    {
      for i := 0 to session.partCount
        invariant forall j :: 0 <= j < i ==> j in dir.markers
      {
        if i !in dir.markers {
          return false;
        }
      }
      WholeFile(session, dir.data, accepted);
      blob := Some(dir.data);
      return true;
    }
  }

  lemma PartTaken(
    s: Session, f: Bytes, g: Bytes, markers: set<nat>, accepted: map<nat, Bytes>, i: nat, body: Option<Bytes>)
    requires AllHold(s, f, markers, accepted) && i < s.partCount && |g| == s.total
    requires PartLength(s, i) >= 0 && SameOutside(f, g, PartStart(s, i), PartLength(s, i))
    requires body.Some? ==> PartStart(s, i) + |body.value| <= |f| && |body.value| == PartLength(s, i) &&
                            g == Written(f, PartStart(s, i), body.value)
    ensures body.Some? ==> AllHold(s, g, markers + {i}, accepted[i := body.value])
    ensures body.None? ==> AllHold(s, g, markers - {i}, accepted)
  {
    forall j | j in markers && j != i
      ensures Holds(s, g, j, accepted[j])
    {
      OthersHold(s, f, g, i, j, accepted[j]);
    }
    if body.Some? {
      PartFits(s, i);
      assert Holds(s, g, i, body.value);
    }
  }
}
