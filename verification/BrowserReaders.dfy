/** The browser's three ways of opening a chunked file: whole, as a stream, and inside the service worker. */
module BrowserReaders {
  import opened ChunkFormat
  import opened ChunkIo
  import opened ChunkTheorems
  import opened Octets
  import opened Wrappers

  const MAX_SAFE_INTEGER := 0x1f_ffff_ffff_ffff

  /** The pieces of a stream, joined. */
  function Flat(pieces: seq<Bytes>): Bytes {
    if pieces == [] then [] else pieces[0] + Flat(pieces[1..])
  }

  /** The chunk count, unless the sizes make no sense or there are too many chunks to number. */
  function SaneCount(p: Params): Option<nat> {
    if !(0 < p.chunk <= MAX_SAFE_INTEGER) || p.size > MAX_SAFE_INTEGER || p.Count() > U32_MAX then None
    else Some(p.Count())
  }

  /** What the in-memory and the streaming reader accept. */
  ghost function Accepted(c: Cipher, p: Params, t: Bytes): Option<Bytes> {
    if SaneCount(p).Some? then OpenedFile(c, p, t) else None
  }

  /** The file's part of an opened chunk, its filler checked for format 2. */
  function TakeFromChunk(format: Format, plain: Bytes, take: nat): Option<Bytes>
    requires take <= |plain|
  {
    if format == V2 && take < |plain| && !AllZero(plain[take..]) then None else Some(plain[..take])
  }

  method PutAt(out: array<Byte>, at: nat, part: Bytes)
    requires at + |part| <= out.Length
    modifies out
    ensures out[..at] == old(out[..at]) && out[at..at + |part|] == part
    ensures out[at + |part|..] == old(out[at + |part|..])
  {
    forall k | 0 <= k < |part| {
      out[at + k] := part[k];
    }
  }

  /** Opens a ciphertext held in memory into an array of the file's size. */
  method DecryptWhole(c: Cipher, p: Params, t: Bytes) returns (r: Option<Bytes>)
    requires TagsAreKept(c)
    ensures r == Accepted(c, p, t)
  {
    if |p.prefix| != PREFIX_LEN || SaneCount(p).None? {
      return None;
    }
    var count := SaneCount(p).value;
    var sealed := p.Sealed();
    if |t| != count * sealed {
      return None;
    }
    ChunkCountCovers(p.size, p.chunk);
    var out := new Byte[p.size];
    for i := 0 to count
      invariant i * sealed <= |t|
      invariant Opened(c, p, t, i) == Some(out[..Upto(p, i)])
    {
      AtMostTimes(i + 1, count, sealed);
      var part := OpenPart(c, p, t, i);
      if part.None? {
        return None;
      }
      UptoNext(p, i);
      ghost var before := out[..Upto(p, i)];
      PutAt(out, Upto(p, i), part.value);
      assert out[..Upto(p, i + 1)] == before + part.value;
    }
    assert out[..p.size] == out[..];
    return Some(out[..]);
  }

  /** The file's part of chunk i, if the chunk opens. */
  method OpenPart(c: Cipher, p: Params, t: Bytes, i: nat) returns (part: Option<Bytes>)
    requires TagsAreKept(c) && p.chunk > 0 && i < p.Count() && (i + 1) * p.Sealed() <= |t|
    ensures part == OpenChunk(c, p, i, ChunkOf(p, t, i))
    ensures part.None? ==> OpenedFile(c, p, t).None?
    ensures part.Some? ==> |part.value| == p.Take(i)
  {
    assert i * p.Sealed() + p.Sealed() == (i + 1) * p.Sealed();
    var sealed := t[i * p.Sealed()..i * p.Sealed() + p.Sealed()];
    assert sealed == ChunkOf(p, t, i);
    var plain := c.open(NonceFor(p.prefix, i), AadFor(p.format, i, i == p.Count() - 1), sealed);
    if plain.None? {
      OpenedFileFails(c, p, t, i, sealed);
      return None;
    }
    part := TakeFromChunk(p.format, plain.value, p.Take(i));
    if part.None? {
      OpenedFileFails(c, p, t, i, sealed);
    }
  }

  lemma UptoNext(p: Params, i: nat)
    requires p.chunk > 0 && i < p.Count()
    ensures Upto(p, i) == i * p.chunk || p.Take(i) == 0
    ensures Upto(p, i) + p.Take(i) == Upto(p, i + 1) <= p.size
  {
    assert (i + 1) * p.chunk == i * p.chunk + p.chunk;
  }

  // ---------- The streaming reader ----------

  class ChunkStream {
    const cipher: Cipher
    const params: Params
    const count: nat
    var pieces: seq<Bytes>   // what the underlying stream has still to give
    var pending: Bytes       // the unused end of the last piece
    var index: nat
    var emitted: Bytes       // what was handed on
    ghost const all: Bytes

    /** Everything not yet used. */
    ghost function Rest(): Bytes
      reads this
    {
      pending + Flat(pieces)
    }

    /** Between two chunks: the chunks so far opened to what was emitted. */
    ghost predicate Valid()
      reads this
    {
      && params.Ok() && TagsAreKept(cipher) && count == params.Count() && index <= count
      && index * params.Sealed() <= |all| && Rest() == all[index * params.Sealed()..]
      && Opened(cipher, params, all, index) == Some(emitted)
    }

    constructor (cipher: Cipher, params: Params, pieces: seq<Bytes>)
      requires params.Ok() && TagsAreKept(cipher)
      ensures Valid() && all == Flat(pieces) && index == 0 && emitted == []
      ensures this.cipher == cipher && this.params == params
    {
      this.cipher, this.params, this.pieces := cipher, params, pieces;
      count, pending, index, emitted := params.Count(), [], 0, [];
      all := Flat(pieces);
    }

    /** The next bytes, skipping empty pieces; None at the end. */
    method NextBytes() returns (bytes: Option<Bytes>)
      modifies this`pending, this`pieces
      ensures bytes.Some? ==> bytes.value != [] && old(Rest()) == bytes.value + Rest() && pending == []
      ensures bytes.None? ==> old(Rest()) == [] && Rest() == []
    {
      if pending != [] {
        bytes := Some(pending);
        pending := [];
        assert old(Rest()) == bytes.value + Rest();
        return;
      }
      while pieces != []
        invariant pending == [] && Flat(pieces) == old(Rest())
        decreases |pieces|
      {
        var piece := pieces[0];
        pieces := pieces[1..];
        if piece != [] {
          assert old(Rest()) == piece + Rest();
          return Some(piece);
        }
      }
      return None;
    }

    /** Fills one sealed chunk, keeping what is left of the last piece for the next one. */
    method FillChunk() returns (sealed: Bytes)
      requires params.chunk > 0
      modifies this`pending, this`pieces
      ensures old(Rest()) == sealed + Rest() && |sealed| <= params.Sealed()
      ensures |sealed| < params.Sealed() ==> Rest() == []
    {
      sealed := [];
      while |sealed| < params.Sealed()
        invariant old(Rest()) == sealed + Rest() && |sealed| <= params.Sealed()
        decreases params.Sealed() - |sealed|
      {
        var bytes := NextBytes();
        if bytes.None? {
          return;
        }
        var room := params.Sealed() - |sealed|;
        var take := if |bytes.value| < room then |bytes.value| else room;
        sealed := sealed + bytes.value[..take];
        assert bytes.value == bytes.value[..take] + bytes.value[take..];
        if take < |bytes.value| {
          pending := bytes.value[take..];
        }
      }
    }

    /** Opens the next chunk. After the last one nothing may follow. */
    method Pull() returns (ok: bool)
      requires Valid() && index < count
      modifies this`pending, this`pieces, this`index, this`emitted
      ensures !ok ==> OpenedFile(cipher, params, all).None?
      ensures ok ==> Valid() && index == old(index) + 1
      ensures ok && index == count ==> OpenedFile(cipher, params, all) == Some(emitted)
    {
      AtMostTimes(index + 1, count, params.Sealed());
      var sealed := FillChunk();
      NextChunkOf(params, all, index, sealed, Rest());
      if |sealed| < params.Sealed() {
        OpenedFileFails(cipher, params, all, index, sealed);
        return false;
      }
      var isLast := index == count - 1;
      var plain := cipher.open(NonceFor(params.prefix, index), AadFor(params.format, index, isLast), sealed);
      if plain.None? {
        OpenedFileFails(cipher, params, all, index, sealed);
        return false;
      }
      var part := TakeFromChunk(params.format, plain.value, params.Take(index));
      if part.None? {
        OpenedFileFails(cipher, params, all, index, sealed);
        return false;
      }
      emitted := emitted + part.value;
      index := index + 1;
      if isLast {
        ghost var rest := Rest();
        var more := NextBytes();
        if more.Some? {
          return false;
        }
        assert rest == [];
      }
      return true;
    }
  }

  /** Pulls a stream to its end. */
  method DecryptStream(c: Cipher, p: Params, pieces: seq<Bytes>) returns (r: Option<Bytes>)
    requires TagsAreKept(c)
    ensures r == Accepted(c, p, Flat(pieces))
  {
    if SaneCount(p).None? || |p.prefix| != PREFIX_LEN {
      return None;
    }
    ChunkCountCovers(p.size, p.chunk);
    var s := new ChunkStream(c, p, pieces);
    while s.index < s.count
      invariant s.Valid() && s.cipher == c && s.params == p && s.all == Flat(pieces) && fresh(s)
      invariant s.index == s.count ==> OpenedFile(c, p, s.all) == Some(s.emitted)
      decreases s.count - s.index
    {
      var ok := s.Pull();
      if !ok {
        return None;
      }
    }
    return Some(s.emitted);
  }

  // ---------- The service worker's reader ----------

  class ChunkedDecryptor {
    const cipher: Cipher
    const params: Params
    const count: nat
    var buf: Bytes           // the filled part of the sealed chunk under way
    var index: nat
    var emitted: Bytes
    ghost var consumed: Bytes

    ghost predicate Valid()
      reads this
    {
      && params.Ok() && TagsAreKept(cipher) && count == params.Count() && index <= count
      && |buf| < params.Sealed() && |buf| <= |consumed|
      && |consumed| == index * params.Sealed() + |buf| && consumed[index * params.Sealed()..] == buf
      && Opened(cipher, params, consumed, index) == Some(emitted)
    }

    constructor (cipher: Cipher, params: Params)
      requires params.Ok() && TagsAreKept(cipher)
      ensures Valid() && consumed == [] && index == 0
      ensures this.cipher == cipher && this.params == params
    {
      this.cipher, this.params := cipher, params;
      count, buf, index, emitted := params.Count(), [], 0, [];
      consumed := [];
    }

    /** The ciphertext up to the chunk under way. */
    ghost function Done(): Bytes
      reads this
      requires Valid()
    {
      consumed[..|consumed| - |buf|]
    }

    /** Opens the full chunk in the buffer; a chunk past the last one is refused. */
    method Open(sealed: Bytes) returns (ok: bool)
      requires Valid() && |sealed| == params.Sealed() && buf <= sealed
      modifies this`buf, this`index, this`emitted, this`consumed
      ensures ok ==> Valid() && buf == [] && index == old(index) + 1
      ensures ok ==> consumed == old(Done()) + sealed
      ensures !ok ==> forall rest :: OpenedFile(cipher, params, old(Done()) + sealed + rest).None?
    {
      ghost var before := Done();
      ChunkFollows(cipher, params, before, buf, sealed, index);
      assert before + buf == consumed;
      consumed := before + sealed;
      if index >= count {
        TooLong(cipher, params, consumed);
        return false;
      }
      var plain := cipher.open(NonceFor(params.prefix, index), AadFor(params.format, index, index == count - 1), sealed);
      if plain.None? || TakeFromChunk(params.format, plain.value, params.Take(index)).None? {
        FailsForGood(cipher, params, consumed, index);
        return false;
      }
      emitted := emitted + plain.value[..params.Take(index)];
      index := index + 1;
      buf := [];
      return true;
    }

    /** Takes in bytes that at most fill the chunk under way. */
    method Absorb(piece: Bytes) returns (ok: bool)
      requires Valid() && |buf| + |piece| <= params.Sealed()
      modifies this`buf, this`index, this`emitted, this`consumed
      ensures ok ==> Valid() && consumed == old(consumed) + piece
      ensures !ok ==> forall rest :: OpenedFile(cipher, params, old(consumed) + piece + rest).None?
    {
      ghost var whole := consumed + piece;
      assert consumed == Done() + buf;
      if |buf| + |piece| == params.Sealed() {
        assert Done() + (buf + piece) == whole;
        ok := Open(buf + piece);
      } else {
        OpenedOfPrefix(cipher, params, consumed, piece, index);
        consumed := whole;
        buf := buf + piece;
        ok := true;
      }
    }

    /** Takes in one piece of the ciphertext. */
    method Transform(bytes: Bytes) returns (ok: bool)
      requires Valid()
      modifies this`buf, this`index, this`emitted, this`consumed
      ensures ok ==> Valid() && consumed == old(consumed) + bytes
      ensures !ok ==> forall rest :: OpenedFile(cipher, params, old(consumed) + bytes + rest).None?
    {
      var off := 0;
      assert old(consumed) + bytes[..0] == old(consumed);
      while off < |bytes|
        invariant Valid() && off <= |bytes| && consumed == old(consumed) + bytes[..off]
      {
        ok, off := AbsorbSome(bytes, off, old(consumed));
        if !ok {
          return;
        }
      }
      assert bytes[..off] == bytes;
      return true;
    }

    /** Takes in what fits of the piece from off on. */
    method AbsorbSome(bytes: Bytes, off: nat, ghost before: Bytes) returns (ok: bool, off': nat)
      requires Valid() && off < |bytes| && consumed == before + bytes[..off]
      modifies this`buf, this`index, this`emitted, this`consumed
      ensures off < off' <= |bytes|
      ensures ok ==> Valid() && consumed == before + bytes[..off']
      ensures !ok ==> forall rest :: OpenedFile(cipher, params, before + bytes + rest).None?
    {
      var room := params.Sealed() - |buf|;
      var take := if |bytes| - off < room then |bytes| - off else room;
      off' := off + take;
      ghost var whole := consumed + bytes[off..off'];
      JoinPieces(before, bytes, off, off');
      ok := Absorb(bytes[off..off']);
      if !ok {
        FailsWithRest(cipher, params, whole, bytes[off'..]);
      }
    }

    /** The end of the ciphertext: no chunk may be under way, and none missing. */
    method Flush() returns (ok: bool)
      requires Valid()
      ensures ok <==> OpenedFile(cipher, params, consumed).Some?
      ensures ok ==> OpenedFile(cipher, params, consumed) == Some(emitted)
    {
      ok := buf == [] && index == count;
      if !ok {
        ChunkCountCovers(params.size, params.chunk);
        NotWhole(index, |buf|, count, params.Sealed());
      }
    }
  }

  lemma FailsWithRest(c: Cipher, p: Params, t: Bytes, u: Bytes)
    requires p.chunk > 0 && forall rest :: OpenedFile(c, p, t + rest).None?
    ensures forall rest :: OpenedFile(c, p, t + u + rest).None?
  {
    forall rest
      ensures OpenedFile(c, p, t + u + rest).None?
    {
      assert t + u + rest == t + (u + rest);
    }
  }

  lemma JoinPieces(before: Bytes, bytes: Bytes, i: nat, j: nat)
    requires i <= j <= |bytes|
    ensures before + bytes[..i] + bytes[i..j] == before + bytes[..j]
    ensures before + bytes[..i] + bytes[i..j] + bytes[j..] == before + bytes
  {
    assert bytes[..i] + bytes[i..j] == bytes[..j];
    assert bytes[..j] + bytes[j..] == bytes;
  }

  lemma NotWhole(i: nat, r: nat, n: nat, s: nat)
    requires i <= n && r < s && !(r == 0 && i == n)
    ensures i * s + r != n * s
  {
    if i < n {
      ChunkTheorems.AtMostTimes(i + 1, n, s);
      assert (i + 1) * s == i * s + s;
    }
  }

  lemma {:induction false} OpenedOfPrefix(c: Cipher, p: Params, t: Bytes, u: Bytes, k: nat)
    requires p.chunk > 0 && k * p.Sealed() <= |t|
    ensures Opened(c, p, t + u, k) == Opened(c, p, t, k)
  {
    if k == 0 {
    } else {
      assert k * p.Sealed() == (k - 1) * p.Sealed() + p.Sealed();
      OpenedOfPrefix(c, p, t, u, k - 1);
      ChunkOfPrefix(p, t, u, k - 1);
    }
  }

  /** A full chunk in place of the beginning of it: what was open stays so, and one chunk more is there. */
  lemma ChunkFollows(c: Cipher, p: Params, before: Bytes, buf: Bytes, sealed: Bytes, i: nat)
    requires p.chunk > 0 && |before| == i * p.Sealed() && |sealed| == p.Sealed()
    ensures var t := before + sealed;
            && |t| == (i + 1) * p.Sealed() && t[(i + 1) * p.Sealed()..] == [] && ChunkOf(p, t, i) == sealed
            && Opened(c, p, before + buf, i) == Opened(c, p, t, i)
            && (i >= p.Count() ==> |t| > p.Count() * p.Sealed())
  {
    assert (i + 1) * p.Sealed() == i * p.Sealed() + p.Sealed();
    OpenedOfPrefix(c, p, before, buf, i);
    OpenedOfPrefix(c, p, before, sealed, i);
    if i >= p.Count() {
      ChunkTheorems.AtMostTimes(p.Count(), i, p.Sealed());
    }
  }

  /** A ciphertext of more than all chunks never opens, whatever follows. */
  lemma TooLong(c: Cipher, p: Params, t: Bytes)
    requires p.chunk > 0 && |t| > p.Count() * p.Sealed()
    ensures forall rest :: OpenedFile(c, p, t + rest).None?
  {
  }

  /** Once a chunk does not open, nothing that follows helps. */
  lemma FailsForGood(c: Cipher, p: Params, t: Bytes, i: nat)
    requires p.chunk > 0 && i < p.Count() && (i + 1) * p.Sealed() <= |t|
    requires OpenChunk(c, p, i, ChunkOf(p, t, i)).None?
    ensures forall rest :: OpenedFile(c, p, t + rest).None?
  {
    forall rest
      ensures OpenedFile(c, p, t + rest).None?
    {
      ChunkOfPrefix(p, t, rest, i);
      OpenedFileFails(c, p, t + rest, i, ChunkOf(p, t, i));
    }
  }

  /** Feeds a stream through the service worker's reader. It does not check how many chunks there are. */
  method DecryptInWorker(c: Cipher, p: Params, pieces: seq<Bytes>) returns (r: Option<Bytes>)
    requires TagsAreKept(c) && p.chunk > 0
    ensures r == OpenedFile(c, p, Flat(pieces))
  {
    if |p.prefix| != PREFIX_LEN {
      return None;
    }
    var d := new ChunkedDecryptor(c, p);
    var rest := pieces;
    while rest != []
      invariant d.Valid() && d.cipher == c && d.params == p && fresh(d)
      invariant d.consumed + Flat(rest) == Flat(pieces)
      decreases |rest|
    {
      assert d.consumed + Flat(rest) == d.consumed + rest[0] + Flat(rest[1..]);
      var ok := d.Transform(rest[0]);
      if !ok {
        return None;
      }
      rest := rest[1..];
    }
    assert d.consumed == Flat(pieces);
    var ok := d.Flush();
    return if ok then Some(d.emitted) else None;
  }

  /** However the ciphertext is cut into pieces, the streaming reader does exactly what the in-memory one does. They, and
      the file system client, accept what the service worker accepts where their own limits are met, and nothing where
      they are not. */
  method OpenEveryWay(c: Cipher, p: Params, pieces: seq<Bytes>, script: seq<nat>)
      returns (whole: Option<Bytes>, streamed: Option<Bytes>, worker: Option<Bytes>, native: Option<Bytes>)
    requires TagsAreKept(c) && p.chunk > 0
    ensures streamed == whole
    ensures whole == Accepted(c, p, Flat(pieces))
    ensures native == NativeAccepted(c, p, Flat(pieces))
    ensures worker == OpenedFile(c, p, Flat(pieces))
  {
    whole := DecryptWhole(c, p, Flat(pieces));
    streamed := DecryptStream(c, p, pieces);
    worker := DecryptInWorker(c, p, pieces);
    var source := new Source(Flat(pieces), script);
    native := DecryptChunked(source, c, p);
  }

  /** The limits of the file system client. */
  predicate NativeCount(p: Params)
    requires p.chunk > 0
  {
    MIN_CHUNK <= p.chunk <= MAX_CHUNK && p.Count() <= U32_MAX + 1
  }

  /** What the file system client accepts. */
  ghost function NativeAccepted(c: Cipher, p: Params, t: Bytes): Option<Bytes>
    requires p.chunk > 0
  {
    if NativeCount(p) then OpenedFile(c, p, t) else None
  }

  /** Whatever the sizes, some cipher and ciphertext open: the sealed form of a file of zeros. */
  lemma SomethingOpens(p: Params) returns (c: Cipher, t: Bytes)
    requires p.Ok()
    ensures TagsAreKept(c) && OpenedFile(c, p, t).Some?
  {
    var plain := Zeros(p.size);
    var issued := Sealings(p, plain);
    c := Recording(issued);
    t := SealedFile(c, p, plain);
    IdealExists(issued);
    RoundTrip(c, p, plain);
  }

  /** A file as it was sealed is 16 bytes a chunk longer, and every reader gives it back, within these sizes. */
  lemma HonestFileOpens(c: Cipher, p: Params, plain: Bytes)
    requires |p.prefix| == 8 && p.chunk > 0 && |plain| == p.size && TagsAreKept(c)
    requires forall s :: s in Sealings(p, plain) ==> Opens(c, s)
    ensures var t := SealedFile(c, p, plain);
            && |t| == p.Count() * (p.chunk + 16) && OpenedFile(c, p, t) == Some(plain)
            && Accepted(c, p, t) == (if p.chunk <= 9007199254740991 && p.size <= 9007199254740991 && p.Count() <= 4294967295
                                     then Some(plain) else None)
            && NativeAccepted(c, p, t) == (if 1024 <= p.chunk <= 268435456 && p.Count() <= 4294967296
                                           then Some(plain) else None)
  {
    RoundTrip(c, p, plain);
  }

  ghost predicate PageAgrees(c: Cipher, p: Params, t: Bytes)
    requires p.chunk > 0
  {
    Accepted(c, p, t) == OpenedFile(c, p, t)
  }

  ghost predicate NativeAgrees(c: Cipher, p: Params, t: Bytes)
    requires p.chunk > 0
  {
    NativeAccepted(c, p, t) == OpenedFile(c, p, t)
  }

  /** The page's readers agree with the service worker on every ciphertext exactly if the sizes are within the page's
      limits, the file system client exactly if they are within its own. */
  lemma ReadersAgreeIff(p: Params)
    requires p.Ok()
    ensures SaneCount(p).Some? <==> forall c, t :: TagsAreKept(c) ==> PageAgrees(c, p, t)
    ensures NativeCount(p) <==> forall c, t :: TagsAreKept(c) ==> NativeAgrees(c, p, t)
  {
    var c, t := SomethingOpens(p);
    assert PageAgrees(c, p, t) ==> SaneCount(p).Some?;
    assert NativeAgrees(c, p, t) ==> NativeCount(p);
  }

  /** For instance a file of 2^32 chunks of one byte: the service worker opens it and the page does not. */
  lemma PageRefusesMore(prefix: Bytes) returns (c: Cipher, p: Params, t: Bytes)
    requires |prefix| == PREFIX_LEN
    ensures p.Ok() && TagsAreKept(c) && OpenedFile(c, p, t).Some? && Accepted(c, p, t).None?
  {
    p := Params(V2, prefix, 1, U32_MAX + 1);
    c, t := SomethingOpens(p);
  }
}
