/** Streaming a chunked file out of and into pieces of any size. */
module ChunkIo {
  import opened ChunkFormat
  import opened ChunkTheorems
  import opened Octets
  import opened Wrappers

  /** A reader that gives its bytes in whatever portions the script dictates, but always some while any are left. */
  class Source {
    const data: Bytes
    var pos: nat
    var script: seq<nat>

    ghost predicate Valid()
      reads this
    {
      pos <= |data|
    }

    ghost function Rest(): Bytes
      reads this
      requires Valid()
    {
      data[pos..]
    }

    constructor (data: Bytes, script: seq<nat>)
      ensures Valid() && Rest() == data
    {
      this.data := data;
      this.script := script;
      pos := 0;
    }

    method Read(max: nat) returns (got: Bytes)
      requires Valid()
      modifies this
      ensures Valid() && old(Rest()) == got + Rest()
      ensures |got| <= max && (got == [] <==> max == 0 || old(Rest()) == [])
    {
      var most := if max < |data| - pos then max else |data| - pos;
      var n := most;
      if script != [] {
        n := if script[0] == 0 then 1 else script[0];
        n := if n < most then n else most;
        script := script[1..];
      }
      got := data[pos..pos + n];
      pos := pos + n;
    }
  }

  /** Reads until n bytes are there or the source ends. */
  method ReadFull(source: Source, n: nat) returns (got: Bytes)
    requires source.Valid()
    modifies source
    ensures source.Valid() && old(source.Rest()) == got + source.Rest()
    ensures |got| <= n && (|got| < n ==> source.Rest() == [])
  {
    got := [];
    while |got| < n
      invariant source.Valid() && old(source.Rest()) == got + source.Rest() && |got| <= n
      decreases n - |got|
    {
      var more := source.Read(n - |got|);
      if more == [] {
        return;
      }
      got := got + more;
    }
  }

  // ---------- Encrypting ----------

  /** The first n bytes, filled up with zeros where there are fewer. */
  ghost function Fit(b: Bytes, n: nat): (r: Bytes)
    ensures |r| == n
  {
    if |b| >= n then b[..n] else b + Zeros(n - |b|)
  }

  /** Seals a source chunk by chunk while it is being read. */
  class ChunkedEncryptReader {
    const source: Source
    const cipher: Cipher
    const params: Params
    const count: nat
    var index: nat
    var buf: Bytes
    var pos: nat
    ghost const start: Bytes   // what the source held at the beginning
    ghost var emitted: Bytes   // everything read out so far

    ghost function Plain(): Bytes {
      Fit(start, params.size)
    }

    ghost predicate Valid()
      reads this, source
    {
      && params.chunk == CHUNK_SIZE && count == params.Count() && TagsAreKept(cipher)
      && source.Valid() && index <= count && pos <= |buf|
      && index <= U32_MAX + 1 && (index > 0 ==> |params.prefix| == PREFIX_LEN)
      && Upto(params, index) <= |start| && source.Rest() == start[Upto(params, index)..]
      && emitted + buf[pos..] == SealedChunks(cipher, params, Plain(), index)
    }

    constructor (source: Source, cipher: Cipher, params: Params)
      requires source.Valid() && TagsAreKept(cipher) && params.chunk == CHUNK_SIZE
      ensures Valid() && emitted == [] && start == source.Rest()
      ensures this.source == source && this.cipher == cipher && this.params == params
    {
      this.source, this.cipher, this.params := source, cipher, params;
      count := params.Count();
      index, buf, pos := 0, [], 0;
      start, emitted := source.Rest(), [];
    }

    /** Reads and seals the next chunk. Fails if the source ends early, the prefix is not 8 bytes, or there are too many
        chunks to number. */
    method NextChunk() returns (ok: bool)
      requires Valid() && index < count && pos == |buf|
      modifies this`index, this`buf, this`pos, source
      ensures ok ==> Valid() && index == old(index) + 1 && pos == 0 && |buf| == params.Sealed()
      ensures !ok ==> |start| < params.size || |params.prefix| != PREFIX_LEN || old(index) > U32_MAX
    {
      var at := index * CHUNK_SIZE;
      var want := params.Take(index);
      TakesAddUp(params, Plain(), index);
      PlainChunkSize(params, Plain(), index);
      var got := ReadFull(source, want);
      buf := got + Zeros(CHUNK_SIZE - |got|);
      if |got| < want {
        return false;
      }
      if |params.prefix| != PREFIX_LEN || index > U32_MAX {
        return false;
      }
      ReadChunk(start, params, index, got, source.Rest());
      SealNext();
      return true;
    }

    /** Seals the plain chunk that has been read. */
    method SealNext()
      requires params.chunk == CHUNK_SIZE && count == params.Count() && TagsAreKept(cipher)
      requires source.Valid() && index < count && index <= U32_MAX && |params.prefix| == PREFIX_LEN
      requires Upto(params, index + 1) <= |start| && source.Rest() == start[Upto(params, index + 1)..]
      requires emitted == SealedChunks(cipher, params, Plain(), index)
      requires buf == PlainChunk(params, Plain(), index) && |buf| == CHUNK_SIZE
      modifies this`index, this`buf, this`pos
      ensures Valid() && index == old(index) + 1 && pos == 0 && |buf| == params.Sealed()
    {
      buf := cipher.seal(NonceFor(params.prefix, index), AadFor(params.format, index, index == count - 1), buf);
      index := index + 1;
      pos := 0;
      assert buf[0..] == buf;
    }

    /** Reads up to n sealed bytes; none only at the end. */
    method Read(n: nat) returns (out: Option<Bytes>)
      requires Valid()
      modifies this`index, this`buf, this`pos, this`emitted, source
      ensures out.Some? ==> Valid() && emitted == old(emitted) + out.value && |out.value| <= n
      ensures out == Some([]) ==> n == 0 || (index == count && emitted == SealedFile(cipher, params, Plain()))
      ensures out.None? ==> |start| < params.size || |params.prefix| != PREFIX_LEN || count > U32_MAX + 1
    {
      if n == 0 {
        return Some([]);
      }
      if pos >= |buf| {
        if index >= count {
          return Some([]);
        }
        var ok := NextChunk();
        if !ok {
          return None;
        }
      }
      var piece := TakePiece(n);
      return Some(piece);
    }

    /** Hands out bytes of the sealed chunk at hand. */
    method TakePiece(n: nat) returns (piece: Bytes)
      requires Valid() && n > 0 && pos < |buf|
      modifies this`pos, this`emitted
      ensures Valid() && emitted == old(emitted) + piece && 0 < |piece| <= n
    {
      var k := if |buf| - pos < n then |buf| - pos else n;
      piece := buf[pos..pos + k];
      SplitAt(emitted, buf, pos, k);
      pos := pos + k;
      emitted := emitted + piece;
    }
  }

  lemma SplitAt(a: Bytes, b: Bytes, i: nat, k: nat)
    requires i + k <= |b|
    ensures a + b[i..] == (a + b[i..i + k]) + b[i + k..]
  {
    assert b[i..] == b[i..i + k] + b[i + k..];
  }

  lemma FitSame(s: Bytes, n: nat, a: nat, b: nat)
    requires a <= b <= n && b <= |s|
    ensures Fit(s, n)[a..b] == s[a..b]
  {
    var f := Fit(s, n);
    assert forall k :: 0 <= k < b ==> f[k] == s[k];
    var x, y := f[a..b], s[a..b];
    forall k | 0 <= k < b - a
      ensures x[k] == y[k]
    {
      assert x[k] == f[a + k] && y[k] == s[a + k];
    }
    assert x == y;
  }

  lemma FrontAndRest(s: Bytes, a: nat, b: nat, got: Bytes, rest: Bytes)
    requires a <= b <= |s| && s[a..] == got + rest && |got| == b - a
    ensures got == s[a..b] && rest == s[b..]
  {
    var t := s[a..];
    assert got == t[..b - a] && rest == t[b - a..];
  }

  /** The bytes read for chunk i, filled up with zeros, are that chunk of the file. */
  lemma ReadChunk(start: Bytes, p: Params, i: nat, got: Bytes, rest: Bytes)
    requires p.chunk > 0 && Upto(p, i) <= |start| && start[Upto(p, i)..] == got + rest && |got| == p.Take(i) <= p.chunk
    ensures got + Zeros(p.chunk - |got|) == PlainChunk(p, Fit(start, p.size), i)
    ensures Upto(p, i + 1) <= |start| && rest == start[Upto(p, i + 1)..]
  {
    var plain := Fit(start, p.size);
    var a, b := Upto(p, i), Upto(p, i + 1);
    TakesAddUp(p, plain, i);
    assert |start[a..]| == |got| + |rest|;
    FrontAndRest(start, a, b, got, rest);
    FitSame(start, p.size, a, b);
    assert PlainChunk(p, plain, i) == PlainChunk(p, plain, i)[..p.Take(i)] + Zeros(p.chunk - p.Take(i));
  }

  /** Reading to the end, in portions of any sizes, gives the whole sealed file, or fails where it must. */
  method EncryptAll(source: Source, cipher: Cipher, params: Params, sizes: seq<nat>) returns (sealed: Option<Bytes>)
    requires source.Valid() && TagsAreKept(cipher) && params.chunk == CHUNK_SIZE
    modifies source
    ensures sealed.Some? <==>
              |old(source.Rest())| >= params.size && |params.prefix| == PREFIX_LEN && params.Count() <= U32_MAX + 1
    ensures sealed.Some? ==>
              && sealed.value == SealedFile(cipher, params, old(source.Rest())[..params.size])
              && |sealed.value| == SealedLen(params.size, CHUNK_SIZE)
  {
    var reader := new ChunkedEncryptReader(source, cipher, params);
    var out := [];
    var sizes' := sizes;
    SealedChunksSize(cipher, params, reader.Plain(), params.Count());
    while true
      invariant reader.Valid() && reader.emitted == out && fresh(reader) && reader.source == source
      invariant reader.cipher == cipher && reader.params == params && reader.start == old(source.Rest())
      decreases |SealedFile(cipher, params, reader.Plain())| - |out|
    {
      var n := if sizes' == [] || sizes'[0] == 0 then 8192 else sizes'[0];
      sizes' := if sizes' == [] then [] else sizes'[1..];
      var piece := reader.Read(n);
      if piece.None? {
        return None;
      }
      if piece.value == [] {
        ChunkCountCovers(params.size, params.chunk);
        return Some(out);
      }
      out := out + piece.value;
      EmittedFits(reader);
    }
  }

  // ---------- Decrypting, in the file system client ----------

  const BUFFER := 256 * 1024

  /** Of the first got bytes of an opened chunk, w has the file's part, and the rest is as it should be. */
  ghost predicate CopiedUpto(format: Format, plain: Bytes, take: nat, got: nat, w: Bytes) {
    && got <= |plain|
    && w == plain[..if got < take then got else take]
    && (got > take ==> FillerOk(format, plain[take..got]))
  }

  /** How many of the n bytes from got on belong to the file. */
  function Keep(take: nat, got: nat, n: nat): (keep: nat)
    ensures keep <= n
  {
    if take <= got then 0 else if take - got < n then take - got else n
  }

  ghost function CopyOf(format: Format, plain: Bytes, take: nat): Option<Bytes> {
    if |plain| < take then Some(plain) else if FillerOk(format, plain[take..]) then Some(plain[..take]) else None
  }

  /** Writes out the file's part of an opened chunk, buffer by buffer, and checks the rest. */
  method CopyChunk(format: Format, plain: Bytes, take: nat) returns (out: Option<Bytes>)
    ensures out == CopyOf(format, plain, take)
  {
    var got := 0;
    var w := [];
    while got < |plain|
      invariant CopiedUpto(format, plain, take, got, w)
    {
      var n := if BUFFER < |plain| - got then BUFFER else |plain| - got;
      var keep := Keep(take, got, n);
      var filler := plain[got + keep..got + n];
      if !FillerOk(format, filler) {
        FillerParts(format, plain, take, got + keep, got + n);
        return None;
      }
      NextBuffer(format, plain, take, got, n, w);
      w := w + plain[got..got + keep];
      got := got + n;
    }
    AllCopied(format, plain, take, w);
    return Some(w);
  }

  lemma AllCopied(format: Format, plain: Bytes, take: nat, w: Bytes)
    requires CopiedUpto(format, plain, take, |plain|, w)
    ensures Some(w) == CopyOf(format, plain, take)
  {
    assert |plain| >= take ==> plain[take..|plain|] == plain[take..];
    assert |plain| < take ==> plain[..|plain|] == plain;
  }

  /** One buffer more: what is kept grows up to `take`, what is checked lies after it. */
  lemma NextBuffer(format: Format, plain: Bytes, take: nat, got: nat, n: nat, w: Bytes)
    requires got + n <= |plain| && CopiedUpto(format, plain, take, got, w)
    requires FillerOk(format, plain[got + Keep(take, got, n)..got + n])
    ensures CopiedUpto(format, plain, take, got + n, w + plain[got..got + Keep(take, got, n)])
  {
    var keep := Keep(take, got, n);
    if got + n > take {
      assert plain[take..got + n] == plain[take..got + keep] + plain[got + keep..got + n];
    }
  }

  lemma FillerParts(format: Format, plain: Bytes, take: nat, a: nat, b: nat)
    requires take <= a <= b <= |plain| && !FillerOk(format, plain[a..b])
    ensures CopyOf(format, plain, take) == None
  {
    var i :| 0 <= i < |plain[a..b]| && plain[a..b][i] != 0;
    assert plain[take..][a - take + i] != 0;
  }

  /** The source has k sealed chunks of t behind it. */
  ghost predicate IsAfter(p: Params, t: Bytes, k: nat, rest: Bytes) {
    k * p.Sealed() <= |t| && rest == t[k * p.Sealed()..]
  }

  /** Opens a chunked file from a source, checking every chunk and that nothing follows the last one. */
  method DecryptChunked(source: Source, c: Cipher, p: Params) returns (out: Option<Bytes>)
    requires source.Valid() && TagsAreKept(c)
    modifies source
    ensures source.Valid()
    ensures out == if MIN_CHUNK <= p.chunk <= MAX_CHUNK && p.Count() <= U32_MAX + 1
                   then OpenedFile(c, p, old(source.Rest())) else None
  {
    if !(MIN_CHUNK <= p.chunk <= MAX_CHUNK) {
      return None;
    }
    ghost var t := source.Rest();
    out := DecryptAll(source, c, p, t);
    if out.Some? {
      AtEnd(c, p, t, source.Rest(), out);
      var probe := source.Read(1);
      if probe != [] {
        return None;
      }
    }
  }

  /** With all chunks open, the file is open exactly if nothing is left. */
  lemma AtEnd(c: Cipher, p: Params, t: Bytes, rest: Bytes, w: Option<Bytes>)
    requires p.chunk > 0 && |p.prefix| == PREFIX_LEN
    requires IsAfter(p, t, p.Count(), rest) && Opened(c, p, t, p.Count()) == w
    ensures OpenedFile(c, p, t) == if rest == [] then w else None
  {
    assert |t| == p.Count() * p.Sealed() + |rest|;
  }

  /** Opens all chunks, and fails where one does not open or there are too many to number. */
  method DecryptAll(source: Source, c: Cipher, p: Params, ghost t: Bytes) returns (out: Option<Bytes>)
    requires source.Valid() && TagsAreKept(c) && p.chunk > 0 && t == source.Rest()
    modifies source
    ensures source.Valid()
    ensures out.Some? ==> |p.prefix| == PREFIX_LEN && p.Count() <= U32_MAX + 1
    ensures out.Some? ==> IsAfter(p, t, p.Count(), source.Rest()) && Opened(c, p, t, p.Count()) == out
    ensures out.None? ==> p.Count() > U32_MAX + 1 || OpenedFile(c, p, t).None?
  {
    var count := p.Count();
    ChunkCountCovers(p.size, p.chunk);
    var w := [];
    for index := 0 to count
      invariant source.Valid() && IsAfter(p, t, index, source.Rest()) && Opened(c, p, t, index) == Some(w)
      invariant index > 0 ==> |p.prefix| == PREFIX_LEN
      invariant index <= U32_MAX + 1
    {
      if |p.prefix| != PREFIX_LEN || index > U32_MAX {
        return None;
      }
      var longer := DecryptNext(source, c, p, t, index, w);
      if longer.None? {
        return None;
      }
      w := longer.value;
    }
    return Some(w);
  }

  /** Opens the next chunk, and adds its part of the file. */
  method DecryptNext(source: Source, c: Cipher, p: Params, ghost t: Bytes, index: nat, w: Bytes)
      returns (longer: Option<Bytes>)
    requires source.Valid() && TagsAreKept(c) && p.chunk > 0 && |p.prefix| == PREFIX_LEN && index < p.Count()
    requires IsAfter(p, t, index, source.Rest()) && Opened(c, p, t, index) == Some(w)
    modifies source
    ensures source.Valid()
    ensures longer.Some? ==> IsAfter(p, t, index + 1, source.Rest()) && Opened(c, p, t, index + 1) == longer
    ensures longer.None? ==> OpenedFile(c, p, t).None?
  {
    var sealed := ReadFull(source, p.Sealed());
    NextChunkOf(p, t, index, sealed, source.Rest());
    var plain := c.open(NonceFor(p.prefix, index), AadFor(p.format, index, index == p.Count() - 1), sealed);
    if plain.None? {
      OpenedFileFails(c, p, t, index, sealed);
      return None;
    }
    var part := CopyChunk(p.format, plain.value, p.Take(index));
    if part.None? || |plain.value| != p.chunk {
      OpenedFileFails(c, p, t, index, sealed);
      return None;
    }
    return Some(w + part.value);
  }

  /** The bytes read next are chunk i, or the ciphertext is too short. */
  lemma NextChunkOf(p: Params, t: Bytes, i: nat, got: Bytes, rest: Bytes)
    requires i * p.Sealed() <= |t| && t[i * p.Sealed()..] == got + rest
    requires |got| <= p.Sealed() && (|got| < p.Sealed() ==> rest == [])
    ensures |got| == p.Sealed() ==>
              (i + 1) * p.Sealed() <= |t| && got == ChunkOf(p, t, i) && rest == t[(i + 1) * p.Sealed()..]
    ensures |got| < p.Sealed() ==> |t| < (i + 1) * p.Sealed()
  {
    assert i * p.Sealed() + p.Sealed() == (i + 1) * p.Sealed();
  }

  /** A chunk that is short or does not open fails the whole file. */
  lemma OpenedFileFails(c: Cipher, p: Params, t: Bytes, i: nat, got: Bytes)
    requires p.chunk > 0 && i < p.Count()
    requires |got| == p.Sealed() ==>
               (i + 1) * p.Sealed() <= |t| && got == ChunkOf(p, t, i) && OpenChunk(c, p, i, got).None?
    requires |got| != p.Sealed() ==> |t| < (i + 1) * p.Sealed()
    ensures OpenedFile(c, p, t).None?
  {
    AtMostTimes(i + 1, p.Count(), p.Sealed());
    if |got| == p.Sealed() && |t| == p.Count() * p.Sealed() {
      OpenedFails(c, p, t, i + 1, p.Count());
    }
  }

  lemma EmittedFits(r: ChunkedEncryptReader)
    requires r.Valid()
    ensures |r.emitted| <= |SealedFile(r.cipher, r.params, r.Plain())|
  {
    SealedChunksSize(r.cipher, r.params, r.Plain(), r.index);
    SealedChunksSize(r.cipher, r.params, r.Plain(), r.count);
    AtMostTimes(r.index, r.count, r.params.Sealed());
  }
}
