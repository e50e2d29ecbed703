/** What the chunked format promises: files come back, and nothing but the sealed file is accepted. */
module ChunkTheorems {
  import opened ChunkFormat
  import opened Octets
  import opened Wrappers

  lemma PlainChunkSize(p: Params, plain: Bytes, i: nat)
    requires |plain| == p.size
    ensures |PlainChunk(p, plain, i)| == p.chunk && p.Take(i) <= p.chunk
    ensures AllZero(PlainChunk(p, plain, i)[p.Take(i)..])
  {
  }

  lemma {:induction false} SealedChunksSize(c: Cipher, p: Params, plain: Bytes, k: nat)
    requires p.chunk > 0 && |plain| == p.size && TagsAreKept(c)
    ensures |SealedChunks(c, p, plain, k)| == k * p.Sealed()
  {
    if k == 0 {
    } else {
      SealedChunksSize(c, p, plain, k - 1);
      PlainChunkSize(p, plain, k - 1);
      assert k * p.Sealed() == (k - 1) * p.Sealed() + p.Sealed();
    }
  }

  lemma ChunkAtEnd(p: Params, t: Bytes, u: Bytes, i: nat)
    requires |t| == i * p.Sealed() && |u| == p.Sealed()
    ensures (i + 1) * p.Sealed() == |t + u| && ChunkOf(p, t + u, i) == u
  {
    assert (i + 1) * p.Sealed() == i * p.Sealed() + p.Sealed();
  }

  /** Chunk i of the sealed chunks is the sealed chunk i. */
  lemma {:induction false} ChunkOfSealed(c: Cipher, p: Params, plain: Bytes, i: nat, k: nat)
    requires p.chunk > 0 && |plain| == p.size && TagsAreKept(c) && i < k
    ensures (i + 1) * p.Sealed() <= |SealedChunks(c, p, plain, k)|
    ensures ChunkOf(p, SealedChunks(c, p, plain, k), i) == SealedChunk(c, p, plain, i)
    decreases k
  {
    var t, u := SealedChunks(c, p, plain, k - 1), SealedChunk(c, p, plain, k - 1);
    OneMoreSealed(c, p, plain, k - 1);
    if i == k - 1 {
      ChunkAtEnd(p, t, u, i);
    } else {
      ChunkOfSealed(c, p, plain, i, k - 1);
      ChunkOfPrefix(p, t, u, i);
    }
  }

  lemma OneMoreSealed(c: Cipher, p: Params, plain: Bytes, k: nat)
    requires p.chunk > 0 && |plain| == p.size && TagsAreKept(c)
    ensures SealedChunks(c, p, plain, k + 1) == SealedChunks(c, p, plain, k) + SealedChunk(c, p, plain, k)
    ensures |SealedChunks(c, p, plain, k)| == k * p.Sealed() && |SealedChunk(c, p, plain, k)| == p.Sealed()
  {
    SealedChunksSize(c, p, plain, k);
    PlainChunkSize(p, plain, k);
  }

  lemma ChunkOfPrefix(p: Params, t: Bytes, u: Bytes, i: nat)
    requires (i + 1) * p.Sealed() <= |t|
    ensures ChunkOf(p, t + u, i) == ChunkOf(p, t, i)
  {
    assert i * p.Sealed() + p.Sealed() == (i + 1) * p.Sealed();
  }

  lemma PrefixPlusChunk(p: Params, t: Bytes, i: nat)
    requires (i + 1) * p.Sealed() <= |t|
    ensures i * p.Sealed() <= |t| && t[..(i + 1) * p.Sealed()] == t[..i * p.Sealed()] + ChunkOf(p, t, i)
  {
    assert i * p.Sealed() + p.Sealed() == (i + 1) * p.Sealed();
  }

  lemma AtMostTimes(a: nat, b: nat, n: nat)
    requires a <= b
    ensures a * n <= b * n
  {
  }

  /** Taking the files' bytes of each chunk in turn gives the file. */
  lemma TakesAddUp(p: Params, plain: Bytes, i: nat)
    requires p.chunk > 0 && |plain| == p.size
    ensures Upto(p, i) <= p.size && Upto(p, i) + p.Take(i) == Upto(p, i + 1)
    ensures PlainChunk(p, plain, i)[..p.Take(i)] == plain[Upto(p, i)..Upto(p, i + 1)]
  {
    assert (i + 1) * p.chunk == i * p.chunk + p.chunk;
  }

  /** How much of the file the first k chunks hold. */
  function Upto(p: Params, k: nat): (n: nat)
    ensures n <= p.size
  {
    if k * p.chunk < p.size then k * p.chunk else p.size
  }

  lemma StartsInFile(p: Params, i: nat)
    requires p.chunk > 0 && i < p.Count()
    ensures i * p.chunk <= p.size && (p.size > 0 ==> i * p.chunk < p.size)
  {
    ChunkCountCovers(p.size, p.chunk);
    AtMostTimes(i, p.Count() - 1, p.chunk);
    if p.Count() == 1 {
      assert i == 0;
    }
  }

  /** Chunk i of t is the sealed chunk i of the file. */
  ghost predicate HasChunk(c: Cipher, p: Params, plain: Bytes, t: Bytes, i: nat)
    requires p.chunk > 0 && |plain| == p.size
  {
    (i + 1) * p.Sealed() <= |t| && ChunkOf(p, t, i) == SealedChunk(c, p, plain, i)
  }

  lemma SealedHasChunk(c: Cipher, p: Params, plain: Bytes, i: nat)
    requires p.chunk > 0 && |plain| == p.size && TagsAreKept(c) && i < p.Count()
    ensures HasChunk(c, p, plain, SealedFile(c, p, plain), i)
  {
    ChunkOfSealed(c, p, plain, i, p.Count());
  }

  lemma {:induction false} OpenedSealed(c: Cipher, p: Params, plain: Bytes, t: Bytes, k: nat)
    requires p.chunk > 0 && |plain| == p.size && forall s :: s in Sealings(p, plain) ==> Opens(c, s)
    requires (forall i: nat :: i < p.Count() ==> HasChunk(c, p, plain, t, i)) && k <= p.Count() && k * p.Sealed() <= |t|
    ensures Opened(c, p, t, k) == Some(plain[..Upto(p, k)])
  {
    if k == 0 {
    } else {
      AtMostTimes(k - 1, k, p.Sealed());
      OpenedSealed(c, p, plain, t, k - 1);
      assert HasChunk(c, p, plain, t, k - 1);
      OpenedNext(c, p, plain, t, k - 1);
    }
  }

  lemma OpenedNext(c: Cipher, p: Params, plain: Bytes, t: Bytes, i: nat)
    requires p.chunk > 0 && |plain| == p.size && i < p.Count() && forall s :: s in Sealings(p, plain) ==> Opens(c, s)
    requires i * p.Sealed() <= |t| && (i + 1) * p.Sealed() <= |t|
    requires Opened(c, p, t, i) == Some(plain[..Upto(p, i)]) && ChunkOf(p, t, i) == SealedChunk(c, p, plain, i)
    ensures Opened(c, p, t, i + 1) == Some(plain[..Upto(p, i + 1)])
  {
    OpenSealedChunk(c, p, plain, i);
    TakesAddUp(p, plain, i);
    assert plain[..Upto(p, i)] + plain[Upto(p, i)..Upto(p, i + 1)] == plain[..Upto(p, i + 1)];
  }

  lemma OpenSealedChunk(c: Cipher, p: Params, plain: Bytes, i: nat)
    requires p.chunk > 0 && |plain| == p.size && i < p.Count()
    requires forall s :: s in Sealings(p, plain) ==> Opens(c, s)
    ensures p.Take(i) <= p.chunk == |PlainChunk(p, plain, i)|
    ensures OpenChunk(c, p, i, SealedChunk(c, p, plain, i)) == Some(PlainChunk(p, plain, i)[..p.Take(i)])
  {
    var s := Sealing(NonceFor(p.prefix, i), AadFor(p.format, i, i == p.Count() - 1), PlainChunk(p, plain, i));
    assert s in Sealings(p, plain) && Opens(c, s);
    PlainChunkSize(p, plain, i);
  }

  /** A sealed file has the announced length and opens to the file. */
  lemma RoundTrip(c: Cipher, p: Params, plain: Bytes)
    requires p.Ok() && |plain| == p.size && TagsAreKept(c)
    requires forall s :: s in Sealings(p, plain) ==> Opens(c, s)
    ensures |SealedFile(c, p, plain)| == SealedLen(p.size, p.chunk)
    ensures OpenedFile(c, p, SealedFile(c, p, plain)) == Some(plain)
  {
    SealedChunksSize(c, p, plain, p.Count());
    forall i: nat | i < p.Count()
      ensures HasChunk(c, p, plain, SealedFile(c, p, plain), i)
    {
      SealedHasChunk(c, p, plain, i);
    }
    OpenedSealed(c, p, plain, SealedFile(c, p, plain), p.Count());
    ChunkCountCovers(p.size, p.chunk);
    assert plain[..p.size] == plain;
  }

  /** A cipher that knows what has been sealed and opens nothing else. */
  ghost function Recording(issued: set<Sealing>): Cipher {
    Cipher(
      (n, a, p) => p + Zeros(TAG_LEN),
      (n, a, t) =>
        if |t| >= TAG_LEN && AllZero(t[|t| - TAG_LEN..]) && Sealing(n, a, t[..|t| - TAG_LEN]) in issued
        then Some(t[..|t| - TAG_LEN]) else None)
  }

  /** Whatever has been sealed, an ideal cipher exists. */
  lemma IdealExists(issued: set<Sealing>)
    ensures Ideal(Recording(issued), issued)
  {
    var c := Recording(issued);
    forall s | s in issued
      ensures Opens(c, s)
    {
      var t := c.seal(s.nonce, s.aad, s.plain);
      assert t[..|t| - TAG_LEN] == s.plain && t[|t| - TAG_LEN..] == Zeros(TAG_LEN);
    }
    forall n, a, t | c.open(n, a, t).Some?
      ensures t == c.seal(n, a, c.open(n, a, t).value)
    {
      assert t[|t| - TAG_LEN..] == Zeros(TAG_LEN);
      assert t == t[..|t| - TAG_LEN] + t[|t| - TAG_LEN..];
    }
  }

  /** Under an ideal cipher a chunk opens only if it is that very chunk of the sealed file, in place and with the right
      claim to be the last one. */
  lemma OnlySealedChunkOpens(c: Cipher, p: Params, plain: Bytes, q: Params, i: nat, t: Bytes)
    requires p.Ok() && |plain| == p.size && Ideal(c, Sealings(p, plain))
    requires q.prefix == p.prefix && q.chunk > 0 && p.Count() <= U32_MAX + 1 && i <= U32_MAX
    requires c.open(NonceFor(q.prefix, i), AadFor(q.format, i, i == q.Count() - 1), t).Some?
    ensures i < p.Count() && q.format == p.format && (i == q.Count() - 1 <==> i == p.Count() - 1)
    ensures t == SealedChunk(c, p, plain, i)
    ensures c.open(NonceFor(q.prefix, i), AadFor(q.format, i, i == q.Count() - 1), t).value == PlainChunk(p, plain, i)
  {
    var n, a := NonceFor(q.prefix, i), AadFor(q.format, i, i == q.Count() - 1);
    var s := Sealing(n, a, c.open(n, a, t).value);
    assert s in Sealings(p, plain);
    var j: nat :| j < p.Count() &&
      s == Sealing(NonceFor(p.prefix, j), AadFor(p.format, j, j == p.Count() - 1), PlainChunk(p, plain, j));
    NonceForInjective(p.prefix, i, j);
    AadForInjective(q.format, i, i == q.Count() - 1, p.format, j, j == p.Count() - 1);
  }

  /** Chunk i of t opens. */
  ghost predicate ChunkOpens(c: Cipher, q: Params, t: Bytes, i: nat)
    requires q.chunk > 0
  {
    (i + 1) * q.Sealed() <= |t| &&
    c.open(NonceFor(q.prefix, i), AadFor(q.format, i, i == q.Count() - 1), ChunkOf(q, t, i)).Some?
  }

  lemma {:induction false} AllOpen(c: Cipher, q: Params, t: Bytes, k: nat)
    requires q.chunk > 0 && k * q.Sealed() <= |t| && Opened(c, q, t, k).Some?
    ensures forall i: nat :: i < k ==> ChunkOpens(c, q, t, i)
  {
    if k > 0 {
      LastChunkOpens(c, q, t, k - 1);
      AllOpen(c, q, t, k - 1);
    }
  }

  lemma LastChunkOpens(c: Cipher, q: Params, t: Bytes, i: nat)
    requires q.chunk > 0 && (i + 1) * q.Sealed() <= |t| && Opened(c, q, t, i + 1).Some?
    ensures ChunkOpens(c, q, t, i) && i * q.Sealed() <= |t| && Opened(c, q, t, i).Some?
  {
    assert (i + 1) * q.Sealed() == i * q.Sealed() + q.Sealed();
    assert OpenChunk(c, q, i, ChunkOf(q, t, i)).Some?;
  }

  lemma {:induction false} PrefixIsSealed(c: Cipher, p: Params, plain: Bytes, t: Bytes, k: nat)
    requires p.chunk > 0 && |plain| == p.size && k * p.Sealed() <= |t|
    requires forall i: nat :: i < k ==> HasChunk(c, p, plain, t, i)
    ensures t[..k * p.Sealed()] == SealedChunks(c, p, plain, k)
  {
    if k > 0 {
      AtMostTimes(k - 1, k, p.Sealed());
      PrefixIsSealed(c, p, plain, t, k - 1);
      assert HasChunk(c, p, plain, t, k - 1);
      PrefixPlusChunk(p, t, k - 1);
    }
  }

  lemma OnlySealedChunksOpen(c: Cipher, p: Params, plain: Bytes, q: Params, t: Bytes, k: nat)
    requires p.Ok() && |plain| == p.size && Ideal(c, Sealings(p, plain))
    requires q.prefix == p.prefix && q.chunk == p.chunk && p.Count() <= U32_MAX + 1 && k <= U32_MAX + 1
    requires forall i: nat :: i < k ==> ChunkOpens(c, q, t, i)
    ensures k <= p.Count() && forall i: nat :: i < k ==> HasChunk(c, p, plain, t, i)
  {
    forall i: nat | i < k
      ensures i < p.Count() && HasChunk(c, p, plain, t, i)
    {
      assert ChunkOpens(c, q, t, i);
      OnlySealedChunkOpens(c, p, plain, q, i, ChunkOf(q, t, i));
    }
    assert k > 0 ==> HasChunk(c, p, plain, t, k - 1);
  }

  lemma OnlySealedParts(c: Cipher, p: Params, plain: Bytes, q: Params, t: Bytes)
    requires p.Ok() && |plain| == p.size && Ideal(c, Sealings(p, plain))
    requires q.prefix == p.prefix && q.chunk == p.chunk && p.Count() <= U32_MAX + 1 && q.Count() <= U32_MAX + 1
    requires q.Count() >= 1 && forall i: nat :: i < q.Count() ==> ChunkOpens(c, q, t, i)
    ensures q.Count() == p.Count() && q.format == p.format
    ensures forall i: nat :: i < q.Count() ==> HasChunk(c, p, plain, t, i)
  {
    var n := q.Count();
    OnlySealedChunksOpen(c, p, plain, q, t, n);
    assert ChunkOpens(c, q, t, n - 1);
    OnlySealedChunkOpens(c, p, plain, q, n - 1, ChunkOf(q, t, n - 1));
  }

  /** The only ciphertext accepted for a key and prefix is the one that was sealed, whatever size or format is claimed
      for it: chunks cannot be reordered, repeated, dropped, added or altered. With the true size it opens to the file. */
  lemma OnlySealedFileOpens(c: Cipher, p: Params, plain: Bytes, q: Params, t: Bytes)
    requires p.Ok() && |plain| == p.size && Ideal(c, Sealings(p, plain))
    requires q.prefix == p.prefix && q.chunk == p.chunk && p.Count() <= U32_MAX + 1 && q.Count() <= U32_MAX + 1
    requires OpenedFile(c, q, t).Some?
    ensures t == SealedFile(c, p, plain)
    ensures q.Count() == p.Count() && q.format == p.format
    ensures q.size == p.size ==> OpenedFile(c, q, t) == Some(plain)
  {
    var n := q.Count();
    ChunkCountCovers(q.size, q.chunk);
    AllOpen(c, q, t, n);
    OnlySealedParts(c, p, plain, q, t);
    PrefixIsSealed(c, p, plain, t, n);
    assert t[..n * p.Sealed()] == t;
    if q.size == p.size {
      assert q == p;
      RoundTrip(c, p, plain);
    }
  }

  // ---------- The format in bytes ----------

  /** The number that four bytes stand for, most significant first. */
  function Number(b: Bytes): nat
    requires |b| == 4
  {
    ((b[0] as int * 256 + b[1] as int) * 256 + b[2] as int) * 256 + b[3] as int
  }

  /** A nonce is the file's prefix, then the chunk's index. */
  lemma NonceIs(prefix: Bytes, i: nat)
    requires i <= 0xffff_ffff
    ensures var n := NonceFor(prefix, i);
            |n| == |prefix| + 4 && n[..|prefix|] == prefix && Number(n[|prefix|..]) == i
  {
    FromBigEndian32(i);
    assert NonceFor(prefix, i)[|prefix|..] == BigEndian32(i);
  }

  /** The associated data is a label in the second format, then the chunk's index, then 1 for the last chunk and 0 before. */
  lemma AadIs(format: Format, i: nat, last: bool)
    requires i <= 0xffff_ffff
    ensures var a, n := AadFor(format, i, last), if format == V2 then 17 else 0;
            && |a| == n + 5
            && (format == V2 ==>
                  a[..17] == [108, 101, 116, 104, 101, 97, 110, 124, 99, 104, 117, 110, 107, 124, 118, 50, 124])
            && Number(a[n..n + 4]) == i
            && a[n + 4] == if last then 1 else 0
  {
    var a, n := AadFor(format, i, last), if format == V2 then 17 else 0;
    FromBigEndian32(i);
    assert a[n..n + 4] == BigEndian32(i);
  }

  /** Chunk i of a file, byte by byte: its part of the file, zeros up to the chunk size, and the flag of the last chunk
      exactly if the file does not go on after it. */
  lemma SealedChunkIs(c: Cipher, p: Params, plain: Bytes, i: nat)
    requires p.Ok() && |plain| == p.size && p.Count() <= 0x1_0000_0000 && i < p.Count()
    ensures var a, b := i * p.chunk, if i * p.chunk + p.chunk < |plain| then i * p.chunk + p.chunk else |plain|;
            && a <= b <= |plain|
            && SealedChunk(c, p, plain, i) ==
                 c.seal(NonceFor(p.prefix, i), AadFor(p.format, i, a + p.chunk >= |plain|),
                        plain[a..b] + Zeros(p.chunk - (b - a)))
  {
    StartsInFile(p, i);
    TakesAddUp(p, plain, i);
    PlainChunkSize(p, plain, i);
    ChunkCountCovers(p.size, p.chunk);
    LastChunkIff(p, i);
    assert PlainChunk(p, plain, i) == PlainChunk(p, plain, i)[..p.Take(i)] + Zeros(p.chunk - p.Take(i));
  }

  lemma LastChunkIff(p: Params, i: nat)
    requires p.chunk > 0 && i < p.Count()
    ensures i == p.Count() - 1 <==> i * p.chunk + p.chunk >= p.size
  {
    ChunkCountCovers(p.size, p.chunk);
    assert i * p.chunk + p.chunk == (i + 1) * p.chunk;
    if i < p.Count() - 1 {
      AtMostTimes(i + 1, p.Count() - 1, p.chunk);
    }
  }

  /** An opened chunk is accepted if it is long enough and, in the second format, only zeros follow its part of the file;
      the first format never looks at what follows. */
  lemma FillerMatters(c: Cipher, p: Params, i: nat, sealed: Bytes, text: Bytes)
    requires p.chunk > 0 && c.open(NonceFor(p.prefix, i), AadFor(p.format, i, i == p.Count() - 1), sealed) == Some(text)
    ensures OpenChunk(c, p, i, sealed).Some? <==>
              |text| >= p.Take(i) && (p.format == V2 ==> forall k :: p.Take(i) <= k < |text| ==> text[k] == 0)
    ensures OpenChunk(c, p, i, sealed).Some? ==> OpenChunk(c, p, i, sealed).value == text[..p.Take(i)]
  {
    if |text| >= p.Take(i) {
      assert forall k :: p.Take(i) <= k < |text| ==> text[k] == text[p.Take(i)..][k - p.Take(i)];
    }
  }
}
