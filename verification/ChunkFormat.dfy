/** The chunked file format: what a sealed file looks like, and what opening one yields. */
module ChunkFormat {
  import opened Octets
  import opened Wrappers

  const TAG_LEN := 16
  const PREFIX_LEN := 8
  const CHUNK_SIZE := 32 * 1024 * 1024
  const MIN_CHUNK := 1024
  const MAX_CHUNK := 256 * 1024 * 1024
  const U32_MAX := 0xffff_ffff

  datatype Format = Legacy | V2

  /** "lethean|chunk|v2|" */
  const AAD_CHUNK_V2: Bytes :=
    [108, 101, 116, 104, 101, 97, 110, 124, 99, 104, 117, 110, 107, 124, 118, 50, 124]

  /** A cipher under one key: nonce, associated data and text to sealed text, and back if the tag matches. */
  datatype Cipher = Cipher(seal: (Bytes, Bytes, Bytes) -> Bytes, open: (Bytes, Bytes, Bytes) -> Option<Bytes>)

  /** A message someone holding the key has sealed. */
  datatype Sealing = Sealing(nonce: Bytes, aad: Bytes, plain: Bytes)

  /** A sealed text is a tag longer than its plain text. */
  ghost predicate TagsAreKept(c: Cipher) {
    && (forall n, a, p {:trigger c.seal(n, a, p)} :: |c.seal(n, a, p)| == |p| + TAG_LEN)
    && (forall n, a, t {:trigger c.open(n, a, t)} :: c.open(n, a, t).Some? ==> |c.open(n, a, t).value| + TAG_LEN == |t|)
  }

  /** What was sealed opens again. */
  ghost predicate Opens(c: Cipher, s: Sealing) {
    c.open(s.nonce, s.aad, c.seal(s.nonce, s.aad, s.plain)) == Some(s.plain)
  }

  /** Ideal: nothing opens but the sealed messages, each under its own nonce and associated data. */
  ghost predicate Ideal(c: Cipher, issued: set<Sealing>) {
    && TagsAreKept(c)
    && (forall s :: s in issued ==> Opens(c, s))
    && (forall n, a, t {:trigger c.open(n, a, t)} :: c.open(n, a, t).Some? ==>
          Sealing(n, a, c.open(n, a, t).value) in issued && t == c.seal(n, a, c.open(n, a, t).value))
  }

  /** How a file is cut, and under which nonces it is sealed. */
  datatype Params = Params(format: Format, prefix: Bytes, chunk: nat, size: nat) {
    predicate Ok() {
      |prefix| == PREFIX_LEN && chunk > 0
    }

    function Sealed(): nat {
      chunk + TAG_LEN
    }

    /** The number of chunks; an empty file still has one. */
    function Count(): nat
      requires chunk > 0
    {
      ChunkCount(size, chunk)
    }

    /** How many bytes of chunk i belong to the file. */
    function Take(i: nat): nat {
      var rest := size - i * chunk;
      if rest < 0 then 0 else if rest < chunk then rest else chunk
    }
  }

  function ChunkCount(size: nat, chunk: nat): (n: nat)
    requires chunk > 0
  {
    var n := (size + chunk - 1) / chunk;
    if n == 0 then 1 else n
  }

  function SealedLen(size: nat, chunk: nat): nat
    requires chunk > 0
  {
    ChunkCount(size, chunk) * (chunk + TAG_LEN)
  }

  /** The chunks cover the file, and all but the last are full. */
  lemma ChunkCountCovers(size: nat, chunk: nat)
    requires chunk > 0
    ensures var n := ChunkCount(size, chunk);
            n >= 1 && size <= n * chunk && (n > 1 ==> (n - 1) * chunk < size)
  {
    var q := (size + chunk - 1) / chunk;
    assert size + chunk - 1 == q * chunk + (size + chunk - 1) % chunk;
    if q == 0 {
      assert q * chunk == 0;
    } else {
      assert (q - 1) * chunk == q * chunk - chunk;
    }
  }

  /** The low 32 bits, most significant byte first. */
  function BigEndian32(n: nat): (b: Bytes)
    ensures |b| == 4
  {
    [n / 0x100_0000 % 256, n / 0x1_0000 % 256, n / 0x100 % 256, n % 256]
  }

  lemma BigEndian32Injective(m: nat, n: nat)
    requires m <= U32_MAX && n <= U32_MAX && BigEndian32(m) == BigEndian32(n)
    ensures m == n
  {
    var a, b := BigEndian32(m), BigEndian32(n);
    assert a[0] == b[0] && a[1] == b[1] && a[2] == b[2] && a[3] == b[3];
    FromBigEndian32(m);
    FromBigEndian32(n);
  }

  lemma FromBigEndian32(n: nat)
    requires n <= U32_MAX
    ensures var b := BigEndian32(n);
            n == ((b[0] as int * 256 + b[1] as int) * 256 + b[2] as int) * 256 + b[3] as int
  {
    var h, m := n / 256, n / 256 / 256;
    assert n / 0x100 == h && n / 0x1_0000 == m && n / 0x100_0000 == m / 256;
  }

  function NonceFor(prefix: Bytes, index: nat): Bytes {
    prefix + BigEndian32(index)
  }

  function AadFor(format: Format, index: nat, last: bool): Bytes {
    (if format == V2 then AAD_CHUNK_V2 else []) + BigEndian32(index) + [if last then 1 else 0]
  }

  lemma NonceForInjective(prefix: Bytes, i: nat, j: nat)
    requires i <= U32_MAX && j <= U32_MAX && NonceFor(prefix, i) == NonceFor(prefix, j)
    ensures i == j
  {
    assert NonceFor(prefix, i)[|prefix|..] == BigEndian32(i);
    assert NonceFor(prefix, j)[|prefix|..] == BigEndian32(j);
    BigEndian32Injective(i, j);
  }

  /** The associated data tells the formats, the positions and the last chunk apart. */
  lemma AadForInjective(f: Format, i: nat, last: bool, g: Format, j: nat, end: bool)
    requires i <= U32_MAX && j <= U32_MAX && AadFor(f, i, last) == AadFor(g, j, end)
    ensures f == g && i == j && last == end
  {
    var a := AadFor(f, i, last);
    assert |AadFor(g, j, end)| == if g == V2 then 22 else 5;
    assert a[|a| - 1] == (if last then 1 else 0) && a[|a| - 1] == (if end then 1 else 0);
    assert a[|a| - 5..|a| - 1] == BigEndian32(i) && a[|a| - 5..|a| - 1] == BigEndian32(j);
    BigEndian32Injective(i, j);
  }

  predicate FillerOk(format: Format, filler: Bytes) {
    format == V2 ==> AllZero(filler)
  }

  // ---------- Sealing ----------

  /** Chunk i of the file, filled up with zeros. */
  ghost function PlainChunk(p: Params, plain: Bytes, i: nat): (b: Bytes)
    requires |plain| == p.size
  {
    var at := if i * p.chunk < p.size then i * p.chunk else p.size;
    plain[at..at + p.Take(i)] + Zeros(p.chunk - p.Take(i))
  }

  ghost function SealedChunk(c: Cipher, p: Params, plain: Bytes, i: nat): Bytes
    requires p.chunk > 0 && |plain| == p.size
  {
    c.seal(NonceFor(p.prefix, i), AadFor(p.format, i, i == p.Count() - 1), PlainChunk(p, plain, i))
  }

  /** The first k sealed chunks. */
  ghost function SealedChunks(c: Cipher, p: Params, plain: Bytes, k: nat): Bytes
    requires p.chunk > 0 && |plain| == p.size
  {
    if k == 0 then [] else SealedChunks(c, p, plain, k - 1) + SealedChunk(c, p, plain, k - 1)
  }

  ghost function SealedFile(c: Cipher, p: Params, plain: Bytes): Bytes
    requires p.chunk > 0 && |plain| == p.size
  {
    SealedChunks(c, p, plain, p.Count())
  }

  /** Every message that sealing the file seals. */
  ghost function Sealings(p: Params, plain: Bytes): set<Sealing>
    requires p.chunk > 0 && |plain| == p.size
  {
    set i: nat | i < p.Count() ::
      Sealing(NonceFor(p.prefix, i), AadFor(p.format, i, i == p.Count() - 1), PlainChunk(p, plain, i))
  }

  // ---------- Opening ----------

  /** Sealed chunk i of ciphertext t. */
  ghost function ChunkOf(p: Params, t: Bytes, i: nat): Bytes
    requires (i + 1) * p.Sealed() <= |t|
  {
    assert i * p.Sealed() + p.Sealed() == (i + 1) * p.Sealed();
    t[i * p.Sealed()..i * p.Sealed() + p.Sealed()]
  }

  /** What opening one sealed chunk contributes to the file, if it opens and its filler is right. */
  function OpenChunk(c: Cipher, p: Params, i: nat, sealed: Bytes): Option<Bytes>
    requires p.chunk > 0
  {
    var r := c.open(NonceFor(p.prefix, i), AadFor(p.format, i, i == p.Count() - 1), sealed);
    if r.None? || |r.value| < p.Take(i) || !FillerOk(p.format, r.value[p.Take(i)..]) then None
    else Some(r.value[..p.Take(i)])
  }

  /** What the first k chunks of t open to. */
  ghost function Opened(c: Cipher, p: Params, t: Bytes, k: nat): Option<Bytes>
    requires p.chunk > 0 && k * p.Sealed() <= |t|
  {
    if k == 0 then Some([])
    else
      assert k * p.Sealed() == (k - 1) * p.Sealed() + p.Sealed();
      var before, last := Opened(c, p, t, k - 1), OpenChunk(c, p, k - 1, ChunkOf(p, t, k - 1));
      if before.None? || last.None? then None else Some(before.value + last.value)
  }

  /** The file a ciphertext opens to, None if it is not exactly the chunks of one. */
  ghost function OpenedFile(c: Cipher, p: Params, t: Bytes): Option<Bytes>
    requires p.chunk > 0
  {
    if |p.prefix| == PREFIX_LEN && |t| == p.Count() * p.Sealed() then Opened(c, p, t, p.Count()) else None
  }

  lemma {:induction false} OpenedFails(c: Cipher, p: Params, t: Bytes, j: nat, k: nat)
    requires p.chunk > 0 && j <= k && k * p.Sealed() <= |t|
    requires j * p.Sealed() <= |t| && Opened(c, p, t, j).None?
    ensures Opened(c, p, t, k).None?
    decreases k
  {
    if j == k {
    } else {
      assert k * p.Sealed() == (k - 1) * p.Sealed() + p.Sealed();
      OpenedFails(c, p, t, j, k - 1);
    }
  }
}
