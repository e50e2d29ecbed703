/** How far file contents and metadata are padded, and how padded metadata is read back. */
module Padding {
  import opened ChunkFormat
  import opened Octets
  import opened Wrappers

  const CONTENT_BUCKETS: seq<nat> :=
    [16 * 1024, 64 * 1024, 256 * 1024, 1024 * 1024, 4 * 1024 * 1024, 16 * 1024 * 1024, 64 * 1024 * 1024,
     256 * 1024 * 1024, 1024 * 1024 * 1024]
  const CONTENT_STEP: nat := 256 * 1024 * 1024
  const METADATA_BUCKETS: seq<nat> := [64, 128, 256, 512, 1024, 2048, 4096]
  const METADATA_STEP: nat := 4096

  /** The first bucket that holds n, or the next multiple of step beyond them all. */
  function Padded(buckets: seq<nat>, step: nat, n: nat): nat
    requires step > 0
  {
    if buckets == [] then (n + step - 1) / step * step
    else if n <= buckets[0] then buckets[0]
    else Padded(buckets[1..], step, n)
  }

  function PaddedSize(n: nat): nat {
    Padded(CONTENT_BUCKETS, CONTENT_STEP, n)
  }

  function PaddedMetadataSize(n: nat): nat {
    Padded(METADATA_BUCKETS, METADATA_STEP, n)
  }

  /** A size something can be padded to: a bucket, or a multiple of step beyond all buckets. */
  predicate IsPadded(buckets: seq<nat>, step: nat, size: nat)
    requires step > 0
  {
    size in buckets || ((forall b :: b in buckets ==> b < size) && size % step == 0)
  }

  ghost predicate Ascending(buckets: seq<nat>) {
    forall i, j :: 0 <= i < j < |buckets| ==> buckets[i] < buckets[j]
  }

  lemma RoundsUp(n: nat, step: nat)
    requires step > 0
    ensures var r := (n + step - 1) / step * step;
            n <= r < n + step && r % step == 0 && forall m: nat :: n <= m && m % step == 0 ==> r <= m
  {
    var q := (n + step - 1) / step;
    assert n + step - 1 == q * step + (n + step - 1) % step;
    MultipleOf(q, step);
    forall m: nat | n <= m && m % step == 0
      ensures q * step <= m
    {
      var k := m / step;
      assert m == k * step;
      if k < q {
        Below(k, q, step);
      }
    }
  }

  lemma MultipleOf(q: nat, step: nat)
    requires step > 0
    ensures q * step % step == 0
  {
    var x := q * step;
    var k := x / step;
    assert x == k * step + x % step;
    if k < q {
      Below(k, q, step);
    } else if q < k {
      Below(q, k, step);
    }
  }

  lemma Below(k: nat, q: nat, step: nat)
    requires k < q
    ensures k * step + step <= q * step
  {
    assert (k + 1) * step == k * step + step;
    assert (k + 1) * step <= q * step;
  }

  ghost predicate IsLeast(buckets: seq<nat>, step: nat, n: nat, p: nat)
    requires step > 0
  {
    && n <= p && IsPadded(buckets, step, p)
    && forall m: nat :: n <= m && IsPadded(buckets, step, m) ==> p <= m
  }

  lemma FirstBucket(buckets: seq<nat>, step: nat, n: nat)
    requires step > 0 && Ascending(buckets) && buckets != [] && n <= buckets[0]
    ensures IsLeast(buckets, step, n, buckets[0])
  {
    assert buckets[0] in buckets;
  }

  lemma LaterBucket(buckets: seq<nat>, step: nat, n: nat, p: nat)
    requires step > 0 && buckets != [] && n > buckets[0] && IsLeast(buckets[1..], step, n, p)
    ensures IsLeast(buckets, step, n, p)
  {
    assert forall b :: b in buckets <==> b == buckets[0] || b in buckets[1..];
    forall m: nat | n <= m
      ensures IsPadded(buckets, step, m) <==> IsPadded(buckets[1..], step, m)
    {
    }
  }

  /** Padding picks the least size that things are padded to and that holds n. */
  lemma {:induction false} PaddedIsLeast(buckets: seq<nat>, step: nat, n: nat)
    requires step > 0 && Ascending(buckets)
    ensures IsLeast(buckets, step, n, Padded(buckets, step, n))
  {
    if buckets == [] {
      RoundsUp(n, step);
    } else if n <= buckets[0] {
      FirstBucket(buckets, step, n);
    } else {
      PaddedIsLeast(buckets[1..], step, n);
      LaterBucket(buckets, step, n, Padded(buckets, step, n));
    }
  }

  /** Padding never shrinks, keeps order, and leaves a padded size alone. */
  lemma PaddedMonotoneIdempotent(buckets: seq<nat>, step: nat, m: nat, n: nat)
    requires step > 0 && Ascending(buckets)
    ensures m <= n ==> Padded(buckets, step, m) <= Padded(buckets, step, n)
    ensures Padded(buckets, step, Padded(buckets, step, n)) == Padded(buckets, step, n)
  {
    var p := Padded(buckets, step, n);
    PaddedIsLeast(buckets, step, m);
    PaddedIsLeast(buckets, step, n);
    PaddedIsLeast(buckets, step, p);
  }

  /** What file contents are padded to. */
  ghost predicate IsContentSize(n: nat) {
    || n == 16384 || n == 65536 || n == 262144 || n == 1048576 || n == 4194304 || n == 16777216 || n == 67108864
    || n == 268435456 || n == 1073741824
    || (n > 1073741824 && n % 268435456 == 0)
  }

  /** What metadata is padded to. */
  ghost predicate IsMetadataSize(n: nat) {
    || n == 64 || n == 128 || n == 256 || n == 512 || n == 1024 || n == 2048 || n == 4096
    || (n > 4096 && n % 4096 == 0)
  }

  lemma ContentSizes(n: nat)
    ensures IsContentSize(n) <==> IsPadded(CONTENT_BUCKETS, CONTENT_STEP, n)
  {
    assert CONTENT_BUCKETS[8] in CONTENT_BUCKETS;
  }

  lemma MetadataSizes(n: nat)
    ensures IsMetadataSize(n) <==> IsPadded(METADATA_BUCKETS, METADATA_STEP, n)
  {
    assert METADATA_BUCKETS[6] in METADATA_BUCKETS;
  }

  /** The padded size of n bytes of content: the least of these sizes that holds them. Padding it again changes nothing. */
  lemma PaddedSizeIs(n: nat)
    ensures n <= PaddedSize(n) && IsContentSize(PaddedSize(n))
    ensures forall m: nat :: n <= m && IsContentSize(m) ==> PaddedSize(n) <= m
    ensures PaddedSize(PaddedSize(n)) == PaddedSize(n)
  {
    PaddedIsLeast(CONTENT_BUCKETS, CONTENT_STEP, n);
    PaddedMonotoneIdempotent(CONTENT_BUCKETS, CONTENT_STEP, n, n);
    ContentSizes(PaddedSize(n));
    forall m: nat | n <= m && IsContentSize(m)
      ensures PaddedSize(n) <= m
    {
      ContentSizes(m);
    }
  }

  /** The same for metadata. */
  lemma PaddedMetadataSizeIs(n: nat)
    ensures n <= PaddedMetadataSize(n) && IsMetadataSize(PaddedMetadataSize(n))
    ensures forall m: nat :: n <= m && IsMetadataSize(m) ==> PaddedMetadataSize(n) <= m
    ensures PaddedMetadataSize(PaddedMetadataSize(n)) == PaddedMetadataSize(n)
  {
    PaddedIsLeast(METADATA_BUCKETS, METADATA_STEP, n);
    PaddedMonotoneIdempotent(METADATA_BUCKETS, METADATA_STEP, n, n);
    MetadataSizes(PaddedMetadataSize(n));
    forall m: nat | n <= m && IsMetadataSize(m)
      ensures PaddedMetadataSize(n) <= m
    {
      MetadataSizes(m);
    }
  }

  // ---------- Metadata ----------

  function PadMetadata(bytes: Bytes): Bytes {
    var head := BigEndian32(|bytes| % (U32_MAX + 1)) + bytes;
    head + Zeros(if PaddedMetadataSize(|bytes| + 4) < |head| then 0 else PaddedMetadataSize(|bytes| + 4) - |head|)
  }

  function Value32(b: Bytes): nat
    requires |b| == 4
  {
    ((b[0] as int * 256 + b[1] as int) * 256 + b[2] as int) * 256 + b[3] as int
  }

  function UnpadMetadataStrict(bytes: Bytes): Option<Bytes> {
    if |bytes| < 4 then None
    else
      var len := Value32(bytes[..4]);
      if len > |bytes| - 4 || |bytes| != PaddedMetadataSize(len + 4) || !AllZero(bytes[4 + len..]) then None
      else Some(bytes[4..4 + len])
  }

  lemma MetadataHolds(n: nat)
    ensures n <= PaddedMetadataSize(n)
  {
    PaddedIsLeast(METADATA_BUCKETS, METADATA_STEP, n);
  }

  lemma ValueOfBigEndian(n: nat)
    requires n <= U32_MAX
    ensures Value32(BigEndian32(n)) == n
  {
    FromBigEndian32(n);
  }

  lemma LastDigit(h: nat, d: Byte)
    ensures (h * 256 + d as int) / 256 == h && (h * 256 + d as int) % 256 == d as int
  {
  }

  lemma BigEndianOfValue(b: Bytes)
    requires |b| == 4
    ensures Value32(b) <= U32_MAX && BigEndian32(Value32(b)) == b
  {
    var two: nat := b[0] as int * 256 + b[1] as int;
    var three: nat := two * 256 + b[2] as int;
    var n := Value32(b);
    LastDigit(b[0] as int, b[1]);
    LastDigit(two, b[2]);
    LastDigit(three, b[3]);
    assert n / 0x100 == three && n / 0x1_0000 == three / 256 && n / 0x100_0000 == three / 256 / 256;
    assert BigEndian32(n) == [b[0], b[1], b[2], b[3]];
  }

  lemma Parts(a: Bytes, b: Bytes, c: Bytes)
    ensures var s := a + b + c; s[..|a|] == a && s[|a|..|a| + |b|] == b && s[|a| + |b|..] == c
  {
  }

  lemma PaddedComesBack(bytes: Bytes)
    requires |bytes| <= U32_MAX
    ensures UnpadMetadataStrict(PadMetadata(bytes)) == Some(bytes)
  {
    var n := |bytes|;
    MetadataHolds(n + 4);
    ValueOfBigEndian(n);
    PadIs(bytes);
    UnpadParts(BigEndian32(n), bytes, Zeros(PaddedMetadataSize(n + 4) - n - 4));
  }

  lemma PadIs(bytes: Bytes)
    requires |bytes| <= U32_MAX
    ensures |bytes| + 4 <= PaddedMetadataSize(|bytes| + 4)
    ensures PadMetadata(bytes) ==
              BigEndian32(|bytes|) + bytes + Zeros(PaddedMetadataSize(|bytes| + 4) - |bytes| - 4)
  {
    MetadataHolds(|bytes| + 4);
  }

  /** Padded metadata, byte by byte: the length in four bytes, the metadata, and zeros up to the padded size. */
  lemma PadMetadataIs(bytes: Bytes)
    requires |bytes| <= 0xffff_ffff
    ensures var out, n := PadMetadata(bytes), |bytes|;
            && n + 4 <= |out| == PaddedMetadataSize(n + 4)
            && ((out[0] as int * 256 + out[1] as int) * 256 + out[2] as int) * 256 + out[3] as int == n
            && out[4..n + 4] == bytes
            && forall k :: n + 4 <= k < |out| ==> out[k] == 0
  {
    PadIs(bytes);
    FromBigEndian32(|bytes|);
  }

  lemma UnpadParts(head: Bytes, bytes: Bytes, filler: Bytes)
    requires |head| == 4 && Value32(head) == |bytes| && AllZero(filler)
    requires 4 + |bytes| + |filler| == PaddedMetadataSize(|bytes| + 4)
    ensures UnpadMetadataStrict(head + bytes + filler) == Some(bytes)
  {
    Parts(head, bytes, filler);
  }

  lemma ZeroTail(s: Bytes, n: nat)
    requires n <= |s| && AllZero(s[n..])
    ensures s == s[..n] + Zeros(|s| - n)
  {
    assert s[n..] == Zeros(|s| - n);
  }

  lemma OnlyPaddedComesBack(padded: Bytes, bytes: Bytes)
    requires UnpadMetadataStrict(padded) == Some(bytes)
    ensures |bytes| <= U32_MAX && padded == PadMetadata(bytes)
  {
    var n := |bytes|;
    BigEndianOfValue(padded[..4]);
    PadIs(bytes);
    ZeroTail(padded, 4 + n);
    assert padded[..4 + n] == padded[..4] + bytes;
  }

  /** Exactly the padded form of some bytes is accepted, and those bytes come back. */
  lemma MetadataRoundTrip(padded: Bytes, bytes: Bytes)
    requires |bytes| <= U32_MAX
    ensures UnpadMetadataStrict(padded) == Some(bytes) <==> padded == PadMetadata(bytes)
  {
    PaddedComesBack(bytes);
    if UnpadMetadataStrict(padded) == Some(bytes) {
      OnlyPaddedComesBack(padded, bytes);
    }
  }

  /** Fills a buffer of the padded size. */
  method PadMetadataBytes(bytes: Bytes) returns (out: array<Byte>)
    ensures fresh(out) && out[..] == PadMetadata(bytes)
  {
    MetadataHolds(|bytes| + 4);
    out := new Byte[PaddedMetadataSize(|bytes| + 4)](_ => 0);
    var head := BigEndian32(|bytes| % (U32_MAX + 1)) + bytes;
    for i := 0 to |head|
      invariant forall k :: 0 <= k < i ==> out[k] == head[k]
      invariant forall k :: i <= k < out.Length ==> out[k] == 0
    {
      out[i] := head[i];
    }
  }
}
