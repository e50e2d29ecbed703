/** Files sealed as one message: the check of the whole plain text in memory, and the check of a stream of it. */
module SingleMessage {
  import opened ChunkFormat
  import opened ChunkIo
  import opened Octets
  import opened Padding
  import opened Wrappers

  const BLOCK := 256 * 1024

  /** What the metadata of a file says about its content. */
  datatype Meta = Meta(unpadded: Option<nat>, size: Option<nat>, compressed: bool)

  /** What a gzip decoder makes of an input: the bytes it yields, whether it then ends rather than fails, and how much of
      the input it has consumed at that end. */
  datatype Inflated = Inflated(out: Bytes, ended: bool, consumed: nat)

  type Gzip = Bytes -> Inflated

  ghost predicate Honest(gz: Gzip) {
    forall b :: gz(b).consumed <= |b|
  }

  /** A decoder at work; each read gives some of the bytes still to come, or the end, or fails. */
  class GzDecoder {
    const all: Inflated
    var at: nat
    var script: seq<nat>

    ghost predicate Valid()
      reads this
    {
      at <= |all.out|
    }

    constructor (gz: Gzip, input: Bytes, script: seq<nat>)
      ensures Valid() && all == gz(input) && at == 0
    {
      all := gz(input);
      at := 0;
      this.script := script;
    }

    method Read(max: nat) returns (got: Option<Bytes>)
      requires Valid() && max > 0
      modifies this
      ensures Valid()
      ensures at == old(at) + if got.Some? then |got.value| else 0
      ensures got.Some? ==> got.value == all.out[old(at)..at] && |got.value| <= max
      ensures got == Some([]) <==> old(at) == |all.out| && all.ended
      ensures got == None ==> old(at) == |all.out| && !all.ended
    {
      if at == |all.out| {
        return if all.ended then Some([]) else None;
      }
      var most := if max < |all.out| - at then max else |all.out| - at;
      var n := most;
      if script != [] {
        n := if script[0] == 0 then 1 else script[0];
        n := if n < most then n else most;
        script := script[1..];
      }
      got := Some(all.out[at..at + n]);
      at := at + n;
    }

    /** Reads up to limit bytes, asking for at most block of them at a time. */
    method ReadLimited(limit: nat, block: nat) returns (got: Option<Bytes>)
      requires Valid() && at == 0 && block > 0
      modifies this
      ensures Valid()
      ensures got == Limited(all, limit)
      ensures got.Some? ==> at == |got.value|
    {
      var out := [];
      while |out| < limit
        invariant Valid() && at == |out| <= limit && out == all.out[..at]
        decreases limit - |out|
      {
        var n := if block < limit - |out| then block else limit - |out|;
        var more := Read(n);
        if more.None? {
          return None;
        }
        if more.value == [] {
          assert all.out[..at] == all.out;
          return Some(out);
        }
        out := out + more.value;
      }
      return Some(out);
    }
  }

  /** What reading at most limit bytes from a decoder gives. */
  function Limited(all: Inflated, limit: nat): Option<Bytes> {
    if limit <= |all.out| then Some(all.out[..limit]) else if all.ended then Some(all.out) else None
  }

  /** The decoder gives exactly `size` bytes out of exactly this input. */
  ghost predicate InflatesTo(gz: Gzip, input: Bytes, out: Bytes) {
    gz(input) == Inflated(out, true, |input|)
  }

  // ---------- The whole plain text in memory ----------

  method DecompressExactly(gz: Gzip, bytes: Bytes, expected: nat, script: seq<nat>) returns (out: Option<Bytes>)
    ensures out.Some? <==> exists o :: |o| == expected && InflatesTo(gz, bytes, o)
    ensures out.Some? ==> InflatesTo(gz, bytes, out.value)
  {
    var decoder := new GzDecoder(gz, bytes, script);
    var read := decoder.ReadLimited(expected + 1, BLOCK);
    if read.None? || |read.value| != expected {
      return None;
    }
    var extra := decoder.Read(1);
    if extra != Some([]) || decoder.all.consumed != |bytes| {
      return None;
    }
    assert InflatesTo(gz, bytes, read.value);
    return read;
  }

  /** The content a padded plain text stands for: what is there up to the announced length, zeros after it up to the
      padded size, and, of a compressed file, exactly the announced number of bytes when unpacked. */
  ghost predicate IsContent(gz: Gzip, meta: Meta, padded: Bytes, content: Bytes) {
    match meta.unpadded
    case None => padded == [] && content == []
    case Some(n) =>
      && |padded| == PaddedSize(n) && n <= |padded| && AllZero(padded[n..])
      && if meta.compressed then meta.size == Some(|content|) && InflatesTo(gz, padded[..n], content)
         else content == padded[..n]
  }

  lemma ContentHolds(n: nat)
    ensures n <= PaddedSize(n)
  {
    PaddedIsLeast(CONTENT_BUCKETS, CONTENT_STEP, n);
  }

  /** A plain text stands for at most one content, so whoever accepts it gives the same bytes. */
  lemma ContentUnique(gz: Gzip, meta: Meta, padded: Bytes, a: Bytes, b: Bytes)
    requires IsContent(gz, meta, padded, a) && IsContent(gz, meta, padded, b)
    ensures a == b
  {
  }

  /** Bytes filled up with zeros to their padded size. */
  function PadToBucket(bytes: Bytes): Bytes {
    bytes + Zeros(if PaddedSize(|bytes|) < |bytes| then 0 else PaddedSize(|bytes|) - |bytes|)
  }

  /** The bytes first, then zeros, up to the least of the sizes contents are padded to. */
  lemma PadToBucketIs(bytes: Bytes)
    ensures var p := PadToBucket(bytes);
            && |bytes| <= |p| && p[..|bytes|] == bytes && (forall k :: |bytes| <= k < |p| ==> p[k] == 0)
            && IsContentSize(|p|) && forall m: nat :: |bytes| <= m && IsContentSize(m) ==> |p| <= m
  {
    PaddedSizeIs(|bytes|);
  }

  /** A compressed text stands for what it unpacks to, all of it and nothing more, of the announced size. */
  ghost predicate StandsFor(gz: Gzip, meta: Meta, packed: Bytes, content: Bytes) {
    if meta.compressed then meta.size == Some(|content|) && gz(packed) == Inflated(content, true, |packed|)
    else content == packed
  }

  /** The plain texts accepted for a content are those its writer can have padded: of the content itself, or of a gzip
      stream of the announced length that unpacks to it and nothing more. Without a length only the empty text is. */
  lemma AcceptedIsPadded(gz: Gzip, meta: Meta, padded: Bytes, content: Bytes)
    ensures meta.unpadded.None? ==> (IsContent(gz, meta, padded, content) <==> padded == [] && content == [])
    ensures meta.unpadded.Some? ==>
              (IsContent(gz, meta, padded, content) <==>
                 exists packed: Bytes :: |packed| == meta.unpadded.value && padded == PadToBucket(packed) &&
                   StandsFor(gz, meta, packed, content))
  {
    if meta.unpadded.Some? {
      var n := meta.unpadded.value;
      ContentHolds(n);
      if IsContent(gz, meta, padded, content) {
        ZeroTail(padded, n);
        assert padded == PadToBucket(padded[..n]);
      }
      if packed: Bytes :| |packed| == n && padded == PadToBucket(packed) && StandsFor(gz, meta, packed, content) {
        assert padded[..n] == packed;
        assert padded[n..] == Zeros(|padded| - n);
      }
    }
  }

  /** What a format 1 plain text is without its padding: cut where a length is known that it reaches. */
  function Unpadded(meta: Meta, padded: Bytes): Bytes {
    if meta.unpadded.Some? && meta.unpadded.value <= |padded| then padded[..meta.unpadded.value] else padded
  }

  /** Format 1 checks neither padding nor sizes: a compressed file is whatever its first gzip stream unpacks to. */
  ghost predicate IsLegacyContent(gz: Gzip, meta: Meta, padded: Bytes, content: Bytes) {
    var bytes := Unpadded(meta, padded);
    if meta.compressed then gz(bytes).ended && content == gz(bytes).out else content == bytes
  }

  /** In format 1 the padding is cut off at a known length; what is then left is the content, or unpacks to it. */
  lemma LegacyContentIs(gz: Gzip, meta: Meta, bytes: Bytes, rest: Bytes, content: Bytes)
    requires if meta.unpadded.Some? && meta.unpadded.value <= |bytes + rest| then meta.unpadded.value == |bytes|
             else rest == []
    ensures IsLegacyContent(gz, meta, bytes + rest, content) <==>
              if meta.compressed then gz(bytes).ended && content == gz(bytes).out else content == bytes
  {
    assert (bytes + rest)[..|bytes|] == bytes;
    assert rest == [] ==> bytes + rest == bytes;
  }

  ghost predicate IsContentOf(format: Format, gz: Gzip, meta: Meta, padded: Bytes, content: Bytes) {
    if format == Legacy then IsLegacyContent(gz, meta, padded, content) else IsContent(gz, meta, padded, content)
  }

  method DecompressBytes(gz: Gzip, bytes: Bytes, script: seq<nat>) returns (out: Option<Bytes>)
    ensures out == if gz(bytes).ended then Some(gz(bytes).out) else None
  {
    var decoder := new GzDecoder(gz, bytes, script);
    var read := [];
    while true
      invariant decoder.Valid() && decoder.at == |read| && read == decoder.all.out[..decoder.at]
      invariant decoder.all == gz(bytes) && fresh(decoder)
      decreases |decoder.all.out| - decoder.at
    {
      var more := decoder.Read(BLOCK);
      if more.None? {
        return None;
      }
      if more.value == [] {
        assert decoder.all.out[..decoder.at] == decoder.all.out;
        return Some(read);
      }
      read := read + more.value;
    }
  }

  /** Accepts exactly the plain texts of some content, and gives that content. */
  method FinishSingleContent(format: Format, gz: Gzip, padded: Bytes, meta: Meta, script: seq<nat>)
      returns (content: Option<Bytes>)
    ensures content.Some? <==> exists c :: IsContentOf(format, gz, meta, padded, c)
    ensures content.Some? ==> IsContentOf(format, gz, meta, padded, content.value)
  {
    if format == Legacy {
      content := FinishLegacy(gz, padded, meta, script);
    } else {
      content := FinishChecked(gz, padded, meta, script);
      assert forall c :: IsContentOf(format, gz, meta, padded, c) <==> IsContent(gz, meta, padded, c);
    }
  }

  method FinishLegacy(gz: Gzip, padded: Bytes, meta: Meta, script: seq<nat>) returns (content: Option<Bytes>)
    ensures content.Some? <==> exists c :: IsContentOf(Legacy, gz, meta, padded, c)
    ensures content.Some? ==> IsContentOf(Legacy, gz, meta, padded, content.value)
  {
    var bytes := padded;
    if meta.unpadded.Some? && meta.unpadded.value <= |padded| {
      bytes := padded[..meta.unpadded.value];
    }
    if meta.compressed {
      content := DecompressBytes(gz, bytes, script);
      assert gz(bytes).ended ==> IsContentOf(Legacy, gz, meta, padded, gz(bytes).out);
    } else {
      content := Some(bytes);
      assert IsContentOf(Legacy, gz, meta, padded, bytes);
    }
  }

  method FinishChecked(gz: Gzip, padded: Bytes, meta: Meta, script: seq<nat>) returns (content: Option<Bytes>)
    ensures content.Some? <==> exists c :: IsContent(gz, meta, padded, c)
    ensures content.Some? ==> IsContent(gz, meta, padded, content.value)
  {
    if meta.unpadded.None? {
      if padded != [] {
        return None;
      }
      assert IsContent(gz, meta, padded, []);
      return Some([]);
    }
    var unpadded := meta.unpadded.value;
    ContentHolds(unpadded);
    if |padded| != PaddedSize(unpadded) || !AllZero(padded[unpadded..]) {
      return None;
    }
    var bytes := padded[..unpadded];
    if !meta.compressed {
      assert IsContent(gz, meta, padded, bytes);
      return Some(bytes);
    }
    if meta.size.None? {
      return None;
    }
    content := DecompressExactly(gz, bytes, meta.size.value, script);
    assert forall c :: IsContent(gz, meta, padded, c) <==> |c| == meta.size.value && InflatesTo(gz, bytes, c);
  }

  // ---------- A stream of the plain text ----------

  lemma NextBlock(all: Bytes, n: nat, block: Bytes, rest: Bytes)
    requires n <= |all| && all[n..] == block + rest
    ensures n + |block| <= |all| && all[..n + |block|] == all[..n] + block && all[n + |block|..] == rest
    ensures all == all[..n] + all[n..]
    ensures block == all[n..n + |block|]
  {
  }

  /** Copies at most limit bytes of the source, block by block. */
  method CopyInBlocks(source: Source, limit: nat) returns (out: Bytes)
    requires source.Valid()
    modifies source
    ensures source.Valid() && old(source.Rest()) == out + source.Rest()
    ensures |out| <= limit && (|out| < limit ==> source.Rest() == [])
  {
    out := [];
    ghost var all := source.Rest();
    while |out| < limit
      invariant source.Valid() && |out| <= |all| && out == all[..|out|] && source.Rest() == all[|out|..] && |out| <= limit
      decreases limit - |out|
    {
      var n := if BLOCK < limit - |out| then BLOCK else limit - |out|;
      var block := ReadFull(source, n);
      NextBlock(all, |out|, block, source.Rest());
      if block == [] {
        return;
      }
      out := out + block;
    }
  }

  /** Reads the rest of the source, counting it; stops at a block that is not all zero. */
  method CountZeros(source: Source) returns (count: Option<nat>)
    requires source.Valid()
    modifies source
    ensures source.Valid()
    ensures count == if AllZero(old(source.Rest())) then Some(|old(source.Rest())|) else None
  {
    var n := 0;
    ghost var all := source.Rest();
    while true
      invariant source.Valid() && n <= |all| && source.Rest() == all[n..] && AllZero(all[..n])
      decreases |all| - n
    {
      var block := ReadFull(source, BLOCK);
      NextBlock(all, n, block, source.Rest());
      if block == [] {
        assert all[..n] == all;
        return Some(n);
      }
      if !AllZero(block) {
        var i :| 0 <= i < |block| && block[i] != 0;
        assert all[n + i] != 0;
        return None;
      }
      n := n + |block|;
    }
  }

  /** Unpacks and checks a stream as it comes. Accepts what the check in memory accepts, and yields the same content. */
  method StreamSingle(gz: Gzip, source: Source, meta: Meta, script: seq<nat>) returns (content: Option<Bytes>)
    requires source.Valid() && Honest(gz)
    modifies source
    ensures content.Some? <==> meta.unpadded.Some? && exists c :: IsContent(gz, meta, old(source.Rest()), c)
    ensures content.Some? ==> IsContent(gz, meta, old(source.Rest()), content.value)
  {
    if meta.unpadded.None? || (meta.compressed && meta.size.None?) {
      return None;
    }
    var unpadded := meta.unpadded.value;
    ghost var all := source.Rest();
    ContentHolds(unpadded);
    var body := CopyInBlocks(source, unpadded);
    var written := body;
    if meta.compressed {
      var decoder := new GzDecoder(gz, body, script);
      var got := decoder.ReadLimited(meta.size.value + 1, BLOCK);
      if got.None? || |got.value| != meta.size.value || body[decoder.all.consumed..] != [] {
        return None;
      }
      written := got.value;
    }
    if |body| != unpadded {
      return None;
    }
    assert all[..unpadded] == body && all[unpadded..] == source.Rest();
    var zeros := CountZeros(source);
    if zeros.None? || unpadded + zeros.value != PaddedSize(unpadded) {
      return None;
    }
    assert IsContent(gz, meta, all, written);
    return Some(written);
  }
}
