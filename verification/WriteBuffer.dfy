/** The write buffer takes the steps of the commit protocol. */
module WriteBuffer {
  import opened Octets
  import opened Scratch
  import opened ScratchStore
  import opened WriteBack

  /** The buffer is the one the protocol's state speaks of. */
  ghost predicate Shows(s: Scratch, st: State)
    reads s, s.pool
  {
    s.Valid() && s.Contents() == st.buf && s.generation == st.gen && s.committedGeneration == st.committed
  }

  method DoWrite(s: Scratch, ghost st: State, offset: U64, data: Bytes) returns (ok: bool)
    requires Shows(s, st)
    modifies s, s.pool
    ensures ok <==> data == [] || offset + |data| <= U64_MAX
    ensures Shows(s, if ok then Apply(st, Write(offset, data)) else st)
  {
    ok := s.WriteAt(offset, data);
  }

  method DoTruncate(s: Scratch, ghost st: State, len: U64)
    requires Shows(s, st)
    modifies s, s.pool
    ensures Shows(s, Apply(st, Truncate(len)))
  {
    s.SetLen(len);
  }

  /** Reads on at pos, never past the length the upload began with. */
  method ReadPart(s: Scratch, pos: nat, len: nat, out: array<Byte>) returns (n: nat)
    requires s.Valid() && pos <= len && pos <= s.len
    modifies out
    ensures n == Min(out.Length, Min(len - pos, s.len - pos)) && out[..n] == s.Contents()[pos..pos + n]
  {
    ghost var c := s.Contents();
    var want := if out.Length < len - pos then out.Length else len - pos;
    var part := new Byte[want](_ => 0);
    n := s.ReadAt(pos, part);
    assert part[..n] == c[pos..pos + n];
    CopyFirst(part, n, out);
    assert s.Contents() == c;
  }

  method CopyFirst(part: array<Byte>, n: nat, out: array<Byte>)
    requires n <= part.Length && n <= out.Length && part != out
    modifies out
    ensures out[..n] == part[..n]
  {
    for i := 0 to n
      invariant out[..i] == part[..i]
    {
      out[i] := part[i];
      assert out[..i + 1] == out[..i] + [part[i]] && part[..i + 1] == part[..i] + [part[i]];
    }
  }

  method DoReadMore(s: Scratch, ghost st: State, pos: nat, len: nat, out: array<Byte>) returns (n: nat)
    requires Shows(s, st) && Enabled(st, ReadMore(out.Length))
    requires st.phase.len == len && |st.phase.sent| == pos
    modifies out
    ensures n <= out.Length && Shows(s, st)
    ensures Apply(st, ReadMore(out.Length)).phase.sent == st.phase.sent + out[..n]
  {
    assert |s.Contents()| == s.len;
    n := ReadPart(s, pos, len, out);
  }

  /** Marks what the upload began with, whatever has been written since. */
  method DoMark(s: Scratch, ghost st: State, generation: nat)
    requires Shows(s, st) && Enabled(st, Mark) && st.phase.gen == generation
    modifies s
    ensures Shows(s, Apply(st, Mark))
  {
    s.MarkCommitted(generation);
  }

  method IsClean(s: Scratch, ghost st: State) returns (clean: bool)
    requires Shows(s, st)
    ensures clean <==> !st.Dirty()
  {
    clean := !s.IsDirty();
  }

  /** A buffer for a new file, or for an existing one opened to be overwritten. */
  method OpenEmpty(pool: ScratchPool, ghost target: Target, ghost records: map<RecordId, Bytes>) returns (s: Scratch)
    requires pool.Valid()
    modifies pool
    ensures fresh(s) && Shows(s, OpenedEmpty(target, records)) && Initial(OpenedEmpty(target, records))
  {
    s := new Scratch(pool);
    s.MarkDirty();
  }

  /** A buffer for an existing file, filled with its content. */
  method OpenExisting(pool: ScratchPool, id: RecordId, content: Bytes, ghost records: map<RecordId, Bytes>)
      returns (s: Scratch, ok: bool)
    requires pool.Valid()
    modifies pool
    ensures fresh(s) && (ok <==> |content| <= U64_MAX)
    ensures ok ==> var st := OpenedExisting(id, content, s.generation, records); Shows(s, st) && Initial(st)
  {
    s := new Scratch(pool);
    ok := s.WriteAt(0, content);
    if ok {
      s.MarkCommitted(s.generation);
    }
  }
}
