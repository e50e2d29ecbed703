/** Random access to a chunked file by many threads: which thread loads a chunk, and what a read returns. */
module ChunkedSource {
  import opened ChunkFormat
  import opened ChunkTheorems
  import opened ChunkIo
  import opened Octets
  import opened Wrappers

  type Thread = nat

  datatype ChunkState = Missing | Loading | Ready

  /** A read that has been clamped to the file, with the first and last chunk it needs. */
  datatype Request = Request(offset: nat, len: nat, want: nat, first: nat, last: nat)

  datatype Activity =
    | Ensuring(req: Request, next: nat)              // chunks before next are ready
    | Trying(i: nat)                                 // about to claim a chunk for a read-ahead
    | Loader(i: nat, fetched: bool, counted: bool, forRead: Option<Request>)  // a read-ahead thread has no request
    | Copying(req: Request, out: Bytes)
    | Returned(req: Request, out: Bytes)
    | Failed

  datatype State = State(
    c: Cipher, p: Params,
    plain: Bytes,                    // what was sealed; no step looks at it
    states: seq<ChunkState>,         // under one lock
    prefetched: set<nat>,            // chunks a read-ahead has been tried for
    slots: seq<Option<Bytes>>,       // the loaded plain texts, each under its own lock
    resident: nat,
    threads: map<Thread, Activity>)

  /** The plain text of chunk i. */
  ghost function Slice(p: Params, plain: Bytes, i: nat): Bytes {
    if Upto(p, i) <= Upto(p, i + 1) <= |plain| then plain[Upto(p, i)..Upto(p, i + 1)] else []
  }

  // ---------- Fetching one chunk ----------

  /** What a loader makes of the blob the server sends it for chunk i. */
  ghost function Fetched(c: Cipher, p: Params, i: nat, blob: Bytes): Option<Bytes>
    requires p.chunk > 0 && i < p.Count()
  {
    if |blob| == SealedLen(p.size, p.chunk) && |p.prefix| == PREFIX_LEN && i <= U32_MAX then OpenAt(c, p, i, blob) else None
  }

  ghost function OpenAt(c: Cipher, p: Params, i: nat, blob: Bytes): Option<Bytes>
    requires p.chunk > 0 && |blob| == SealedLen(p.size, p.chunk) && i < p.Count()
  {
    AtMostTimes(i + 1, p.Count(), p.Sealed());
    OpenChunk(c, p, i, ChunkOf(p, blob, i))
  }

  method Fetch(c: Cipher, p: Params, i: nat, blob: Bytes) returns (slot: Option<Bytes>)
    requires p.chunk > 0 && i < p.Count() && TagsAreKept(c)
    ensures slot == Fetched(c, p, i, blob)
  {
    AtMostTimes(i + 1, p.Count(), p.Sealed());
    if |blob| != SealedLen(p.size, p.chunk) || |p.prefix| != PREFIX_LEN || i > U32_MAX {
      return None;
    }
    var start := i * p.Sealed();
    assert start + p.Sealed() == (i + 1) * p.Sealed();
    var body := blob[start..start + p.Sealed()];
    var opened' := c.open(NonceFor(p.prefix, i), AadFor(p.format, i, i == p.Count() - 1), body);
    if opened'.None? {
      return None;
    }
    slot := CopyChunk(p.format, opened'.value, p.Take(i));
    if slot.Some? && |opened'.value| != p.chunk {
      slot := None;
    }
  }

  /** Under an ideal cipher whatever a loader accepts is its chunk's part of the file, whatever else the blob holds. */
  lemma FetchedIsSlice(c: Cipher, p: Params, plain: Bytes, i: nat, blob: Bytes)
    requires p.Ok() && |plain| == p.size && Ideal(c, Sealings(p, plain)) && p.Count() <= U32_MAX + 1
    requires i < p.Count() && Fetched(c, p, i, blob).Some?
    ensures Fetched(c, p, i, blob) == Some(Slice(p, plain, i))
  {
    AtMostTimes(i + 1, p.Count(), p.Sealed());
    OnlySealedChunkOpens(c, p, plain, p, i, ChunkOf(p, blob, i));
    TakesAddUp(p, plain, i);
  }

  // ---------- The steps ----------

  datatype Step =
    | Begin(t: Thread, offset: nat, len: nat)
    | FindReady(t: Thread)
    | Claim(t: Thread)
    | Decline(t: Thread)            // a read that must not wait finds a chunk missing
    | MarkTried(i: nat, t: Thread)  // read-ahead: a chunk is tried once
    | TryClaim(t: Thread)
    | ReleaseClaim(t: Thread)       // the read-ahead thread could not be started
    | FetchOk(t: Thread, blob: Bytes)  // whatever the server sent, if it opens
    | FetchFails(t: Thread)         // the slot is emptied; the loader may fetch again
    | CountResident(t: Thread)
    | FinishLoad(t: Thread)
    | AllReady(t: Thread)
    | CopyPiece(t: Thread)

  ghost predicate Enabled(s: State, step: Step)
    requires s.p.chunk > 0
  {
    match step
    case Begin(t, offset, len) => t !in s.threads
    case FindReady(t) =>
      t in s.threads && s.threads[t].Ensuring? && s.threads[t].next < |s.states| && s.states[s.threads[t].next] == Ready
    case Claim(t) =>
      t in s.threads && s.threads[t].Ensuring? && s.threads[t].next < |s.states| && s.states[s.threads[t].next] == Missing
    case Decline(t) =>
      t in s.threads && s.threads[t].Ensuring? && s.threads[t].next < |s.states| && s.states[s.threads[t].next] != Ready
    case MarkTried(i, t) => t !in s.threads && i < |s.states|
    case TryClaim(t) => t in s.threads && s.threads[t].Trying? && s.threads[t].i < |s.states|
    case ReleaseClaim(t) => t in s.threads && s.threads[t].Loader? && s.threads[t].forRead.None? && !s.threads[t].fetched
    case FetchOk(t, blob) =>
      t in s.threads && s.threads[t].Loader? && !s.threads[t].fetched && s.threads[t].i < |s.slots| == s.p.Count() &&
      Fetched(s.c, s.p, s.threads[t].i, blob).Some?
    case FetchFails(t) =>
      t in s.threads && s.threads[t].Loader? && !s.threads[t].fetched && s.threads[t].i < |s.slots|
    case CountResident(t) => t in s.threads && s.threads[t].Loader? && s.threads[t].fetched && !s.threads[t].counted
    case FinishLoad(t) =>
      t in s.threads && s.threads[t].Loader? && s.threads[t].i < |s.states| &&
      (s.threads[t].fetched ==> s.threads[t].counted)
    case AllReady(t) =>
      t in s.threads && s.threads[t].Ensuring? && s.threads[t].req.want > 0 &&
      s.threads[t].next > s.threads[t].req.last
    case CopyPiece(t) =>
      t in s.threads && s.threads[t].Copying? && |s.threads[t].out| < s.threads[t].req.want
  }

  function Clamp(size: nat, offset: nat, len: nat): nat {
    if offset >= size then 0 else if len < size - offset then len else size - offset
  }

  /** A read, clamped to the file; there may be nothing to read. */
  function Started(p: Params, offset: nat, len: nat): Activity
    requires p.chunk > 0
  {
    var want := Clamp(p.size, offset, len);
    if want == 0 then Returned(Request(offset, len, 0, 0, 0), [])
    else
      var r := Request(offset, len, want, ChunkAt(p, offset), ChunkAt(p, offset + want - 1));
      Ensuring(r, r.first)
  }

  /** The chunk that holds byte pos. */
  function ChunkAt(p: Params, pos: nat): nat
    requires p.chunk > 0
  {
    pos / p.chunk
  }

  ghost function Apply(s: State, step: Step): State
    requires s.p.chunk > 0 && |s.plain| == s.p.size && Enabled(s, step)
  {
    match step
    case Begin(t, offset, len) =>
      s.(threads := s.threads[t := Started(s.p, offset, len)])
    case FindReady(t) => s.(threads := s.threads[t := s.threads[t].(next := s.threads[t].next + 1)])
    case Claim(t) =>
      var i := s.threads[t].next;
      s.(states := s.states[i := Loading], threads := s.threads[t := Loader(i, false, false, Some(s.threads[t].req))])
    case Decline(t) => s.(threads := s.threads[t := Failed])
    case MarkTried(i, t) =>
      if i in s.prefetched then s else s.(prefetched := s.prefetched + {i}, threads := s.threads[t := Trying(i)])
    case TryClaim(t) =>
      var i := s.threads[t].i;
      if s.states[i] == Missing then
        s.(states := s.states[i := Loading], threads := s.threads[t := Loader(i, false, false, None)])
      else s.(threads := s.threads - {t})
    case ReleaseClaim(t) =>
      var i := s.threads[t].i;
      s.(states := if i < |s.states| then s.states[i := Missing] else s.states, threads := s.threads - {t})
    case FetchOk(t, blob) =>
      var i := s.threads[t].i;
      s.(slots := s.slots[i := Fetched(s.c, s.p, i, blob)], threads := s.threads[t := s.threads[t].(fetched := true)])
    case FetchFails(t) => s.(slots := s.slots[s.threads[t].i := None])
    case CountResident(t) =>
      s.(resident := s.resident + s.p.Take(s.threads[t].i), threads := s.threads[t := s.threads[t].(counted := true)])
    case FinishLoad(t) =>
      var l := s.threads[t];
      var after := s.(states := s.states[l.i := if l.counted then Ready else Missing]);
      if l.forRead.None? then after.(threads := s.threads - {t})
      else if l.counted then after.(threads := s.threads[t := Ensuring(l.forRead.value, l.i + 1)])
      else after.(threads := s.threads[t := Failed])
    case AllReady(t) => s.(threads := s.threads[t := Copying(s.threads[t].req, [])])
    case CopyPiece(t) =>
      s.(threads := s.threads[t := Copied(s.p, s.slots, s.threads[t].req, s.threads[t].out)])
  }

  /** Under an ideal cipher the file has been sealed, and nothing else under its key and prefix. */
  ghost predicate Sealed(s: State) {
    && s.p.Ok() && |s.plain| == s.p.size && s.p.Count() <= U32_MAX + 1
    && Ideal(s.c, Sealings(s.p, s.plain))
  }

  ghost predicate Initial(s: State) {
    && Sealed(s)
    && |s.states| == |s.slots| == s.p.Count()
    && (forall i :: 0 <= i < |s.states| ==> s.states[i] == Missing && s.slots[i] == None)
    && s.prefetched == {} && s.resident == 0 && s.threads == map[]
  }

  ghost predicate IsRun(states: seq<State>, steps: seq<Step>) {
    && |states| == |steps| + 1
    && Initial(states[0])
    && (forall i {:trigger steps[i]} :: 0 <= i < |steps| ==>
          && states[i].p.chunk > 0 && |states[i].plain| == states[i].p.size
          && Enabled(states[i], steps[i]) && states[i + 1] == Apply(states[i], steps[i]))
  }

  // ---------- What every step keeps ----------

  ghost predicate Shape(s: State) {
    s.p.chunk > 0 && |s.plain| == s.p.size && |s.states| == |s.slots| == s.p.Count()
  }

  /** A loader holds its chunk in the loading state, and no two hold the same one. */
  ghost predicate LoadersOk(s: State) {
    && (forall t {:trigger s.threads[t]} :: t in s.threads && s.threads[t].Loader? ==>
          var l := s.threads[t];
          && l.i < |s.states| && s.states[l.i] == Loading && l.i < |s.slots|
          && (l.counted ==> l.fetched) && (l.fetched ==> s.slots[l.i] == Some(Slice(s.p, s.plain, l.i))))
    && (forall t, u {:trigger s.threads[t], s.threads[u]} ::
          t in s.threads && u in s.threads && t != u && s.threads[t].Loader? && s.threads[u].Loader? ==>
            s.threads[t].i != s.threads[u].i)
  }

  /** A ready chunk holds its part of the file. */
  ghost predicate ReadyOk(s: State) {
    forall i {:trigger s.states[i]} :: 0 <= i < |s.states| && s.states[i] == Ready ==>
      i < |s.slots| && s.slots[i] == Some(Slice(s.p, s.plain, i))
  }

  /** Chunks a up to but not including b are ready. */
  ghost predicate ReadyRange(s: State, a: nat, b: nat) {
    b <= |s.states| && forall k :: a <= k < b ==> s.states[k] == Ready
  }

  /** The part of the file that a read of len bytes at offset asks for, as far as the file reaches. */
  ghost function Asked(plain: Bytes, offset: nat, len: nat): Bytes {
    if offset >= |plain| then [] else plain[offset..if offset + len < |plain| then offset + len else |plain|]
  }

  ghost predicate ReadsOk(s: State)
    requires Shape(s)
  {
    forall t {:trigger s.threads[t]} :: t in s.threads ==> ReadOk(s, s.threads[t])
  }

  ghost predicate InFile(p: Params, r: Request) {
    && p.chunk > 0 && r.want > 0 && r.want == Clamp(p.size, r.offset, r.len) && r.offset + r.want <= p.size
    && r.first == r.offset / p.chunk && r.last == (r.offset + r.want - 1) / p.chunk
  }

  ghost predicate ReadOk(s: State, a: Activity)
    requires Shape(s)
  {
    match a
    case Ensuring(r, next) => InFile(s.p, r) && r.first <= next && ReadyRange(s, r.first, next)
    case Loader(i, _, _, forRead) =>
      forRead.Some? ==>
        var r := forRead.value;
        InFile(s.p, r) && r.first <= i && ReadyRange(s, r.first, i)
    case Copying(r, out) =>
      && InFile(s.p, r) && ReadyRange(s, r.first, r.last + 1)
      && |out| < r.want && out == s.plain[r.offset..r.offset + |out|]
    case Returned(r, out) => out == Asked(s.plain, r.offset, r.len)
    case Trying(_) => true
    case Failed => true
  }

  ghost predicate Inv(s: State) {
    Sealed(s) && Shape(s) && LoadersOk(s) && ReadyOk(s) && ReadsOk(s)
  }

  ghost predicate SameFile(s: State, s': State) {
    s'.c == s.c && s'.p == s.p && s'.plain == s.plain && |s'.states| == |s.states| && |s'.slots| == |s.slots|
  }

  /** No chunk and no loader changes. */
  ghost predicate Quiet(s: State, s': State) {
    && SameFile(s, s') && s'.states == s.states && s'.slots == s.slots
    && forall t {:trigger s'.threads[t]} ::
         t in s'.threads && s'.threads[t].Loader? ==> t in s.threads && s.threads[t] == s'.threads[t]
  }

  lemma QuietKeeps(s: State, s': State)
    requires Inv(s) && Quiet(s, s')
    ensures Shape(s') && LoadersOk(s') && ReadyOk(s')
  {
  }

  /** Thread t holds chunk i as its loader. */
  ghost predicate Holds(s: State, t: Thread, i: nat) {
    t in s.threads && s.threads[t].Loader? && s.threads[t].i == i
  }

  /** Only thread t and chunk i change: t may claim it, hold it or give it back. */
  ghost predicate OnlyChunk(s: State, s': State, t: Thread, i: nat) {
    && SameFile(s, s') && i < |s.states| && i < |s.slots|
    && (forall k {:trigger s'.states[k]} :: 0 <= k < |s.states| && k != i ==> s'.states[k] == s.states[k])
    && (forall k {:trigger s'.slots[k]} :: 0 <= k < |s.slots| && k != i ==> s'.slots[k] == s.slots[k])
    && (forall u {:trigger s'.threads[u]} {:trigger u in s'.threads} :: u != t && u in s'.threads ==>
          u in s.threads && s.threads[u] == s'.threads[u])
    && (Holds(s, t, i) || (s.states[i] == Missing && (t in s.threads ==> !s.threads[t].Loader?)))
    && if Holds(s', t, i) then
         && s'.states[i] == Loading
         && (s'.threads[t].counted ==> s'.threads[t].fetched)
         && (s'.threads[t].fetched ==> s'.slots[i] == Some(Slice(s.p, s.plain, i)))
       else
         && (t in s'.threads ==> !s'.threads[t].Loader?)
         && (s'.states[i] == Missing || (s'.states[i] == Ready && s'.slots[i] == Some(Slice(s.p, s.plain, i))))
  }

  lemma OnlyChunkKeeps(s: State, s': State, t: Thread, i: nat)
    requires Inv(s) && OnlyChunk(s, s', t, i)
    ensures Shape(s') && LoadersOk(s') && ReadyOk(s')
  {
    forall u | u in s'.threads && s'.threads[u].Loader? && u != t
      ensures s'.threads[u].i != i
    {
      assert s.threads[u] == s'.threads[u];
    }
  }

  lemma LoadersOkKept(s: State, step: Step)
    requires Inv(s) && Enabled(s, step)
    ensures Shape(Apply(s, step)) && LoadersOk(Apply(s, step)) && ReadyOk(Apply(s, step))
  {
    var s' := Apply(s, step);
    match step
    case TryClaim(t) => ClaimKept(s, t);
    case FetchOk(t, blob) => FetchKept(s, t, blob);
    case CountResident(t) => LoadKept(s, step, t);
    case FinishLoad(t) => LoadKept(s, step, t);
    case Claim(t) => OtherKept(s, step, t);
    case ReleaseClaim(t) => OtherKept(s, step, t);
    case FetchFails(t) => OtherKept(s, step, t);
    case _ => QuietStep(s, step); QuietKeeps(s, s');
  }

  lemma LoadKept(s: State, step: Step, t: Thread)
    requires Inv(s) && Enabled(s, step) && (step == CountResident(t) || step == FinishLoad(t))
    ensures Shape(Apply(s, step)) && LoadersOk(Apply(s, step)) && ReadyOk(Apply(s, step))
  {
    OnlyChunkKeeps(s, Apply(s, step), t, s.threads[t].i);
  }

  lemma OtherKept(s: State, step: Step, t: Thread)
    requires Inv(s) && Enabled(s, step) && (step == Claim(t) || step == ReleaseClaim(t) || step == FetchFails(t))
    ensures Shape(Apply(s, step)) && LoadersOk(Apply(s, step)) && ReadyOk(Apply(s, step))
  {
    OnlyChunkKeeps(s, Apply(s, step), t, if step.Claim? then s.threads[t].next else s.threads[t].i);
  }

  lemma FetchKept(s: State, t: Thread, blob: Bytes)
    requires Inv(s) && Enabled(s, FetchOk(t, blob))
    ensures var s' := Apply(s, FetchOk(t, blob)); Shape(s') && LoadersOk(s') && ReadyOk(s')
  {
    FetchedIsSlice(s.c, s.p, s.plain, s.threads[t].i, blob);
    OnlyChunkKeeps(s, Apply(s, FetchOk(t, blob)), t, s.threads[t].i);
  }

  lemma ClaimKept(s: State, t: Thread)
    requires Inv(s) && Enabled(s, TryClaim(t))
    ensures var s' := Apply(s, TryClaim(t)); Shape(s') && LoadersOk(s') && ReadyOk(s')
  {
    var s' := Apply(s, TryClaim(t));
    if s.states[s.threads[t].i] == Missing {
      OnlyChunkKeeps(s, s', t, s.threads[t].i);
    } else {
      QuietKeeps(s, s');
    }
  }

  lemma QuietStep(s: State, step: Step)
    requires Inv(s) && Enabled(s, step)
    requires IsQuiet(step)
    ensures Quiet(s, Apply(s, step))
  {
  }

  /** No step takes a chunk out of the ready state. */
  lemma ReadyKept(s: State, step: Step, i: nat)
    requires Inv(s) && Enabled(s, step) && i < |s.states| && s.states[i] == Ready
    ensures i < |Apply(s, step).states| && Apply(s, step).states[i] == Ready
  {
  }

  ghost predicate NoneUnready(s: State, s': State) {
    forall i {:trigger s'.states[i]} ::
      0 <= i < |s.states| && s.states[i] == Ready ==> i < |s'.states| && s'.states[i] == Ready
  }

  lemma ReadsOkKept(s: State, step: Step)
    requires Inv(s) && Enabled(s, step)
    ensures Shape(Apply(s, step)) && ReadsOk(Apply(s, step))
  {
    var s' := Apply(s, step);
    forall i: nat | i < |s.states| && s.states[i] == Ready
      ensures i < |s'.states| && s'.states[i] == Ready
    {
      ReadyKept(s, step, i);
    }
    assert NoneUnready(s, s');
    forall t | t in s'.threads
      ensures ReadOk(s', s'.threads[t])
    {
      if t in s.threads && s'.threads[t] == s.threads[t] {
        OtherReadOk(s, s', s.threads[t]);
      } else {
        ChangedReadOk(s, step, t);
      }
    }
  }

  lemma ChunkInRange(p: Params, pos: nat)
    requires p.chunk > 0 && pos < p.size
    ensures pos / p.chunk < p.Count()
  {
    ChunkCountCovers(p.size, p.chunk);
    var i := pos / p.chunk;
    assert i * p.chunk <= pos;
    if i >= p.Count() {
      AtMostTimes(p.Count(), i, p.chunk);
    }
  }

  /** A later byte is in the same or a later chunk. */
  lemma LaterChunk(chunk: nat, a: nat, b: nat)
    requires chunk > 0 && a <= b
    ensures a / chunk <= b / chunk
  {
    var i, j := a / chunk, b / chunk;
    assert a == i * chunk + a % chunk && b == j * chunk + b % chunk;
    if i > j {
      AtMostTimes(j + 1, i, chunk);
    }
  }

  /** The bounds of the chunk that holds pos. */
  lemma ChunkBounds(p: Params, pos: nat, n: nat)
    requires p.chunk > 0 && pos + n <= p.size && pos % p.chunk + n <= p.chunk
    ensures Upto(p, pos / p.chunk) == pos - pos % p.chunk
    ensures pos + n <= Upto(p, pos / p.chunk + 1) <= p.size
  {
    var i := pos / p.chunk;
    assert pos == i * p.chunk + pos % p.chunk;
    assert (i + 1) * p.chunk == i * p.chunk + p.chunk;
  }

  /** A piece that stays inside chunk i is that part of the chunk's slice. */
  lemma PieceOfSlice(p: Params, plain: Bytes, pos: nat, n: nat)
    requires p.chunk > 0 && |plain| == p.size
    requires pos + n <= p.size && pos % p.chunk + n <= p.chunk
    ensures var i, within := pos / p.chunk, pos % p.chunk;
            && within + n <= |Slice(p, plain, i)|
            && Slice(p, plain, i)[within..within + n] == plain[pos..pos + n]
  {
    ChunkBounds(p, pos, n);
    var a, b := Upto(p, pos / p.chunk), Upto(p, pos / p.chunk + 1);
    SubSlice(plain, a, b, pos, n);
    assert Slice(p, plain, pos / p.chunk) == plain[a..b];
    assert pos - a == pos % p.chunk;
  }

  lemma SubSlice(s: Bytes, a: nat, b: nat, pos: nat, n: nat)
    requires a <= pos && pos + n <= b <= |s|
    ensures s[a..b][pos - a..pos - a + n] == s[pos..pos + n]
  {
    var t, u := s[a..b], s[pos..pos + n];
    var v := t[pos - a..pos - a + n];
    forall k | 0 <= k < n
      ensures v[k] == u[k]
    {
      assert v[k] == t[pos - a + k] == s[pos + k];
    }
    assert v == u;
  }

  /** How much of chunk i the copy at pos takes. */
  function PieceSize(chunk: nat, pos: nat, left: nat): nat
    requires chunk > 0
  {
    if chunk - pos % chunk < left then chunk - pos % chunk else left
  }

  lemma NextPiece(p: Params, plain: Bytes, r: Request, out: Bytes)
    requires InFile(p, r) && |plain| == p.size
    requires |out| < r.want && out == plain[r.offset..r.offset + |out|]
    ensures var pos := r.offset + |out|;
            var i, within := pos / p.chunk, pos % p.chunk;
            var n := PieceSize(p.chunk, pos, r.want - |out|);
            var block := Slice(p, plain, i);
            && r.first <= i <= r.last
            && within + n <= |block| && 0 < n <= r.want - |out|
            && out + block[within..within + n] == plain[r.offset..r.offset + |out| + n]
  {
    var pos := r.offset + |out|;
    var n := PieceSize(p.chunk, pos, r.want - |out|);
    LaterChunk(p.chunk, r.offset, pos);
    LaterChunk(p.chunk, pos, r.offset + r.want - 1);
    PieceOfSlice(p, plain, pos, n);
    assert plain[r.offset..pos] + plain[pos..pos + n] == plain[r.offset..pos + n];
  }

  lemma ReadyAt(s: State, a: nat, b: nat, i: nat)
    requires Inv(s) && ReadyRange(s, a, b) && a <= i < b
    ensures i < |s.slots| && s.slots[i] == Some(Slice(s.p, s.plain, i))
  {
    assert s.states[i] == Ready;
  }

  /** The copy of one piece, on values: what a reader holds after it. */
  ghost function Copied(p: Params, slots: seq<Option<Bytes>>, r: Request, out: Bytes): Activity
    requires p.chunk > 0 && |out| < r.want
  {
    var pos := r.offset + |out|;
    FromSlot(slots, r, out, pos / p.chunk, pos % p.chunk, PieceSize(p.chunk, pos, r.want - |out|))
  }

  ghost function FromSlot(slots: seq<Option<Bytes>>, r: Request, out: Bytes, i: nat, within: nat, n: nat): Activity {
    if i >= |slots| || slots[i].None? then Failed else Longer(r, out, slots[i].value, within, n)
  }

  /** out with n more bytes of a block; a block shorter than it should be ends the read early. */
  ghost function Longer(r: Request, out: Bytes, block: Bytes, within: nat, n: nat): Activity {
    if within + n > |block| then Returned(r, out + if within <= |block| then block[within..] else [])
    else
      var longer := out + block[within..within + n];
      if |longer| == r.want then Returned(r, longer) else Copying(r, longer)
  }

  lemma LongerOk(s: State, r: Request, out: Bytes, block: Bytes, within: nat, n: nat)
    requires Shape(s) && ReadOk(s, Copying(r, out))
    requires within + n <= |block| && 0 < n <= r.want - |out|
    requires out + block[within..within + n] == s.plain[r.offset..r.offset + |out| + n]
    ensures ReadOk(s, Longer(r, out, block, within, n))
  {
    assert |out + block[within..within + n]| == |out| + n;
  }

  lemma PieceOk(s: State, r: Request, out: Bytes, i: nat, within: nat, n: nat)
    requires Inv(s) && ReadOk(s, Copying(r, out))
    requires i == (r.offset + |out|) / s.p.chunk && within == (r.offset + |out|) % s.p.chunk
    requires n == PieceSize(s.p.chunk, r.offset + |out|, r.want - |out|)
    ensures ReadOk(s, FromSlot(s.slots, r, out, i, within, n))
  {
    NextPiece(s.p, s.plain, r, out);
    ReadyAt(s, r.first, r.last + 1, i);
    LongerOk(s, r, out, Slice(s.p, s.plain, i), within, n);
  }

  lemma CopiedOk(s: State, r: Request, out: Bytes)
    requires Inv(s) && ReadOk(s, Copying(r, out))
    ensures ReadOk(s, Copied(s.p, s.slots, r, out))
  {
    var pos := r.offset + |out|;
    PieceOk(s, r, out, pos / s.p.chunk, pos % s.p.chunk, PieceSize(s.p.chunk, pos, r.want - |out|));
  }

  lemma CopyPieceOk(s: State, t: Thread)
    requires Inv(s) && Enabled(s, CopyPiece(t))
    ensures ReadOk(s, Apply(s, CopyPiece(t)).threads[t])
  {
    assert ReadOk(s, s.threads[t]);
    CopiedOk(s, s.threads[t].req, s.threads[t].out);
  }

  lemma CopyStarts(s: State, t: Thread)
    requires Inv(s) && Enabled(s, AllReady(t))
    ensures ReadOk(s, Apply(s, AllReady(t)).threads[t])
  {
    assert ReadOk(s, s.threads[t]);
  }

  lemma BeginOk(s: State, t: Thread, offset: nat, len: nat)
    requires Inv(s) && Enabled(s, Begin(t, offset, len))
    ensures ReadOk(s, Apply(s, Begin(t, offset, len)).threads[t])
  {
    if offset < s.p.size {
      ChunkInRange(s.p, offset);
    }
  }

  lemma ReadyExtends(s: State, s': State, a: nat, i: nat)
    requires ReadyRange(s, a, i) && SameFile(s, s') && NoneUnready(s, s')
    requires i < |s'.states| && s'.states[i] == Ready
    ensures ReadyRange(s', a, i + 1)
  {
  }

  lemma LoadedOk(s: State, t: Thread)
    requires Inv(s) && Enabled(s, FinishLoad(t)) && t in Apply(s, FinishLoad(t)).threads
    requires Shape(Apply(s, FinishLoad(t)))
    requires SameFile(s, Apply(s, FinishLoad(t))) && NoneUnready(s, Apply(s, FinishLoad(t)))
    ensures ReadOk(Apply(s, FinishLoad(t)), Apply(s, FinishLoad(t)).threads[t])
  {
    var s' := Apply(s, FinishLoad(t));
    var l := s.threads[t];
    assert ReadOk(s, l);
    assert l.forRead.Some?;
    if l.counted {
      ReadyExtends(s, s', l.forRead.value.first, l.i);
      assert s'.threads[t] == Ensuring(l.forRead.value, l.i + 1);
    } else {
      assert s'.threads[t] == Failed;
    }
  }

  lemma ChangedReadOk(s: State, step: Step, t: Thread)
    requires Inv(s) && Enabled(s, step) && t in Apply(s, step).threads
    requires t in s.threads ==> Apply(s, step).threads[t] != s.threads[t]
    requires Shape(Apply(s, step)) && SameFile(s, Apply(s, step)) && NoneUnready(s, Apply(s, step))
    ensures ReadOk(Apply(s, step), Apply(s, step).threads[t])
  {
    var s' := Apply(s, step);
    var a := s'.threads[t];
    if step.FinishLoad? {
      LoadedOk(s, t);
    } else {
      BeforeChange(s, step, t);
      OtherReadOk(s, s', a);
    }
  }

  /** Except at the end of a load, the changed thread's reads were already justified before the step. */
  lemma BeforeChange(s: State, step: Step, t: Thread)
    requires Inv(s) && Enabled(s, step) && t in Apply(s, step).threads && !step.FinishLoad?
    requires t in s.threads ==> Apply(s, step).threads[t] != s.threads[t]
    ensures ReadOk(s, Apply(s, step).threads[t])
  {
    match step
    case Begin(_, offset, len) => BeginOk(s, t, offset, len);
    case CopyPiece(_) => CopyPieceOk(s, t);
    case AllReady(_) => CopyStarts(s, t);
    case FindReady(_) => FoundReady(s, t);
    case _ => OthersOk(s, step, t);
  }

  lemma FoundReady(s: State, t: Thread)
    requires Inv(s) && Enabled(s, FindReady(t))
    ensures ReadOk(s, Apply(s, FindReady(t)).threads[t])
  {
    assert ReadOk(s, s.threads[t]);
  }

  lemma OthersOk(s: State, step: Step, t: Thread)
    requires Inv(s) && Enabled(s, step) && t in Apply(s, step).threads && !step.FinishLoad?
    requires !step.Begin? && !step.CopyPiece? && !step.AllReady? && !step.FindReady?
    requires t in s.threads ==> Apply(s, step).threads[t] != s.threads[t]
    ensures ReadOk(s, Apply(s, step).threads[t])
  {
    assert t in s.threads ==> ReadOk(s, s.threads[t]);
  }

  lemma OtherReadOk(s: State, s': State, a: Activity)
    requires Shape(s) && Shape(s') && SameFile(s, s') && NoneUnready(s, s') && ReadOk(s, a)
    ensures ReadOk(s', a)
  {
    match a
    case Ensuring(r, next) => RangeKept(s, s', r.first, next);
    case Loader(i, _, _, forRead) =>
      if forRead.Some? {
        RangeKept(s, s', forRead.value.first, i);
      }
    case Copying(r, _) => RangeKept(s, s', r.first, r.last + 1);
    case _ =>
  }

  lemma RangeKept(s: State, s': State, a: nat, b: nat)
    requires SameFile(s, s') && NoneUnready(s, s') && ReadyRange(s, a, b)
    ensures ReadyRange(s', a, b)
  {
  }

  lemma InvKept(s: State, step: Step)
    requires Inv(s) && Enabled(s, step)
    ensures Inv(Apply(s, step))
  {
    LoadersOkKept(s, step);
    ReadsOkKept(s, step);
    FileKept(s, step);
  }

  lemma {:induction false} InvHolds(states: seq<State>, steps: seq<Step>, i: nat)
    requires IsRun(states, steps) && i < |states|
    ensures Inv(states[i])
  {
    if i == 0 {
    } else {
      InvHolds(states, steps, i - 1);
      InvKept(states[i - 1], steps[i - 1]);
    }
  }

  // ---------- What is kept in memory ----------

  /** Chunks whose bytes have been counted: the ready ones, and those whose loader has counted them. */
  ghost function Counted(s: State): set<nat> {
    (set i: nat | i < |s.states| && s.states[i] == Ready) +
    (set t | t in s.threads && s.threads[t].Loader? && s.threads[t].counted :: s.threads[t].i)
  }

  ghost function TakeSum(p: Params, chunks: set<nat>, n: nat): nat {
    if n == 0 then 0 else TakeSum(p, chunks, n - 1) + if n - 1 in chunks then p.Take(n - 1) else 0
  }

  lemma {:induction false} TakeSumAdds(p: Params, chunks: set<nat>, i: nat, n: nat)
    requires i !in chunks
    ensures TakeSum(p, chunks + {i}, n) == TakeSum(p, chunks, n) + if i < n then p.Take(i) else 0
  {
    if n == 0 {
    } else {
      TakeSumAdds(p, chunks, i, n - 1);
    }
  }

  ghost predicate ResidentOk(s: State) {
    s.resident == TakeSum(s.p, Counted(s), |s.states|)
  }

  lemma ResidentOkKept(s: State, step: Step)
    requires Inv(s) && ResidentOk(s) && Enabled(s, step)
    ensures ResidentOk(Apply(s, step))
  {
    var s' := Apply(s, step);
    if step.CountResident? {
      var i := s.threads[step.t].i;
      CountedGrows(s, step);
      TakeSumAdds(s.p, Counted(s), i, |s.states|);
    } else {
      CountedSame(s, step);
    }
  }

  lemma CountedGrows(s: State, step: Step)
    requires Inv(s) && Enabled(s, step) && step.CountResident?
    ensures var i := s.threads[step.t].i;
            i < |s.states| && i !in Counted(s) && Counted(Apply(s, step)) == Counted(s) + {i}
  {
    var s' := Apply(s, step);
    var i := s.threads[step.t].i;
    forall j | j in Counted(s) + {i}
      ensures j in Counted(s')
    {
      if j == i {
        assert s'.threads[step.t].i == i;
      } else if !(j < |s.states| && s.states[j] == Ready) {
        var t :| t in s.threads && s.threads[t].Loader? && s.threads[t].counted && s.threads[t].i == j;
        assert s'.threads[t] == s.threads[t];
      }
    }
  }

  lemma CountedSame(s: State, step: Step)
    requires Inv(s) && Enabled(s, step) && !step.CountResident?
    ensures Counted(Apply(s, step)) == Counted(s) && |Apply(s, step).states| == |s.states|
    ensures Apply(s, step).p == s.p && Apply(s, step).resident == s.resident
  {
    CountedStays(s, step);
    NothingElseCounted(s, step);
  }

  lemma CountedStays(s: State, step: Step)
    requires Inv(s) && Enabled(s, step) && !step.CountResident?
    ensures Counted(s) <= Counted(Apply(s, step))
  {
    var s' := Apply(s, step);
    forall j | j in Counted(s)
      ensures j in Counted(s')
    {
      if j < |s.states| && s.states[j] == Ready {
        ReadyKept(s, step, j);
      } else {
        var t :| t in s.threads && s.threads[t].Loader? && s.threads[t].counted && s.threads[t].i == j;
        assert step != FinishLoad(t) ==> t in s'.threads && s'.threads[t].Loader? && s'.threads[t].counted && s'.threads[t].i == j;
      }
    }
  }

  predicate IsQuiet(step: Step) {
    step.Begin? || step.FindReady? || step.Decline? || step.MarkTried? || step.AllReady? || step.CopyPiece?
  }

  lemma QuietCounts(s: State, s': State)
    requires Quiet(s, s')
    ensures Counted(s') <= Counted(s)
  {
    forall j | j in Counted(s')
      ensures j in Counted(s)
    {
      if !(j < |s'.states| && s'.states[j] == Ready) {
        var t :| t in s'.threads && s'.threads[t].Loader? && s'.threads[t].counted && s'.threads[t].i == j;
        assert t in s.threads && s.threads[t] == s'.threads[t];
      }
    }
  }

  lemma NothingElseCounted(s: State, step: Step)
    requires Inv(s) && Enabled(s, step) && !step.CountResident?
    ensures Counted(Apply(s, step)) <= Counted(s)
  {
    if IsQuiet(step) {
      QuietStep(s, step);
      QuietCounts(s, Apply(s, step));
    } else {
      LoadingCounts(s, step);
    }
  }

  lemma LoadingCounts(s: State, step: Step)
    requires Inv(s) && Enabled(s, step) && !step.CountResident? && !IsQuiet(step)
    ensures Counted(Apply(s, step)) <= Counted(s)
  {
    var s' := Apply(s, step);
    forall j | j in Counted(s')
      ensures j in Counted(s)
    {
      if j < |s'.states| && s'.states[j] == Ready {
        assert step.FinishLoad? && !(s.states[j] == Ready) ==> s.threads[step.t].i == j && s.threads[step.t].counted;
      } else {
        var t :| t in s'.threads && s'.threads[t].Loader? && s'.threads[t].counted && s'.threads[t].i == j;
        assert t in s.threads && s.threads[t].Loader? && s.threads[t].counted && s.threads[t].i == j;
      }
    }
  }

  lemma {:induction false} ResidentHolds(states: seq<State>, steps: seq<Step>, i: nat)
    requires IsRun(states, steps) && i < |states|
    ensures ResidentOk(states[i])
  {
    if i > 0 {
      ResidentHolds(states, steps, i - 1);
      InvHolds(states, steps, i - 1);
      ResidentOkKept(states[i - 1], steps[i - 1]);
    } else {
      assert Counted(states[0]) == {};
      TakeSumNothing(states[0].p, |states[0].states|);
    }
  }

  lemma {:induction false} TakeSumNothing(p: Params, n: nat)
    ensures TakeSum(p, {}, n) == 0
  {
    if n == 0 {
    } else {
      TakeSumNothing(p, n - 1);
    }
  }

  // ---------- What holds in every run ----------

  /** At any time a chunk is being loaded by at most one thread. */
  lemma OneLoaderPerChunk(states: seq<State>, steps: seq<Step>, i: nat, t: Thread, u: Thread)
    requires IsRun(states, steps) && i < |states|
    requires t in states[i].threads && u in states[i].threads
    requires states[i].threads[t].Loader? && states[i].threads[u].Loader? && states[i].threads[t].i == states[i].threads[u].i
    ensures t == u
  {
    InvHolds(states, steps, i);
  }

  lemma {:induction false} ReadyStays(states: seq<State>, steps: seq<Step>, i: nat, j: nat, k: nat)
    requires IsRun(states, steps) && i <= j < |states|
    requires k < |states[i].states| && states[i].states[k] == Ready
    ensures SameFile(states[i], states[j]) && states[j].states[k] == Ready
    decreases j
  {
    if i == j {
    } else {
      ReadyStays(states, steps, i, j - 1, k);
      InvHolds(states, steps, j - 1);
      ReadyKept(states[j - 1], steps[j - 1], k);
      FileKept(states[j - 1], steps[j - 1]);
    }
  }

  lemma FileKept(s: State, step: Step)
    requires Inv(s) && Enabled(s, step)
    ensures SameFile(s, Apply(s, step))
  {
  }

  lemma ReadyHolds(s: State, k: nat)
    requires Inv(s) && k < |s.states| && s.states[k] == Ready
    ensures k < |s.slots| && s.slots[k] == Some(Slice(s.p, s.plain, k))
  {
  }

  /** A chunk that is ready stays ready, with the same content: its part of the file. */
  lemma ReadyNeverChanges(states: seq<State>, steps: seq<Step>, i: nat, j: nat, k: nat)
    requires IsRun(states, steps) && i <= j < |states|
    requires k < |states[i].states| && states[i].states[k] == Ready
    ensures k < |states[j].states| && states[j].states[k] == Ready
    ensures k < |states[i].slots| && k < |states[j].slots| && states[j].slots[k] == states[i].slots[k]
    ensures states[i].slots[k] == Some(Slice(states[i].p, states[i].plain, k))
  {
    ReadyStays(states, steps, i, j, k);
    InvHolds(states, steps, i);
    InvHolds(states, steps, j);
    ReadyHolds(states[i], k);
    ReadyHolds(states[j], k);
  }

  /** When no loader has counted a chunk it has not finished, the counter is the total size of the ready chunks. */
  lemma ResidentAtRest(states: seq<State>, steps: seq<Step>, i: nat)
    requires IsRun(states, steps) && i < |states|
    requires forall t :: t in states[i].threads && states[i].threads[t].Loader? ==> !states[i].threads[t].counted
    ensures var s := states[i];
            s.resident == TakeSum(s.p, set k: nat | k < |s.states| && s.states[k] == Ready, |s.states|)
  {
    var s := states[i];
    ResidentHolds(states, steps, i);
    assert Counted(s) == set k: nat | k < |s.states| && s.states[k] == Ready;
  }

  /** A read that returns gives exactly the part of the file that was asked for, as far as the file reaches. */
  lemma ReadReturnsSlice(states: seq<State>, steps: seq<Step>, i: nat, t: Thread)
    requires IsRun(states, steps) && i < |states|
    requires t in states[i].threads && states[i].threads[t].Returned?
    ensures states[i].threads[t].out == Asked(states[i].plain, states[i].threads[t].req.offset, states[i].threads[t].req.len)
  {
    InvHolds(states, steps, i);
    assert ReadOk(states[i], states[i].threads[t]);
  }
}
