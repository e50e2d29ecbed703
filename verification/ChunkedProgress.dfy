/** Random access to a chunked file: what an honest server sends does load, and a read can always go on to its end. */
module ChunkedProgress {
  import opened ChunkFormat
  import opened ChunkTheorems
  import opened ChunkedSource
  import opened Octets
  import opened Wrappers

  // ---------- The sealed file loads ----------

  ghost predicate SealingsOpen(c: Cipher, p: Params, plain: Bytes)
    requires p.chunk > 0 && |plain| == p.size
  {
    TagsAreKept(c) && forall s :: s in Sealings(p, plain) ==> Opens(c, s)
  }

  /** From the file as it was sealed every chunk loads, and gives the file's bytes from i * chunk on. */
  lemma HonestFetch(c: Cipher, p: Params, plain: Bytes, i: nat)
    requires p.Ok() && |plain| == p.size && SealingsOpen(c, p, plain)
    requires p.Count() <= 0x1_0000_0000 && i < p.Count()
    ensures var a, b := i * p.chunk, if i * p.chunk + p.chunk < |plain| then i * p.chunk + p.chunk else |plain|;
            a <= b <= |plain| && Fetched(c, p, i, SealedFile(c, p, plain)) == Some(plain[a..b])
  {
    SealedChunksSize(c, p, plain, p.Count());
    HonestChunk(c, p, plain, i);
    PartOfFile(p, plain, i);
  }

  lemma HonestChunk(c: Cipher, p: Params, plain: Bytes, i: nat)
    requires p.chunk > 0 && |plain| == p.size && SealingsOpen(c, p, plain) && i < p.Count()
    requires |SealedFile(c, p, plain)| == SealedLen(p.size, p.chunk)
    ensures p.Take(i) <= |PlainChunk(p, plain, i)|
    ensures OpenAt(c, p, i, SealedFile(c, p, plain)) == Some(PlainChunk(p, plain, i)[..p.Take(i)])
  {
    ChunkOfSealed(c, p, plain, i, p.Count());
    OpenSealedChunk(c, p, plain, i);
  }

  lemma PartOfFile(p: Params, plain: Bytes, i: nat)
    requires p.chunk > 0 && |plain| == p.size && i < p.Count() && p.Take(i) <= |PlainChunk(p, plain, i)|
    ensures var a, b := i * p.chunk, if i * p.chunk + p.chunk < |plain| then i * p.chunk + p.chunk else |plain|;
            a <= b <= |plain| && PlainChunk(p, plain, i)[..p.Take(i)] == plain[a..b]
  {
    StartsInFile(p, i);
    TakesAddUp(p, plain, i);
    assert (i + 1) * p.chunk == i * p.chunk + p.chunk;
  }

  // ---------- Continuing a run ----------

  ghost predicate Path(s: State, steps: seq<Step>, t: State)
    decreases |steps|
  {
    if steps == [] then s == t else Shape(s) && Enabled(s, steps[0]) && Path(Apply(s, steps[0]), steps[1..], t)
  }

  /** Some steps lead from s to t. */
  ghost predicate Leads(s: State, t: State) {
    exists steps :: Path(s, steps, t)
  }

  lemma Stays(s: State)
    ensures Leads(s, s)
  {
    assert Path(s, [], s);
  }

  lemma Goes(s: State, step: Step)
    requires Shape(s) && Enabled(s, step)
    ensures Leads(s, Apply(s, step))
  {
    assert [step][1..] == [];
    assert Path(Apply(s, step), [], Apply(s, step));
    assert Path(s, [step], Apply(s, step));
  }

  lemma {:induction false} PathOn(s: State, p: seq<Step>, t: State, q: seq<Step>, u: State)
    requires Path(s, p, t) && Path(t, q, u)
    ensures Path(s, p + q, u)
    decreases |p|
  {
    if p == [] {
      assert p + q == q;
    } else {
      PathOn(Apply(s, p[0]), p[1..], t, q, u);
      assert (p + q)[1..] == p[1..] + q;
    }
  }

  lemma LeadsOn(s: State, t: State, u: State)
    requires Leads(s, t) && Leads(t, u)
    ensures Leads(s, u)
  {
    var p :| Path(s, p, t);
    var q :| Path(t, q, u);
    PathOn(s, p, t, q, u);
  }

  // ---------- Every chunk being loaded has its loader ----------

  ghost predicate Owned(s: State, i: nat) {
    i < |s.states| && s.states[i] == Loading ==> exists t :: Holds(s, t, i)
  }

  lemma OwnedKept(s: State, step: Step, i: nat)
    requires Inv(s) && Owned(s, i) && Enabled(s, step)
    ensures Owned(Apply(s, step), i)
  {
    var s' := Apply(s, step);
    if i < |s'.states| && s'.states[i] == Loading {
      if s.states[i] == Loading {
        var t :| Holds(s, t, i);
        HolderKept(s, step, t, i);
      } else {
        NewHolder(s, step, i);
      }
    }
  }

  lemma HolderKept(s: State, step: Step, t: Thread, i: nat)
    requires Inv(s) && Enabled(s, step) && Holds(s, t, i) && i < |Apply(s, step).states|
    ensures Holds(Apply(s, step), t, i) || Apply(s, step).states[i] != Loading
  {
  }

  lemma NewHolder(s: State, step: Step, i: nat)
    requires Inv(s) && Enabled(s, step) && i < |s.states| && s.states[i] != Loading
    requires i < |Apply(s, step).states| && Apply(s, step).states[i] == Loading
    ensures exists t :: Holds(Apply(s, step), t, i)
  {
    assert step.Claim? || step.TryClaim?;
    assert Holds(Apply(s, step), step.t, i);
  }

  ghost predicate Sane(s: State) {
    Inv(s) && forall i {:trigger s.states[i]} :: 0 <= i < |s.states| ==> Owned(s, i)
  }

  lemma SaneKept(s: State, step: Step)
    requires Sane(s) && Enabled(s, step)
    ensures Sane(Apply(s, step))
  {
    InvKept(s, step);
    forall i | 0 <= i < |Apply(s, step).states|
      ensures Owned(Apply(s, step), i)
    {
      assert Owned(s, i);
      OwnedKept(s, step, i);
    }
  }

  lemma {:induction false} SaneHolds(states: seq<State>, steps: seq<Step>, i: nat)
    requires IsRun(states, steps) && i < |states|
    ensures Sane(states[i])
  {
    if i == 0 {
      InvHolds(states, steps, 0);
      forall k | 0 <= k < |states[0].states|
        ensures Owned(states[0], k)
      {
        assert states[0].states[k] == Missing;
      }
    } else {
      SaneHolds(states, steps, i - 1);
      SaneKept(states[i - 1], steps[i - 1]);
    }
  }

  // ---------- A load can be finished ----------

  /** s leads to u, which is sane; threads other than t are where they were. */
  ghost predicate Advances(s: State, u: State, t: Thread) {
    && Leads(s, u) && Sane(u) && SameFile(s, u)
    && forall v {:trigger u.threads[v]} {:trigger v in u.threads} :: v != t && v in s.threads ==>
         v in u.threads && u.threads[v] == s.threads[v]
  }

  lemma AdvancesOn(s: State, t: State, u: State, v: Thread)
    requires Advances(s, t, v) && Advances(t, u, v)
    ensures Advances(s, u, v)
  {
    LeadsOn(s, t, u);
  }

  lemma AdvancesBy(s: State, step: Step, v: Thread)
    requires Sane(s) && Enabled(s, step) && !step.Begin? && !step.MarkTried? && step.t == v
    ensures Advances(s, Apply(s, step), v)
  {
    Goes(s, step);
    SaneKept(s, step);
    FileKept(s, step);
  }

  lemma Fetching(s: State, v: Thread, i: nat) returns (u: State)
    requires Sane(s) && Holds(s, v, i)
    ensures Advances(s, u, v) && Holds(u, v, i) && u.threads[v] == s.threads[v].(fetched := true)
  {
    u := s;
    if s.threads[v].fetched {
      Stays(s);
    } else {
      var blob := SealedFile(s.c, s.p, s.plain);
      HonestFetch(s.c, s.p, s.plain, i);
      AdvancesBy(s, FetchOk(v, blob), v);
      u := Apply(s, FetchOk(v, blob));
    }
  }

  lemma Counting(s: State, v: Thread, i: nat) returns (u: State)
    requires Sane(s) && Holds(s, v, i) && s.threads[v].fetched
    ensures Advances(s, u, v) && Holds(u, v, i) && u.threads[v] == s.threads[v].(counted := true)
  {
    u := s;
    if s.threads[v].counted {
      Stays(s);
    } else {
      AdvancesBy(s, CountResident(v), v);
      u := Apply(s, CountResident(v));
    }
  }

  lemma Finishing(s: State, v: Thread, i: nat) returns (u: State)
    requires Sane(s) && Holds(s, v, i) && s.threads[v].counted
    ensures Advances(s, u, v) && i < |u.states| && u.states[i] == Ready
    ensures s.threads[v].forRead.Some? ==>
              v in u.threads && u.threads[v] == Ensuring(s.threads[v].forRead.value, i + 1)
  {
    AdvancesBy(s, FinishLoad(v), v);
    u := Apply(s, FinishLoad(v));
  }

  /** Whoever holds a chunk can load it. */
  lemma LoadDone(s: State, v: Thread, i: nat) returns (u: State)
    requires Sane(s) && Holds(s, v, i)
    ensures Advances(s, u, v) && i < |u.states| && u.states[i] == Ready
    ensures s.threads[v].forRead.Some? ==>
              v in u.threads && u.threads[v] == Ensuring(s.threads[v].forRead.value, i + 1)
  {
    var a := Fetching(s, v, i);
    var b := Counting(a, v, i);
    AdvancesOn(s, a, b, v);
    u := Finishing(b, v, i);
    AdvancesOn(s, b, u, v);
  }

  // ---------- A read can go on to its end ----------

  /** The read is done: it has the bytes it asked for. */
  ghost predicate Done(s: State, t: Thread, r: Request) {
    t in s.threads && s.threads[t] == Returned(r, Asked(s.plain, r.offset, r.len))
  }

  lemma CopyOne(s: State, t: Thread) returns (u: State)
    requires Sane(s) && t in s.threads && s.threads[t].Copying?
    ensures Leads(s, u) && Sane(u) && t in u.threads && u.plain == s.plain
    ensures var r := s.threads[t].req;
            Done(u, t, r) || (u.threads[t].Copying? && u.threads[t].req == r && |u.threads[t].out| > |s.threads[t].out|)
  {
    var r, out := s.threads[t].req, s.threads[t].out;
    assert ReadOk(s, s.threads[t]);
    NextPiece(s.p, s.plain, r, out);
    ReadyAt(s, r.first, r.last + 1, (r.offset + |out|) / s.p.chunk);
    CopyPieceOk(s, t);
    AdvancesBy(s, CopyPiece(t), t);
    u := Apply(s, CopyPiece(t));
  }

  lemma {:induction false} CopyAll(s: State, t: Thread) returns (u: State)
    requires Sane(s) && t in s.threads && s.threads[t].Copying?
    ensures Leads(s, u) && Sane(u) && Done(u, t, s.threads[t].req) && u.plain == s.plain
    decreases s.threads[t].req.want - |s.threads[t].out|
  {
    assert ReadOk(s, s.threads[t]);
    var v := CopyOne(s, t);
    if Done(v, t, s.threads[t].req) {
      u := v;
    } else {
      assert ReadOk(v, v.threads[t]);
      u := CopyAll(v, t);
      LeadsOn(s, v, u);
    }
  }

  lemma LastInRange(s: State, r: Request)
    requires Inv(s) && InFile(s.p, r)
    ensures r.last < |s.states|
  {
    ChunkInRange(s.p, r.offset + r.want - 1);
  }

  /** The next chunk a read needs can be made ready. */
  lemma NextReady(s: State, t: Thread) returns (u: State)
    requires Sane(s) && t in s.threads && s.threads[t].Ensuring? && s.threads[t].next <= s.threads[t].req.last
    ensures Leads(s, u) && Sane(u) && u.plain == s.plain
    ensures t in u.threads && u.threads[t] == Ensuring(s.threads[t].req, s.threads[t].next + 1)
  {
    var r, i := s.threads[t].req, s.threads[t].next;
    assert ReadOk(s, s.threads[t]);
    LastInRange(s, r);
    if s.states[i] == Missing {
      u := ClaimAndLoad(s, t);
    } else {
      var v := s;
      Stays(s);
      if s.states[i] == Loading {
        assert Owned(s, i);
        var w :| Holds(s, w, i);
        v := LoadDone(s, w, i);
      }
      AdvancesBy(v, FindReady(t), t);
      u := Apply(v, FindReady(t));
      LeadsOn(s, v, u);
    }
  }

  lemma ClaimAndLoad(s: State, t: Thread) returns (u: State)
    requires Sane(s) && Enabled(s, Claim(t))
    ensures Leads(s, u) && Sane(u) && u.plain == s.plain
    ensures t in u.threads && u.threads[t] == Ensuring(s.threads[t].req, s.threads[t].next + 1)
  {
    AdvancesBy(s, Claim(t), t);
    var v := Apply(s, Claim(t));
    u := LoadDone(v, t, s.threads[t].next);
    LeadsOn(s, v, u);
  }

  lemma {:induction false} EnsureAll(s: State, t: Thread) returns (u: State)
    requires Sane(s) && t in s.threads && s.threads[t].Ensuring?
    ensures Leads(s, u) && Sane(u) && Done(u, t, s.threads[t].req) && u.plain == s.plain
    decreases s.threads[t].req.last + 1 - s.threads[t].next
  {
    var r := s.threads[t].req;
    assert ReadOk(s, s.threads[t]);
    if s.threads[t].next > r.last {
      AdvancesBy(s, AllReady(t), t);
      var v := Apply(s, AllReady(t));
      u := CopyAll(v, t);
      LeadsOn(s, v, u);
    } else {
      var v := NextReady(s, t);
      u := EnsureAll(v, t);
      LeadsOn(s, v, u);
    }
  }

  /** What a thread that is reading is to read. */
  ghost function RequestOf(a: Activity): Option<Request> {
    match a
    case Ensuring(r, _) => Some(r)
    case Loader(_, _, _, forRead) => forRead
    case Copying(r, _) => Some(r)
    case _ => None
  }

  /** From every state of every run a read that has begun can go on until it returns the bytes it asked for: whatever the
      other threads are in the middle of, an honest server's answers are all it takes. */
  lemma ReadCanReturn(states: seq<State>, steps: seq<Step>, i: nat, t: Thread) returns (u: State)
    requires IsRun(states, steps) && i < |states| && t in states[i].threads && RequestOf(states[i].threads[t]).Some?
    ensures Leads(states[i], u) && Done(u, t, RequestOf(states[i].threads[t]).value) && u.plain == states[i].plain
  {
    var s := states[i];
    SaneHolds(states, steps, i);
    match s.threads[t]
    case Ensuring(_, _) => u := EnsureAll(s, t);
    case Copying(_, _) => u := CopyAll(s, t);
    case Loader(j, _, _, _) =>
      var v := LoadDone(s, t, j);
      u := EnsureAll(v, t);
      LeadsOn(s, v, u);
  }

  // ---------- A read is for what its caller asked ----------

  /** The thread is reading, or has read, len bytes at offset; or it has given up. */
  ghost predicate ReadsFor(s: State, t: Thread, offset: nat, len: nat) {
    t in s.threads &&
    match s.threads[t]
    case Ensuring(r, _) => r.offset == offset && r.len == len
    case Loader(_, _, _, forRead) => forRead.Some? && forRead.value.offset == offset && forRead.value.len == len
    case Copying(r, _) => r.offset == offset && r.len == len
    case Returned(r, _) => r.offset == offset && r.len == len
    case Failed => true
    case Trying(_) => false
  }

  lemma ReadsForKept(s: State, step: Step, t: Thread, offset: nat, len: nat)
    requires Inv(s) && Enabled(s, step) && ReadsFor(s, t, offset, len)
    ensures ReadsFor(Apply(s, step), t, offset, len)
  {
  }

  lemma {:induction false} ReadsForHolds(states: seq<State>, steps: seq<Step>, i: nat, j: nat, t: Thread, offset: nat, len: nat)
    requires IsRun(states, steps) && i < j < |states| && steps[i] == Begin(t, offset, len)
    ensures ReadsFor(states[j], t, offset, len) && states[j].plain == states[0].plain
    decreases j
  {
    InvHolds(states, steps, j - 1);
    assert Enabled(states[j - 1], steps[j - 1]) && states[j] == Apply(states[j - 1], steps[j - 1]);
    PlainKept(states, steps, j);
    if j == i + 1 {
    } else {
      ReadsForHolds(states, steps, i, j - 1, t, offset, len);
      ReadsForKept(states[j - 1], steps[j - 1], t, offset, len);
    }
  }

  lemma {:induction false} PlainKept(states: seq<State>, steps: seq<Step>, j: nat)
    requires IsRun(states, steps) && j < |states|
    ensures states[j].plain == states[0].plain
  {
    if j > 0 {
      PlainKept(states, steps, j - 1);
      InvHolds(states, steps, j - 1);
      FileKept(states[j - 1], steps[j - 1]);
    }
  }

  /** In every run a read begun for len bytes at offset returns, if it returns, the file's bytes from offset up to
      offset + len or to the file's end, whichever comes first. */
  lemma ReadGivesFile(states: seq<State>, steps: seq<Step>, i: nat, j: nat, t: Thread, offset: nat, len: nat)
    requires IsRun(states, steps) && i < j < |states| && steps[i] == Begin(t, offset, len)
    requires t in states[j].threads && states[j].threads[t].Returned?
    ensures var file := states[0].plain;
            states[j].threads[t].out ==
              if offset >= |file| then [] else if offset + len < |file| then file[offset..offset + len] else file[offset..]
  {
    ReadsForHolds(states, steps, i, j, t, offset, len);
    ReadReturnsSlice(states, steps, j, t);
  }
}
