/** Many buffers at work on one memory budget, block by block. */
module ScratchRuns {
  import opened Octets
  import opened Scratch
  import opened ScratchStore
  import opened Wrappers

  /** What other threads may do between the blocks of one buffer's write: anything to other buffers. */
  datatype Op =
    | Open
    | Begin(b: nat, offset: U64, data: Bytes)  // a write takes the buffer's lock
    | Chunk(b: nat)                            // and writes one block
    | End(b: nat)                              // and what is left
    | Cut(b: nat, len: U64)
    | Drop(b: nat)

  datatype Write = Write(offset: U64, data: Bytes)

  /** A plain byte array, perhaps with a write under way that nobody sees yet. */
  datatype Plain = Plain(content: Bytes, writing: Option<Write>, open: bool)

  /** What the plain byte arrays become. A buffer that is written to is locked, and one that is dropped stays so. */
  ghost function After(ps: seq<Plain>, op: Op): seq<Plain> {
    if op.Open? then ps + [Plain([], None, true)]
    else if op.b >= |ps| || !ps[op.b].open then ps
    else ps[op.b := AfterOne(ps[op.b], op)]
  }

  ghost function AfterOne(p: Plain, op: Op): Plain {
    match op
    case Begin(_, offset, data) =>
      if p.writing.Some? || data == [] || offset + |data| > U64_MAX then p else p.(writing := Some(Write(offset, data)))
    case End(_) =>
      if p.writing.None? then p
      else Plain(Written(p.content, p.writing.value.offset, p.writing.value.data), None, p.open)
    case Cut(_, n) => if p.writing.Some? then p else p.(content := Resized(p.content, n))
    case Drop(_) => if p.writing.Some? then p else p.(open := false)
    case _ => p
  }

  ghost function Replayed(ops: seq<Op>): seq<Plain> {
    if ops == [] then [] else After(Replayed(ops[..|ops| - 1]), ops[|ops| - 1])
  }

  class Machine {
    const pool: ScratchPool
    var buffers: seq<Scratch>
    var writing: seq<Option<Write>>
    var open: seq<bool>
    var done: seq<nat>
    ghost var starts: seq<Store>
    ghost var plains: seq<Plain>

    ghost predicate Shape()
      reads this
    {
      && |writing| == |open| == |done| == |starts| == |plains| == |buffers|
      && (forall i, j :: 0 <= i < j < |buffers| ==> buffers[i] != buffers[j] && buffers[i].ticket != buffers[j].ticket)
      && (forall i :: 0 <= i < |buffers| ==>
            buffers[i].pool == pool && buffers[i].ticket > 0 && plains[i].writing == writing[i] && plains[i].open == open[i])
    }

    /** Buffer i holds what its plain byte array does; during a write, what it held before with the first bytes written. */
    ghost predicate Holds(i: nat)
      reads this, pool, buffers
      requires Shape() && i < |buffers|
    {
      var s := buffers[i];
      open[i] ==>
        match writing[i]
        case None => s.Valid() && s.Contents() == plains[i].content
        case Some(w) =>
          && s.Sound() && done[i] <= |w.data| && w.data != [] && w.offset + |w.data| <= U64_MAX
          && ZeroFrom(starts[i], s.len) && ContentsOf(starts[i], s.len) == plains[i].content
          && IsWritten(starts[i], s.View(), w.offset, w.data[..done[i]])
    }

    ghost predicate Valid()
      reads this, pool, buffers
    {
      && Shape() && pool.Valid()
      && (forall i :: 0 <= i < |buffers| ==> buffers[i].ticket < |pool.shares|)
      && (forall i :: 0 <= i < |buffers| ==> Holds(i))
    }

    constructor (maxBytes: nat)
      ensures Valid() && plains == [] && fresh(pool) && buffers == [] && pool.maxBytes == maxBytes
    {
      pool := new ScratchPool(maxBytes);
      buffers, writing, open, done, starts, plains := [], [], [], [], [], [];
    }

    /** Only buffer b's share may have changed. */
    twostate predicate OthersLeft(b: nat)
      reads this, pool, buffers
    {
      && |old(pool.shares)| <= |pool.shares| && pool.Valid()
      && (forall t :: 0 < t < |old(pool.shares)| && (b < |buffers| ==> t != buffers[b].ticket) ==>
            pool.shares[t] == old(pool.shares)[t])
    }

    method DoOpen()
      requires Valid()
      modifies this, pool
      ensures Valid() && plains == After(old(plains), Open)
      ensures forall s :: s in buffers ==> s in old(buffers) || fresh(s)
    {
      var s := AddOne();
      OlderHold(s);
    }

    method AddOne() returns (s: Scratch)
      requires Shape() && pool.Valid() && forall i :: 0 <= i < |buffers| ==> buffers[i].ticket < |pool.shares|
      modifies this, pool
      ensures buffers == old(buffers) + [s] && Shape() && Holds(|old(buffers)|)
      ensures fresh(s) && s.ticket == |old(pool.shares)|
      ensures pool.Valid() && pool.shares == old(pool.shares) + [0]
      ensures writing == old(writing) + [None] && open == old(open) + [true]
      ensures done == old(done) + [0] && starts[..|buffers| - 1] == old(starts)
      ensures plains == old(plains) + [Plain([], None, true)]
    {
      s := new Scratch(pool);
      buffers, writing, open, done := buffers + [s], writing + [None], open + [true], done + [0];
      starts, plains := starts + [s.View()], plains + [Plain([], None, true)];
    }

    /** All buffers still hold when a new one has joined them. */
    twostate lemma OlderHold(new s: Scratch)
      requires old(Valid()) && Shape() && pool.Valid() && pool.shares == old(pool.shares) + [0]
      requires buffers == old(buffers) + [s] && writing == old(writing) + [None] && open == old(open) + [true]
      requires done == old(done) + [0] && starts[..|buffers| - 1] == old(starts) && plains[..|buffers| - 1] == old(plains)
      requires forall i :: 0 <= i < |buffers| - 1 ==> unchanged(buffers[i])
      ensures forall i :: 0 <= i < |buffers| - 1 ==> Holds(i) && buffers[i].ticket < |pool.shares|
    {
      var n := |old(buffers)|;
      forall i | 0 <= i < n
        ensures Holds(i)
      {
        assert old(Holds(i));
      }
    }

    /** Buffer b may be worked on: it is there, and not dropped. */
    predicate Usable(b: nat)
      reads this
      requires Shape()
    {
      b < |buffers| && open[b]
    }

    method DoBegin(b: nat, offset: U64, data: Bytes)
      requires Valid()
      modifies this
      ensures Valid() && plains == After(old(plains), Begin(b, offset, data)) && buffers == old(buffers)
    {
      if !Usable(b) {
        return;
      }
      assert Holds(b);
      if writing[b].Some? || data == [] || offset + |data| > U64_MAX {
        assert plains[b := plains[b]] == plains;
        return;
      }
      StartWrite(b, Write(offset, data));
      OthersHold(b);
    }

    method StartWrite(b: nat, w: Write)
      requires Shape() && b < |buffers| && open[b] && writing[b].None? && Holds(b)
      requires w.data != [] && w.offset + |w.data| <= U64_MAX
      modifies this`writing, this`done, this`starts, this`plains
      ensures Shape() && Holds(b) && writing == old(writing)[b := Some(w)] && done == old(done)[b := 0]
      ensures starts == old(starts)[b := starts[b]]
      ensures plains == old(plains)[b := old(plains)[b].(writing := Some(w))]
    {
      writing, done := writing[b := Some(w)], done[b := 0];
      starts, plains := starts[b := buffers[b].View()], plains[b := plains[b].(writing := Some(w))];
      assert w.data[..0] == [];
    }

    /** All others still hold; b itself has been looked at. */
    twostate lemma OthersHold(b: nat)
      requires old(Valid()) && Shape() && buffers == old(buffers) && OthersLeft(b) && b < |buffers|
      requires forall i :: 0 <= i < |buffers| && i != b ==>
                 && unchanged(buffers[i]) && writing[i] == old(writing[i]) && open[i] == old(open[i])
                 && done[i] == old(done[i]) && starts[i] == old(starts[i]) && plains[i] == old(plains[i])
      ensures forall i :: 0 <= i < |buffers| && i != b ==> Holds(i)
      ensures forall i :: 0 <= i < |buffers| ==> buffers[i].ticket < |pool.shares|
    {
      forall i | 0 <= i < |buffers| && i != b
        ensures Holds(i)
      {
        assert old(Holds(i));
      }
    }

    /** Writes the next block of a write under way. */
    method WriteBlock(b: nat)
      requires Shape() && b < |buffers| && open[b] && Holds(b) && writing[b].Some? && done[b] < |writing[b].value.data|
      modifies this`done, pool, buffers[b]
      ensures Shape() && Holds(b) && OthersLeft(b) && done == old(done)[b := done[b]] && done[b] > old(done[b])
    {
      var w := writing[b].value;
      var n := buffers[b].WriteNext(starts[b], w.offset, w.data, done[b]);
      done := done[b := n];
    }

    method WriteSome(b: nat)
      requires Valid() && b < |buffers| && open[b] && writing[b].Some? && done[b] < |writing[b].value.data|
      modifies this`done, pool, buffers
      ensures Valid() && done[b] > old(done[b])
    {
      assert Holds(b);
      WriteBlock(b);
      OthersHold(b);
    }

    method DoChunk(b: nat)
      requires Valid()
      modifies this`done, pool, buffers
      ensures Valid() && plains == After(old(plains), Chunk(b))
    {
      if !Usable(b) {
        return;
      }
      assert plains[b := plains[b]] == plains;
      if writing[b].Some? && done[b] < |writing[b].value.data| {
        WriteSome(b);
      }
    }

    method WriteAll(b: nat)
      requires Valid() && b < |buffers| && open[b] && writing[b].Some?
      modifies this`done, pool, buffers
      ensures Valid() && done[b] == |writing[b].value.data|
    {
      assert Holds(b);
      while done[b] < |writing[b].value.data|
        invariant Valid() && Holds(b)
        decreases |writing[b].value.data| - done[b]
      {
        WriteSome(b);
        assert Holds(b);
      }
    }

    method DoEnd(b: nat)
      requires Valid()
      modifies this`done, this`writing, this`plains, pool, buffers
      ensures Valid() && plains == After(old(plains), End(b))
    {
      if !Usable(b) {
        return;
      }
      if writing[b].None? {
        assert plains[b := plains[b]] == plains;
      } else {
        WriteAll(b);
        FinishAndFree(b);
      }
    }

    method FinishAndFree(b: nat)
      requires Valid() && b < |buffers| && open[b] && writing[b].Some? && done[b] == |writing[b].value.data|
      modifies this`writing, this`plains, buffers[b]
      ensures Valid() && plains == After(old(plains), End(b))
    {
      assert Holds(b);
      Finish(b);
      OthersHold(b);
    }

    /** The whole write is on its blocks: the buffer's length follows, and its lock is free again. */
    method Finish(b: nat)
      requires Shape() && b < |buffers| && open[b] && writing[b].Some? && Holds(b)
      requires done[b] == |writing[b].value.data|
      modifies this`writing, this`plains, buffers[b]
      ensures Shape() && writing == old(writing)[b := None] && Holds(b)
      ensures plains == old(plains)[b := Plain(Written(old(plains)[b].content, old(writing)[b].value.offset,
                                                       old(writing)[b].value.data), None, true)]
    {
      var w := writing[b].value;
      Lengthen(b, w);
      writing := writing[b := None];
      plains := plains[b := Plain(Written(plains[b].content, w.offset, w.data), None, true)];
    }

    method Lengthen(b: nat, w: Write)
      requires Shape() && b < |buffers| && open[b] && Holds(b) && writing[b] == Some(w) && done[b] == |w.data|
      modifies buffers[b]
      ensures buffers[b].Valid() && buffers[b].Contents() == Written(plains[b].content, w.offset, w.data)
    {
      var s := buffers[b];
      assert w.data[..done[b]] == w.data;
      WrittenContents(starts[b], s.View(), s.len, w.offset, w.data);
      s.SetLenInternal(if s.len > w.offset + |w.data| then s.len else w.offset + |w.data|);
    }

    method DoCut(b: nat, len: U64)
      requires Valid()
      modifies this`plains, pool, buffers
      ensures Valid() && plains == After(old(plains), Cut(b, len))
    {
      if !Usable(b) {
        return;
      }
      assert Holds(b);
      if writing[b].Some? {
        assert plains[b := plains[b]] == plains;
      } else {
        CutOne(b, len);
        OthersHold(b);
      }
    }

    method CutOne(b: nat, len: U64)
      requires Shape() && b < |buffers| && open[b] && writing[b].None? && Holds(b)
      modifies this`plains, pool, buffers[b]
      ensures Shape() && Holds(b) && OthersLeft(b)
      ensures plains == old(plains)[b := old(plains)[b].(content := Resized(old(plains)[b].content, len))]
    {
      buffers[b].SetLen(len);
      plains := plains[b := plains[b].(content := Resized(plains[b].content, len))];
    }

    method DoDrop(b: nat)
      requires Valid()
      modifies this`plains, this`open, pool, buffers
      ensures Valid() && plains == After(old(plains), Drop(b))
    {
      if !Usable(b) {
        return;
      }
      assert Holds(b);
      if writing[b].Some? {
        assert plains[b := plains[b]] == plains;
      } else {
        DropOne(b);
        OthersHold(b);
      }
    }

    method DropOne(b: nat)
      requires Shape() && b < |buffers| && open[b] && writing[b].None? && Holds(b)
      modifies this`plains, this`open, pool, buffers[b]
      ensures Shape() && Holds(b) && OthersLeft(b) && open == old(open)[b := false]
      ensures plains == old(plains)[b := old(plains)[b].(open := false)]
    {
      buffers[b].Drop();
      plains, open := plains[b := plains[b].(open := false)], open[b := false];
    }
  }

  method Do(m: Machine, op: Op)
    requires m.Valid()
    modifies m, m.pool, m.buffers
    ensures m.Valid() && m.plains == After(old(m.plains), op)
    ensures forall s :: s in m.buffers ==> s in old(m.buffers) || fresh(s)
  {
    match op
    case Open => m.DoOpen();
    case Begin(b, offset, data) => m.DoBegin(b, offset, data);
    case Chunk(b) => m.DoChunk(b);
    case End(b) => m.DoEnd(b);
    case Cut(b, n) => m.DoCut(b, n);
    case Drop(b) => m.DoDrop(b);
  }

  /** No two blocks were ever sealed under one nonce. */
  ghost predicate NoncesDiffer(history: seq<Slot>) {
    forall i, j :: 0 <= i < j < |history| ==> history[i].nonce != history[j].nonce
  }

  /** In every run of opening, writing, cutting and dropping any number of buffers, with the blocks of their writes
      interleaved in any way, each buffer not being written to reads back as a plain byte array would, whatever is cached,
      spilled or evicted on the way; no buffer has sealed two blocks under one nonce; and the budget is kept throughout. */
  method Run(maxBytes: nat, ops: seq<Op>) returns (m: Machine)
    ensures m.Valid() && m.plains == Replayed(ops) && m.pool.maxBytes == maxBytes
    ensures forall i :: 0 <= i < |m.buffers| && m.plains[i].open && m.plains[i].writing.None? ==>
              m.buffers[i].Valid() && m.buffers[i].Contents() == Replayed(ops)[i].content
    ensures forall i :: 0 <= i < |m.buffers| && m.plains[i].open ==> NoncesDiffer(m.buffers[i].history)
  {
    m := new Machine(maxBytes);
    for k := 0 to |ops|
      invariant m.Valid() && m.plains == Replayed(ops[..k]) && m.pool.maxBytes == maxBytes
      invariant fresh(m) && fresh(m.pool) && forall s :: s in m.buffers ==> fresh(s)
    {
      assert ops[..k + 1][..k] == ops[..k];
      Do(m, ops[k]);
    }
    assert ops[..|ops|] == ops;
    forall i | 0 <= i < |m.buffers| && m.plains[i].open && m.plains[i].writing.None?
      ensures m.buffers[i].Valid() && m.buffers[i].Contents() == m.plains[i].content
    {
      assert m.Holds(i);
    }
    forall i | 0 <= i < |m.buffers| && m.plains[i].open
      ensures NoncesDiffer(m.buffers[i].history)
    {
      assert m.Holds(i) && m.buffers[i].Sound();
    }
  }
}
