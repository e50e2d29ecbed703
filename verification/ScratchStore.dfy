/** The blocks of a scratch buffer: some cached, some sealed in the spill file, the rest implicit zeros. */
module ScratchStore {
  import opened Octets

  const BLOCK := 65536

  datatype CachedBlock = CachedBlock(data: Bytes, dirty: bool)

  /** One slot of the spill file, sealed for the block number aad under a nonce used once. */
  datatype Slot = Slot(nonce: nat, aad: nat, data: Bytes)

  datatype Store = Store(cache: map<nat, CachedBlock>, onDisk: seq<bool>, file: map<nat, Slot>) {
    predicate IsOnDisk(i: nat) {
      i < |onDisk| && onDisk[i]
    }

    ghost function Disk(i: nat): Bytes {
      if IsOnDisk(i) && i in file then file[i].data else Zeros(BLOCK)
    }

    /** What block i holds, wherever it is kept. */
    ghost function Data(i: nat): Bytes {
      if i in cache then cache[i].data else Disk(i)
    }

    ghost predicate DiskOk(nonceCtr: nat) {
      && (forall i: nat {:trigger IsOnDisk(i)} :: IsOnDisk(i) ==> i in file)
      && (forall i {:trigger file[i]} :: i in file ==>
            file[i].aad == i && |file[i].data| == BLOCK && 1 <= file[i].nonce <= nonceCtr)
      && (forall i, j {:trigger file[i], file[j]} :: i in file && j in file && i != j ==> file[i].nonce != file[j].nonce)
    }

    /** A clean block is what the disk holds; the block under repair may differ. */
    ghost predicate CacheOk(repair: set<nat>) {
      forall i {:trigger cache[i]} :: i in cache ==>
        |cache[i].data| == BLOCK && (!cache[i].dirty && i !in repair ==> cache[i].data == Disk(i))
    }

    ghost predicate Ok(nonceCtr: nat, repair: set<nat>) {
      DiskOk(nonceCtr) && CacheOk(repair)
    }

    /** Byte p of the buffer. */
    ghost function At(p: nat): Byte {
      var d := Data(p / BLOCK);
      if p % BLOCK < |d| then d[p % BLOCK] else 0
    }
  }

  lemma DataIsBlock(s: Store, nonceCtr: nat, repair: set<nat>)
    requires s.Ok(nonceCtr, repair)
    ensures forall i: nat {:trigger s.Data(i)} :: |s.Data(i)| == BLOCK
  {
    forall i: nat
      ensures |s.Data(i)| == BLOCK
    {
      if i in s.cache {
        assert |s.cache[i].data| == BLOCK;
      } else if s.IsOnDisk(i) && i in s.file {
        assert |s.file[i].data| == BLOCK;
      }
    }
  }

  /** Every byte at or beyond n is zero. */
  ghost predicate ZeroFrom(s: Store, n: nat) {
    forall p: nat {:trigger s.At(p)} :: p >= n ==> s.At(p) == 0
  }

  /** u has the first blocks of s, and zeros after them. */
  ghost predicate HasFirst(s: Store, u: Store, keep: nat) {
    forall i: nat {:trigger u.Data(i)} :: u.Data(i) == if i < keep then s.Data(i) else Zeros(BLOCK)
  }

  /** The store without the blocks from keep on. */
  ghost function Forgotten(s: Store, keep: nat): Store {
    Store(map i | i in s.cache && i < keep :: s.cache[i], if |s.onDisk| > keep then s.onDisk[..keep] else s.onDisk, s.file)
  }

  /** Forgetting blocks keeps everything before them and makes the rest zero. */
  lemma ForgottenOk(s: Store, nonceCtr: nat, keep: nat)
    requires s.Ok(nonceCtr, {})
    ensures Forgotten(s, keep).Ok(nonceCtr, {}) && HasFirst(s, Forgotten(s, keep), keep)
  {
    var u := Forgotten(s, keep);
    assert forall i: nat :: u.IsOnDisk(i) <==> i < keep && s.IsOnDisk(i);
    assert forall i: nat :: i < keep ==> u.Disk(i) == s.Disk(i);
    forall i | i in u.cache
      ensures |u.cache[i].data| == BLOCK && (!u.cache[i].dirty ==> u.cache[i].data == u.Disk(i))
    {
      assert s.cache[i] == u.cache[i];
    }
  }

  /** Dropping a cached block loses nothing that the disk holds too. */
  lemma DroppedOk(s: Store, nonceCtr: nat, idx: nat)
    requires s.Ok(nonceCtr, {}) && idx in s.cache
    ensures s.(cache := s.cache - {idx}).Ok(nonceCtr, {})
    ensures forall i: nat {:trigger s.(cache := s.cache - {idx}).Data(i)} ::
              s.(cache := s.cache - {idx}).Data(i) == if i == idx then s.Disk(idx) else s.Data(i)
    ensures !s.cache[idx].dirty ==> s.Data(idx) == s.Disk(idx)
    ensures |s.cache[idx].data| == BLOCK
  {
    var u := s.(cache := s.cache - {idx});
    assert forall i: nat :: u.Disk(i) == s.Disk(i) && (u.IsOnDisk(i) <==> s.IsOnDisk(i));
    forall i | i in u.cache
      ensures |u.cache[i].data| == BLOCK && (!u.cache[i].dirty ==> u.cache[i].data == u.Disk(i))
    {
      assert s.cache[i] == u.cache[i];
    }
  }

  /** The flags with block idx marked as spilled. */
  function Flagged(onDisk: seq<bool>, idx: nat): (f: seq<bool>)
    ensures forall i: nat :: (i < |f| && f[i]) <==> i == idx || (i < |onDisk| && onDisk[i])
  {
    (if idx >= |onDisk| then onDisk + seq(idx + 1 - |onDisk|, _ => false) else onDisk)[idx := true]
  }

  /** The store with block idx sealed into its slot. */
  function Spilled(s: Store, nonce: nat, idx: nat, data: Bytes): Store {
    s.(file := s.file[idx := Slot(nonce, idx, data)], onDisk := Flagged(s.onDisk, idx))
  }

  lemma SpilledDisk(s: Store, nonceCtr: nat, idx: nat, data: Bytes)
    requires s.DiskOk(nonceCtr) && |data| == BLOCK
    ensures var u := Spilled(s, nonceCtr + 1, idx, data);
            && u.DiskOk(nonceCtr + 1) && u.Disk(idx) == data
            && forall i: nat {:trigger u.Disk(i)} :: i != idx ==> u.Disk(i) == s.Disk(i)
  {
    var u := Spilled(s, nonceCtr + 1, idx, data);
    assert forall i: nat :: u.IsOnDisk(i) <==> i == idx || s.IsOnDisk(i);
  }

  /** Sealing a block under a fresh nonce keeps what is kept, and leaves every other block as it was. */
  lemma SpilledOk(s: Store, nonceCtr: nat, repair: set<nat>, idx: nat, data: Bytes)
    requires s.Ok(nonceCtr, repair) && |data| == BLOCK
    requires idx in s.cache && !s.cache[idx].dirty ==> idx in repair
    ensures var u := Spilled(s, nonceCtr + 1, idx, data);
            && u.Ok(nonceCtr + 1, repair) && u.Disk(idx) == data
            && (forall i: nat {:trigger u.Disk(i)} :: i != idx ==> u.Disk(i) == s.Disk(i))
            && (forall i: nat {:trigger u.Data(i)} :: u.Data(i) == if i == idx && idx !in s.cache then data else s.Data(i))
  {
    SpilledDisk(s, nonceCtr, idx, data);
  }

  /** Of all blocks ever sealed, each has a higher nonce than those before it. */
  ghost predicate SealedOnce(history: seq<Slot>, nonceCtr: nat) {
    && (forall i, j :: 0 <= i < j < |history| ==> history[i].nonce < history[j].nonce)
    && (forall i :: 0 <= i < |history| ==> history[i].nonce <= nonceCtr)
  }

  /** One more block is sealed. */
  lemma SealedOnceMore(history: seq<Slot>, nonceCtr: nat, slot: Slot)
    requires SealedOnce(history, nonceCtr) && slot.nonce > nonceCtr
    ensures SealedOnce(history + [slot], slot.nonce)
  {
  }

  /** u is s with block idx holding data. */
  ghost predicate OnlyBlock(s: Store, u: Store, idx: nat, data: Bytes) {
    u.Data(idx) == data && forall i: nat {:trigger u.Data(i)} :: i != idx ==> u.Data(i) == s.Data(i)
  }

  /** The block with chunk written over it at within. */
  function Spliced(d: Bytes, within: nat, chunk: Bytes): (r: Bytes)
    requires within + |chunk| <= |d|
    ensures |r| == |d|
    ensures forall i :: 0 <= i < |d| ==> r[i] == if within <= i < within + |chunk| then chunk[i - within] else d[i]
  {
    d[..within] + chunk + d[within + |chunk|..]
  }

  /** Writing over part of one block changes exactly those bytes of the buffer. */
  lemma SplicedAt(s: Store, u: Store, idx: nat, within: nat, chunk: Bytes)
    requires within + |chunk| <= BLOCK == |s.Data(idx)|
    requires OnlyBlock(s, u, idx, Spliced(s.Data(idx), within, chunk))
    ensures IsWritten(s, u, idx * BLOCK + within, chunk)
  {
    forall p: nat
      ensures u.At(p) == if idx * BLOCK + within <= p < idx * BLOCK + within + |chunk| then chunk[p - (idx * BLOCK + within)]
                         else s.At(p)
    {
      assert p == (p / BLOCK) * BLOCK + p % BLOCK;
      if p / BLOCK == idx {
        assert p % BLOCK < |u.Data(idx)|;
      }
    }
  }

  lemma SplicedAtPos(s: Store, u: Store, pos: nat, chunk: Bytes)
    requires pos % BLOCK + |chunk| <= BLOCK == |s.Data(pos / BLOCK)|
    requires OnlyBlock(s, u, pos / BLOCK, Spliced(s.Data(pos / BLOCK), pos % BLOCK, chunk))
    ensures IsWritten(s, u, pos, chunk)
  {
    SplicedAt(s, u, pos / BLOCK, pos % BLOCK, chunk);
    assert pos / BLOCK * BLOCK + pos % BLOCK == pos;
  }

  /** Storing new data in a cached block settles the block under repair. */
  lemma StoredOk(s: Store, nonceCtr: nat, idx: nat, data: Bytes)
    requires s.Ok(nonceCtr, {idx}) && idx in s.cache && |data| == BLOCK
    ensures var u := s.(cache := s.cache[idx := CachedBlock(data, true)]);
            && u.Ok(nonceCtr, {}) && u.Data(idx) == data
            && forall i: nat {:trigger u.Data(i)} :: i != idx ==> u.Data(i) == s.Data(i)
  {
    var u := s.(cache := s.cache[idx := CachedBlock(data, true)]);
    assert forall i: nat :: u.Disk(i) == s.Disk(i) && (u.IsOnDisk(i) <==> s.IsOnDisk(i));
    forall i | i in u.cache
      ensures |u.cache[i].data| == BLOCK && (!u.cache[i].dirty ==> u.cache[i].data == u.Disk(i))
    {
      if i != idx {
        assert s.cache[i] == u.cache[i];
      }
    }
  }

  /** Caching a clean copy of a block, or a blank one about to be overwritten. */
  lemma CachedOk(s: Store, nonceCtr: nat, idx: nat, data: Bytes)
    requires s.Ok(nonceCtr, {}) && idx !in s.cache && |data| == BLOCK
    ensures var u := s.(cache := s.cache[idx := CachedBlock(data, false)]);
            && u.Ok(nonceCtr, {idx}) && (data == s.Disk(idx) ==> u.Ok(nonceCtr, {}))
            && u.Data(idx) == data
            && forall i: nat {:trigger u.Data(i)} :: i != idx ==> u.Data(i) == s.Data(i)
  {
    var u := s.(cache := s.cache[idx := CachedBlock(data, false)]);
    assert forall i: nat :: u.Disk(i) == s.Disk(i) && (u.IsOnDisk(i) <==> s.IsOnDisk(i));
    forall i | i in u.cache && i != idx
      ensures |u.cache[i].data| == BLOCK && (!u.cache[i].dirty ==> u.cache[i].data == u.Disk(i))
    {
      assert s.cache[i] == u.cache[i];
    }
  }

  /** The order of use lists every cached block once. */
  ghost predicate IsOrderOf(order: seq<nat>, keys: set<nat>) {
    && (forall i, j :: 0 <= i < j < |order| ==> order[i] != order[j])
    && (forall x :: x in order <==> x in keys)
  }

  function Without(order: seq<nat>, x: nat): seq<nat> {
    if order == [] then [] else if order[0] == x then order[1..] else [order[0]] + Without(order[1..], x)
  }

  lemma {:induction false} WithoutOk(order: seq<nat>, keys: set<nat>, x: nat)
    requires IsOrderOf(order, keys)
    ensures IsOrderOf(Without(order, x), keys - {x})
  {
    if order == [] {
    } else {
      assert order == [order[0]] + order[1..];
      assert order[0] !in order[1..];
      if order[0] == x {
      } else {
        WithoutOk(order[1..], keys - {order[0]}, x);
        assert order[0] !in Without(order[1..], x);
      }
    }
  }

  /** Exactly one place goes. */
  lemma {:induction false} WithoutAt(order: seq<nat>, x: nat) returns (i: nat)
    requires x in order
    ensures i < |order| && order[i] == x && Without(order, x) == order[..i] + order[i + 1..]
  {
    if order[0] == x {
      i := 0;
    } else {
      i := WithoutAt(order[1..], x);
      i := i + 1;
      assert order[..i] == [order[0]] + order[1..][..i - 1] && order[1..][i..] == order[i + 1..];
    }
  }

  /** x goes to the end, the others keep their order. */
  ghost predicate MovedToEnd(before: seq<nat>, after: seq<nat>, x: nat) {
    exists i: nat :: i < |before| && before[i] == x && after == before[..i] + before[i + 1..] + [x]
  }

  lemma LastStays(order: seq<nat>, x: nat)
    requires order != [] && order[|order| - 1] == x
    ensures MovedToEnd(order, order, x)
  {
    var i := |order| - 1;
    assert order == order[..i] + order[i + 1..] + [x];
  }

  lemma MovedOk(order: seq<nat>, keys: set<nat>, x: nat)
    requires IsOrderOf(order, keys) && x in order
    ensures IsOrderOf(Without(order, x) + [x], keys) && MovedToEnd(order, Without(order, x) + [x], x)
  {
    var i := WithoutAt(order, x);
    WithoutOk(order, keys, x);
    NewestAdded(Without(order, x), keys - {x}, x);
    assert keys - {x} + {x} == keys;
  }

  lemma OldestDropped(order: seq<nat>, keys: set<nat>)
    requires IsOrderOf(order, keys) && order != []
    ensures IsOrderOf(order[1..], keys - {order[0]}) && order[0] in keys
  {
    assert order == [order[0]] + order[1..];
    assert order[0] !in order[1..];
  }

  lemma NewestAdded(order: seq<nat>, keys: set<nat>, x: nat)
    requires IsOrderOf(order, keys) && x !in keys
    ensures IsOrderOf(order + [x], keys + {x})
  {
  }

  lemma {:induction false} OrderSize(order: seq<nat>, keys: set<nat>)
    requires IsOrderOf(order, keys)
    ensures |order| == |keys|
  {
    if order == [] {
      assert keys == {};
    } else {
      assert order == [order[0]] + order[1..];
      OrderSize(order[1..], keys - {order[0]});
    }
  }

  // ---------- What a plain byte array would hold ----------

  ghost function Max(a: nat, b: nat): nat {
    if a > b then a else b
  }

  /** data written at offset into a plain byte array; a gap is filled with zeros. */
  ghost function Written(c: Bytes, offset: nat, data: Bytes): Bytes {
    if data == [] then c
    else
      seq(Max(|c|, offset + |data|), p requires 0 <= p =>
        (if offset <= p < offset + |data| then data[p - offset] else if p < |c| then c[p] else 0))
  }

  /** The first n bytes of the buffer. */
  ghost function ContentsOf(s: Store, n: nat): Bytes {
    seq(n, p requires 0 <= p => s.At(p))
  }

  lemma ContentsFrom(s: Store, n: nat, offset: nat, part: Bytes)
    requires offset + |part| <= n && forall k :: 0 <= k < |part| ==> part[k] == s.At(offset + k)
    ensures part == ContentsOf(s, n)[offset..offset + |part|]
  {
  }

  /** data is at offset in u, and the rest is as in s. */
  ghost predicate IsWritten(s: Store, u: Store, offset: nat, data: Bytes) {
    forall p: nat {:trigger u.At(p)} :: u.At(p) == if offset <= p < offset + |data| then data[p - offset] else s.At(p)
  }

  lemma WrittenFurther(s: Store, u: Store, v: Store, offset: nat, done: Bytes, chunk: Bytes)
    requires IsWritten(s, u, offset, done) && IsWritten(u, v, offset + |done|, chunk)
    ensures IsWritten(s, v, offset, done + chunk)
  {
    forall p: nat
      ensures v.At(p) == if offset <= p < offset + |done + chunk| then (done + chunk)[p - offset] else s.At(p)
    {
      assert u.At(p) == if offset <= p < offset + |done| then done[p - offset] else s.At(p);
    }
  }

  lemma WrittenNext(s: Store, u: Store, v: Store, offset: nat, data: Bytes, done: nat, n: nat)
    requires done + n <= |data|
    requires IsWritten(s, u, offset, data[..done]) && IsWritten(u, v, offset + done, data[done..done + n])
    ensures IsWritten(s, v, offset, data[..done + n])
  {
    WrittenFurther(s, u, v, offset, data[..done], data[done..done + n]);
    assert data[..done + n] == data[..done] + data[done..done + n];
  }

  /** How many of the bytes left lie in the same block as pos. */
  function InBlock(pos: nat, left: nat): (n: nat)
    ensures n <= left && pos % BLOCK + n <= BLOCK && (left > 0 ==> n > 0)
  {
    if BLOCK - pos % BLOCK < left then BLOCK - pos % BLOCK else left
  }

  lemma WrittenContents(s: Store, u: Store, n: nat, offset: nat, data: Bytes)
    requires IsWritten(s, u, offset, data) && data != []
    requires ZeroFrom(s, n)
    ensures ContentsOf(u, Max(n, offset + |data|)) == Written(ContentsOf(s, n), offset, data)
    ensures ZeroFrom(u, Max(n, offset + |data|))
  {
    var c, d := ContentsOf(s, n), ContentsOf(u, Max(n, offset + |data|));
    forall p | 0 <= p < |d|
      ensures d[p] == if offset <= p < offset + |data| then data[p - offset] else if p < n then c[p] else 0
    {
      assert d[p] == u.At(p);
    }
    WrittenIs(c, d, offset, data);
  }

  lemma WrittenIs(c: Bytes, d: Bytes, offset: nat, data: Bytes)
    requires data != [] && |d| == Max(|c|, offset + |data|)
    requires forall p :: 0 <= p < |d| ==>
               d[p] == if offset <= p < offset + |data| then data[p - offset] else if p < |c| then c[p] else 0
    ensures d == Written(c, offset, data)
  {
  }

  ghost predicate TailZeroed(s: Store, u: Store, idx: nat, tail: nat) {
    forall p: nat {:trigger u.At(p)} :: u.At(p) == if idx * BLOCK + tail <= p < (idx + 1) * BLOCK then 0 else s.At(p)
  }

  /** u reads like s up to n, and as zeros from there on. */
  ghost predicate IsCut(s: Store, u: Store, n: nat) {
    forall p: nat {:trigger u.At(p)} :: u.At(p) == if p < n then s.At(p) else 0
  }

  lemma CutBlocks(s: Store, u: Store, n: nat, keep: nat, tail: nat)
    requires HasFirst(s, u, keep) && keep == (n + BLOCK - 1) / BLOCK && tail == n % BLOCK
    ensures IsCut(s, u, keep * BLOCK)
    ensures if tail == 0 then n == keep * BLOCK else keep > 0 && n == (keep - 1) * BLOCK + tail
  {
    forall p: nat
      ensures u.At(p) == if p < keep * BLOCK then s.At(p) else 0
    {
      assert p < keep * BLOCK <==> p / BLOCK < keep;
    }
  }

  lemma CutTail(s: Store, u: Store, v: Store, n: nat, keep: nat, tail: nat)
    requires IsCut(s, u, keep * BLOCK) && keep > 0 && n == (keep - 1) * BLOCK + tail && tail <= BLOCK
    requires TailZeroed(u, v, keep - 1, tail)
    ensures IsCut(s, v, n)
  {
    forall p: nat
      ensures v.At(p) == if p < n then s.At(p) else 0
    {
      assert u.At(p) == if p < keep * BLOCK then s.At(p) else 0;
    }
  }

  lemma ResizedContents(s: Store, u: Store, n: nat, m: nat)
    requires n <= m ==> u == s
    requires m < n ==> IsCut(s, u, m)
    requires ZeroFrom(s, n)
    ensures ContentsOf(u, m) == Resized(ContentsOf(s, n), m) && ZeroFrom(u, m)
  {
  }

  /** The array cut or zero-extended to n bytes. */
  ghost function Resized(c: Bytes, n: nat): Bytes {
    if n <= |c| then c[..n] else c + Zeros(n - |c|)
  }

  /** What a plain array holds after a write and after a cut or an extension, byte by byte. */
  lemma PlainBytes(c: Bytes, offset: nat, data: Bytes, n: nat)
    ensures data == [] ==> Written(c, offset, data) == c
    ensures data != [] ==>
              var w := Written(c, offset, data);
              && |w| == (if |c| >= offset + |data| then |c| else offset + |data|)
              && w[offset..offset + |data|] == data
              && (forall p :: 0 <= p < |c| && !(offset <= p < offset + |data|) ==> w[p] == c[p])
              && (forall p :: |c| <= p < offset ==> w[p] == 0)
    ensures var r := Resized(c, n);
            && |r| == n
            && forall p :: 0 <= p < n ==> r[p] == if p < |c| then c[p] else 0
  {
  }

  // ---------- Sums of reservations ----------

  ghost function Sum(s: seq<nat>): nat {
    if s == [] then 0 else s[0] + Sum(s[1..])
  }

  lemma {:induction false} SumUpdate(s: seq<nat>, i: nat, v: nat)
    requires i < |s|
    ensures Sum(s[i := v]) + s[i] == Sum(s) + v
  {
    if i == 0 {
      assert s[i := v][1..] == s[1..];
    } else {
      SumUpdate(s[1..], i - 1, v);
      assert s[i := v][1..] == s[1..][i - 1 := v];
    }
  }

  lemma {:induction false} SumAppend(s: seq<nat>, v: nat)
    ensures Sum(s + [v]) == Sum(s) + v
  {
    if s == [] {
    } else {
      SumAppend(s[1..], v);
      assert (s + [v])[1..] == s[1..] + [v];
    }
  }

  lemma {:induction false} SumAtLeast(s: seq<nat>, i: nat)
    requires i < |s|
    ensures Sum(s) >= s[i]
  {
    if i == 0 {
    } else {
      SumAtLeast(s[1..], i - 1);
    }
  }
}
