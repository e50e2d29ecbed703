/** The growable scratch buffer: a bounded block cache over an encrypted spill file, under a shared memory budget. */
module Scratch {
  import opened Octets
  import opened ScratchStore

  const MAX_CACHED_BLOCKS := 64
  const U64_MAX := 0xffff_ffff_ffff_ffff

  type U64 = n: int | 0 <= n <= U64_MAX

  /** The memory budget that all buffers of one pool share. */
  class ScratchPool {
    const maxBytes: nat
    var used: nat
    var others: nat             // the blocks that buffers nobody looks at here have reserved
    ghost var shares: seq<nat>  // per buffer, the blocks it has reserved; first those others

    ghost predicate Valid()
      reads this
    {
      used == BLOCK * Sum(shares) && used <= maxBytes && shares != [] && shares[0] == others
    }

    constructor (maxBytes: nat)
      ensures Valid() && this.maxBytes == maxBytes && used == 0 && shares == [0]
    {
      this.maxBytes := maxBytes;
      used, others := 0, 0;
      shares := [0];
    }

    /** What other threads may do with their buffers at any moment: reserve blocks and give them back. */
    method OthersAct()
      requires Valid()
      modifies this
      ensures Valid() && |shares| == |old(shares)| && forall t :: 0 < t < |shares| ==> shares[t] == old(shares)[t]
    {
      var n: int := *;
      for i := 0 to if n > 0 then n else 0
        invariant Valid() && |shares| == |old(shares)| && forall t :: 0 < t < |shares| ==> shares[t] == old(shares)[t]
      {
        var more: bool := *;
        if more && used + BLOCK <= maxBytes {
          SumUpdate(shares, 0, others + 1);
          used, others := used + BLOCK, others + 1;
          shares := shares[0 := others];
        } else if !more && others > 0 {
          SumUpdate(shares, 0, others - 1);
          used, others := used - BLOCK, others - 1;
          shares := shares[0 := others];
        }
      }
    }

    /** Reserves one block for a buffer, if the budget allows it. */
    method TryReserve(ghost ticket: nat) returns (ok: bool)
      requires Valid() && 0 < ticket < |shares|
      modifies this`used, this`shares
      ensures Valid()
      ensures ok <==> old(used) + BLOCK <= maxBytes
      ensures shares == if ok then old(shares)[ticket := old(shares)[ticket] + 1] else old(shares)
    {
      if used + BLOCK > maxBytes {
        return false;
      }
      SumUpdate(shares, ticket, shares[ticket] + 1);
      used := used + BLOCK;
      shares := shares[ticket := shares[ticket] + 1];
      return true;
    }

    /** Gives n blocks of a buffer back. */
    method Release(n: nat, ghost ticket: nat)
      requires Valid() && 0 < ticket < |shares| && n <= shares[ticket]
      modifies this`used, this`shares
      ensures Valid()
      ensures shares == old(shares)[ticket := old(shares)[ticket] - n]
    {
      SumUpdate(shares, ticket, shares[ticket] - n);
      SumAtLeast(shares, ticket);
      used := used - n * BLOCK;
      shares := shares[ticket := shares[ticket] - n];
    }
  }

  class Scratch {
    const pool: ScratchPool
    ghost const ticket: nat
    var nonceCtr: nat
    var onDisk: seq<bool>
    var file: map<nat, Slot>
    ghost var history: seq<Slot>  // every block ever sealed, in order
    var cache: map<nat, CachedBlock>
    var order: seq<nat>
    var reserved: nat
    var len: U64
    var generation: nat
    var committedGeneration: nat

    function View(): Store
      reads this
    {
      Store(cache, onDisk, file)
    }

    /** The bookkeeping of the cache; spare is 1 while a reservation waits for its block. */
    ghost predicate Kept(repair: set<nat>)
      reads this
    {
      && View().Ok(nonceCtr, repair)
      && SealedOnce(history, nonceCtr)
      && IsOrderOf(order, cache.Keys)
    }

    ghost predicate Paid()
      reads this, pool
    {
      pool.Valid() && 0 < ticket < |pool.shares| && pool.shares[ticket] == reserved
    }

    /** At most one block beyond the reservation, and at most 64 blocks. */
    ghost predicate Bounded()
      reads this
    {
      reserved <= |cache| <= reserved + 1 && |cache| <= MAX_CACHED_BLOCKS
    }

    ghost predicate Sound()
      reads this, pool
    {
      Kept({}) && Paid() && Bounded()
    }

    ghost predicate Valid()
      reads this, pool
    {
      && Sound()
      && ZeroFrom(View(), len)
    }

    /** What a reader of the whole buffer sees. */
    ghost function Contents(): Bytes
      reads this
    {
      ContentsOf(View(), len)
    }

    constructor (pool: ScratchPool)
      requires pool.Valid()
      modifies pool
      ensures Valid() && this.pool == pool && Contents() == [] && generation == committedGeneration == 0 && history == []
      ensures pool.shares == old(pool.shares) + [0] && ticket == |old(pool.shares)| && pool.used == old(pool.used)
    {
      this.pool := pool;
      ticket := |pool.shares|;
      nonceCtr, onDisk, file, cache, order := 0, [], map[], map[], [];
      reserved, len, generation, committedGeneration := 0, 0, 0, 0;
      history := [];
      new;
      SumAppend(pool.shares, 0);
      pool.shares := pool.shares + [0];
    }

    predicate IsDirty()
      reads this
    {
      generation != committedGeneration
    }

    method MarkCommitted(generation: nat)
      requires Valid()
      modifies this`committedGeneration
      ensures Valid() && committedGeneration == generation
    {
      committedGeneration := generation;
    }

    method MarkDirty()
      requires Valid()
      modifies this`generation
      ensures Valid() && generation == old(generation) + 1
    {
      generation := generation + 1;
    }

    method SetLenInternal(n: U64)
      modifies this`len, this`generation
      ensures len == n && generation == old(generation) + 1
    {
      len := n;
      generation := generation + 1;
    }

    /** Moves a block to the most recently used end. */
    method Touch(idx: nat)
      requires IsOrderOf(order, cache.Keys)
      modifies this`order
      ensures IsOrderOf(order, cache.Keys)
      ensures if idx in cache then MovedToEnd(old(order), order, idx) else order == old(order)
    {
      if order != [] && order[|order| - 1] == idx {
        LastStays(order, idx);
        return;
      }
      if idx in order {
        MovedOk(order, cache.Keys, idx);
        order := Without(order, idx) + [idx];
      }
    }

    /** Seals a block into its slot of the spill file, under a nonce never used before, and no other slot changes. */
    method WriteSlot(idx: nat, data: Bytes, ghost repair: set<nat>)
      requires View().Ok(nonceCtr, repair) && SealedOnce(history, nonceCtr) && |data| == BLOCK
      requires idx in cache && !cache[idx].dirty ==> idx in repair
      modifies this`nonceCtr, this`file, this`history, this`onDisk
      ensures View().Ok(nonceCtr, repair) && SealedOnce(history, nonceCtr) && nonceCtr > old(nonceCtr)
      ensures idx in file && file == old(file)[idx := file[idx]] && history == old(history) + [file[idx]]
      ensures file[idx].nonce > old(nonceCtr) && file[idx].aad == idx && file[idx].data == data
      ensures View().Disk(idx) == data
      ensures forall i: nat {:trigger View().Disk(i)} :: i != idx ==> View().Disk(i) == old(View()).Disk(i)
      ensures forall i: nat {:trigger View().Data(i)} :: View().Data(i) ==
                if i == idx && idx !in cache then data else old(View()).Data(i)
    {
      SpilledOk(View(), nonceCtr, repair, idx, data);
      SealedOnceMore(history, nonceCtr, Slot(nonceCtr + 1, idx, data));
      nonceCtr := nonceCtr + 1;
      file := file[idx := Slot(nonceCtr, idx, data)];
      history := history + [file[idx]];
      onDisk := Flagged(onDisk, idx);
      assert View() == Spilled(old(View()), nonceCtr, idx, data);
    }

    /** Opens a slot of the spill file; a slot sealed for another block would not open. */
    method ReadSlot(idx: nat) returns (data: Bytes)
      requires View().DiskOk(nonceCtr) && View().IsOnDisk(idx)
      ensures data == View().Disk(idx) && |data| == BLOCK
    {
      assert file[idx].aad == idx;
      data := file[idx].data;
    }

    method LoadBlock(idx: nat) returns (data: Bytes)
      requires View().DiskOk(nonceCtr)
      ensures data == View().Disk(idx) && |data| == BLOCK
    {
      if View().IsOnDisk(idx) {
        data := ReadSlot(idx);
      } else {
        data := seq(BLOCK, _ => 0);
        assert data == Zeros(BLOCK);
      }
    }

    /** Drops the least recently used block, writing it out if it is dirty, and gives its reservation back. */
    method EvictLru()
      requires Kept({}) && Paid() && reserved <= |cache| <= reserved + 1 && cache != map[]
      modifies this`nonceCtr, this`file, this`history, this`onDisk, this`cache, this`order, this`reserved, pool
      ensures Kept({}) && Paid() && reserved == |cache| == old(|cache|) - 1 && old(order) != []
      ensures forall i: nat {:trigger View().Data(i)} :: View().Data(i) == old(View()).Data(i)
      ensures OthersPaid(old(pool.shares), pool.shares)
      ensures old(history) <= history
      ensures cache == old(cache) - {old(order)[0]} && order == old(order)[1..]
    {
      DropOldest();
      pool.OthersAct();
      if reserved > |cache| {
        pool.Release(1, ticket);
        reserved := reserved - 1;
      }
    }

    /** The block used longest ago leaves the cache; if it is dirty it goes to the spill file. */
    method DropOldest()
      requires Kept({}) && cache != map[]
      modifies this`nonceCtr, this`file, this`history, this`onDisk, this`cache, this`order
      ensures Kept({}) && |cache| == old(|cache|) - 1 && old(order) != []
      ensures forall i: nat {:trigger View().Data(i)} :: View().Data(i) == old(View()).Data(i)
      ensures old(history) <= history
      ensures cache == old(cache) - {old(order)[0]} && order == old(order)[1..]
    {
      OrderSize(order, cache.Keys);
      var idx := order[0];
      OldestDropped(order, cache.Keys);
      ghost var t := View();
      DroppedOk(t, nonceCtr, idx);
      order := order[1..];
      var block := cache[idx];
      cache := cache - {idx};
      assert View() == t.(cache := t.cache - {idx});
      if block.dirty {
        WriteSlot(idx, block.data, {});
      }
    }

    /** Reserves memory for one more block, if the budget allows it. */
    method Reserve() returns (ok: bool)
      requires Paid()
      modifies this`reserved, pool
      ensures Paid() && reserved == old(reserved) + if ok then 1 else 0
      ensures OthersPaid(old(pool.shares), pool.shares)
    {
      pool.OthersAct();
      ok := pool.TryReserve(ticket);
      if ok {
        reserved := reserved + 1;
      }
    }

    /** Reserves memory for one more block, evicting blocks until there is some; an empty cache may go without. */
    method MakeRoom()
      requires Sound()
      modifies this`nonceCtr, this`file, this`history, this`onDisk, this`cache, this`order, this`reserved, pool
      ensures Kept({}) && Paid()
      ensures |cache| < MAX_CACHED_BLOCKS && reserved <= |cache| + 1 <= reserved + 1
      ensures cache.Keys <= old(cache.Keys)
      ensures forall i: nat {:trigger View().Data(i)} :: View().Data(i) == old(View()).Data(i)
      ensures OthersPaid(old(pool.shares), pool.shares)
      ensures old(history) <= history
    {
      while true
        invariant Kept({}) && Paid() && Bounded()
        invariant cache.Keys <= old(cache.Keys) && old(history) <= history
        invariant forall i: nat {:trigger View().Data(i)} :: View().Data(i) == old(View()).Data(i)
        invariant OthersPaid(old(pool.shares), pool.shares)
        decreases |cache|
      {
        if |cache| < MAX_CACHED_BLOCKS {
          var ok := Reserve();
          if ok {
            return;
          }
        }
        if cache == map[] {
          return;
        }
        EvictLru();
      }
    }

    /** Brings a block into the cache, as it was or, if it is about to be overwritten whole, blank. */
    method CacheBlock(idx: nat, load: bool)
      requires Sound()
      modifies this`nonceCtr, this`file, this`history, this`onDisk, this`cache, this`order, this`reserved, pool
      ensures idx in cache && Kept({idx}) && (load ==> Kept({})) && Paid() && Bounded()
      ensures load ==> View().Data(idx) == old(View()).Data(idx)
      ensures forall i: nat {:trigger View().Data(i)} :: i != idx ==> View().Data(i) == old(View()).Data(i)
      ensures OthersPaid(old(pool.shares), pool.shares)
      ensures old(history) <= history
      ensures order != [] && order[|order| - 1] == idx
    {
      if idx in cache {
        Touch(idx);
        assert View().Ok(nonceCtr, {idx});
      } else {
        MakeRoom();
        BringIn(idx, load);
      }
    }

    method BringIn(idx: nat, load: bool)
      requires Kept({}) && idx !in cache
      modifies this`cache, this`order
      ensures idx in cache && Kept({idx}) && (load ==> Kept({})) && |cache| == old(|cache|) + 1
      ensures load ==> View().Data(idx) == old(View()).Data(idx)
      ensures forall i: nat {:trigger View().Data(i)} :: i != idx ==> View().Data(i) == old(View()).Data(i)
      ensures order != [] && order[|order| - 1] == idx
    {
      ghost var t := View();
      var data: Bytes;
      if load {
        data := LoadBlock(idx);
        assert t.Data(idx) == t.Disk(idx);
      } else {
        data := seq(BLOCK, _ => 0);
      }
      AddBlock(idx, data);
    }

    method AddBlock(idx: nat, data: Bytes)
      requires Kept({}) && idx !in cache && |data| == BLOCK
      modifies this`cache, this`order
      ensures idx in cache && Kept({idx}) && |cache| == old(|cache|) + 1
      ensures data == old(View()).Disk(idx) ==> Kept({})
      ensures View().Data(idx) == data && order != [] && order[|order| - 1] == idx
      ensures forall i: nat {:trigger View().Data(i)} :: i != idx ==> View().Data(i) == old(View()).Data(i)
    {
      ghost var t := View();
      CachedOk(t, nonceCtr, idx, data);
      NewestAdded(order, cache.Keys, idx);
      cache := cache[idx := CachedBlock(data, false)];
      order := order + [idx];
      assert cache.Keys == t.cache.Keys + {idx};
      assert View() == t.(cache := cache);
    }

    /** One step of a write: a chunk that stays inside one block. */
    method WriteChunk(pos: nat, chunk: Bytes)
      requires Sound() && pos % BLOCK + |chunk| <= BLOCK
      modifies this`nonceCtr, this`file, this`history, this`onDisk, this`cache, this`order, this`reserved, pool
      ensures Sound() && IsWritten(old(View()), View(), pos, chunk)
      ensures OthersPaid(old(pool.shares), pool.shares)
      ensures old(history) <= history
    {
      ghost var t := View();
      var idx, within := pos / BLOCK, pos % BLOCK;
      DataIsBlock(t, nonceCtr, {});
      WriteBlock(idx, within, chunk);
      SplicedAtPos(t, View(), pos, chunk);
    }

    method WriteBlock(idx: nat, within: nat, chunk: Bytes)
      requires Sound() && within + |chunk| <= BLOCK == |View().Data(idx)|
      modifies this`nonceCtr, this`file, this`history, this`onDisk, this`cache, this`order, this`reserved, pool
      ensures Sound() && OnlyBlock(old(View()), View(), idx, Spliced(old(View()).Data(idx), within, chunk))
      ensures OthersPaid(old(pool.shares), pool.shares)
      ensures old(history) <= history
    {
      var full := within == 0 && |chunk| == BLOCK;
      if full && idx !in cache && |cache| >= MAX_CACHED_BLOCKS {
        assert Spliced(View().Data(idx), within, chunk) == chunk;
        WriteSlot(idx, chunk, {});
      } else {
        WriteCached(idx, within, chunk, full);
      }
    }

    /** Writes a chunk into the cached block, loading the block first unless all of it is overwritten. */
    method WriteCached(idx: nat, within: nat, chunk: Bytes, full: bool)
      requires Sound() && within + |chunk| <= BLOCK == |View().Data(idx)| && (full ==> within == 0 && |chunk| == BLOCK)
      modifies this`nonceCtr, this`file, this`history, this`onDisk, this`cache, this`order, this`reserved, pool
      ensures Sound()
      ensures OnlyBlock(old(View()), View(), idx, Spliced(old(View()).Data(idx), within, chunk))
      ensures OthersPaid(old(pool.shares), pool.shares)
      ensures old(history) <= history
    {
      ghost var t := View();
      CacheBlock(idx, !full);
      DataIsBlock(View(), nonceCtr, {idx});
      assert Spliced(View().Data(idx), within, chunk) == Spliced(t.Data(idx), within, chunk);
      StoreCached(idx, Spliced(cache[idx].data, within, chunk));
    }

    /** Stores new data in a cached block. */
    method StoreCached(idx: nat, data: Bytes)
      requires Kept({idx}) && idx in cache && |data| == BLOCK
      modifies this`cache
      ensures Kept({}) && cache.Keys == old(cache.Keys) && |cache| == old(|cache|)
      ensures OnlyBlock(old(View()), View(), idx, data)
    {
      ghost var u := View();
      StoredOk(u, nonceCtr, idx, data);
      cache := cache[idx := CachedBlock(data, true)];
      assert cache.Keys == u.cache.Keys;
      SameSize(cache, u.cache);
      assert View() == u.(cache := cache);
    }

    ghost predicate OthersPaid(before: seq<nat>, after: seq<nat>) {
      && |after| == |before|
      && (forall t :: 0 < t < |before| && t != ticket ==> after[t] == before[t])
    }

    /** Writes data at offset, block by block. A write past the end fills the gap with zeros. */
    method WriteAt(offset: U64, data: Bytes) returns (ok: bool)
      requires Valid()
      modifies this`nonceCtr, this`file, this`history, this`onDisk, this`cache, this`order, this`reserved, this`len, this`generation, pool
      ensures Valid()
      ensures ok <==> data == [] || offset + |data| <= U64_MAX
      ensures Contents() == if ok then Written(old(Contents()), offset, data) else old(Contents())
      ensures generation == old(generation) + if ok && data != [] then 1 else 0
      ensures OthersPaid(old(pool.shares), pool.shares)
      ensures old(history) <= history
    {
      if data == [] {
        return true;
      }
      if offset + |data| > U64_MAX {
        return false;
      }
      ghost var t := View();
      WriteChunks(offset, data);
      WrittenContents(t, View(), len, offset, data);
      SetLenInternal(if len > offset + |data| then len else offset + |data|);
      return true;
    }

    method WriteChunks(offset: nat, data: Bytes)
      requires Sound()
      modifies this`nonceCtr, this`file, this`history, this`onDisk, this`cache, this`order, this`reserved, pool
      ensures Sound() && IsWritten(old(View()), View(), offset, data)
      ensures OthersPaid(old(pool.shares), pool.shares)
      ensures old(history) <= history
    {
      ghost var t := View();
      var done := 0;
      while done < |data|
        invariant 0 <= done <= |data|
        invariant Sound() && IsWritten(t, View(), offset, data[..done]) && old(history) <= history
        invariant OthersPaid(old(pool.shares), pool.shares)
      {
        done := WriteNext(t, offset, data, done);
      }
      assert data[..|data|] == data;
    }

    /** Writes as much of the data as fits into the next block. */
    method WriteNext(ghost t: Store, offset: nat, data: Bytes, done: nat) returns (done': nat)
      requires Sound() && done < |data| && IsWritten(t, View(), offset, data[..done])
      modifies this`nonceCtr, this`file, this`history, this`onDisk, this`cache, this`order, this`reserved, pool
      ensures done < done' <= |data|
      ensures Sound() && IsWritten(t, View(), offset, data[..done'])
      ensures OthersPaid(old(pool.shares), pool.shares)
      ensures old(history) <= history
    {
      ghost var u := View();
      var n := InBlock(offset + done, |data| - done);
      done' := done + n;
      WriteChunk(offset + done, data[done..done']);
      WrittenNext(t, u, View(), offset, data, done, n);
    }

    /** Cuts or extends the buffer. Blocks past the new end are forgotten, the rest of the last one is zeroed. */
    method SetLen(n: U64)
      requires Valid()
      modifies this`nonceCtr, this`file, this`history, this`onDisk, this`cache, this`order, this`reserved, this`len, this`generation, pool
      ensures Valid()
      ensures Contents() == Resized(old(Contents()), n)
      ensures generation == old(generation) + 1
      ensures OthersPaid(old(pool.shares), pool.shares)
      ensures old(history) <= history
    {
      ghost var t := View();
      if n < len {
        CutTo(n);
      }
      ResizedContents(t, View(), len, n);
      SetLenInternal(n);
    }

    method CutTo(n: nat)
      requires Sound()
      modifies this`nonceCtr, this`file, this`history, this`onDisk, this`cache, this`order, this`reserved, pool
      ensures Sound()
      ensures IsCut(old(View()), View(), n)
      ensures OthersPaid(old(pool.shares), pool.shares)
      ensures old(history) <= history
    {
      ghost var t := View();
      var keep := (n + BLOCK - 1) / BLOCK;
      Forget(keep);
      var tail := n % BLOCK;
      CutBlocks(t, View(), n, keep, tail);
      if tail != 0 {
        ghost var u := View();
        ZeroTail(keep - 1, tail);
        CutTail(t, u, View(), n, keep, tail);
      }
    }

    /** Forgets every block from keep on. */
    method Forget(keep: nat)
      requires Sound()
      modifies this`onDisk, this`cache, this`order, this`reserved, pool
      ensures Sound()
      ensures HasFirst(old(View()), View(), keep)
      ensures OthersPaid(old(pool.shares), pool.shares)
    {
      ForgottenOk(View(), nonceCtr, keep);
      DropFrom(keep);
      ReleaseSurplus();
      if |onDisk| > keep {
        onDisk := onDisk[..keep];
      }
      assert View() == Forgotten(old(View()), keep);
    }

    method DropFrom(keep: nat)
      requires Kept({})
      modifies this`cache, this`order
      ensures Kept({}) && |cache| <= old(|cache|)
      ensures cache == map i | i in old(cache) && i < keep :: old(cache)[i]
    {
      var doomed: set<nat> := set i | i in cache && i >= keep;
      ghost var t := View();
      while doomed != {}
        invariant Kept({}) && |cache| <= old(|cache|)
        invariant forall i :: i in doomed ==> i in cache && i >= keep
        invariant forall i :: i in cache <==> i in t.cache && (i < keep || i in doomed)
        invariant forall i :: i in cache ==> cache[i] == t.cache[i]
        decreases |doomed|
      {
        var i :| i in doomed;
        DropOne(i);
        doomed := doomed - {i};
      }
    }

    method DropOne(i: nat)
      requires Kept({}) && i in cache
      modifies this`cache, this`order
      ensures Kept({}) && cache == old(cache) - {i} && |cache| < old(|cache|)
    {
      ghost var u := View();
      DroppedOk(u, nonceCtr, i);
      WithoutOk(order, cache.Keys, i);
      cache := cache - {i};
      order := Without(order, i);
      assert u.cache.Keys == cache.Keys + {i};
      assert View() == u.(cache := cache);
    }

    /** Gives back what is reserved beyond the blocks still cached. */
    method ReleaseSurplus()
      requires Paid()
      modifies this`reserved, pool
      ensures Paid() && reserved == if old(reserved) > |cache| then |cache| else old(reserved)
      ensures OthersPaid(old(pool.shares), pool.shares)
    {
      while reserved > |cache|
        invariant Paid() && reserved <= old(reserved)
        invariant reserved < old(reserved) ==> reserved >= |cache|
        invariant OthersPaid(old(pool.shares), pool.shares)
      {
        pool.OthersAct();
        pool.Release(1, ticket);
        reserved := reserved - 1;
      }
    }

    method ZeroTail(idx: nat, tail: nat)
      requires Sound() && tail <= BLOCK
      modifies this`nonceCtr, this`file, this`history, this`onDisk, this`cache, this`order, this`reserved, pool
      ensures Sound()
      ensures TailZeroed(old(View()), View(), idx, tail)
      ensures OthersPaid(old(pool.shares), pool.shares)
      ensures old(history) <= history
    {
      ghost var t := View();
      DataIsBlock(t, nonceCtr, {});
      var blank: Bytes := seq(BLOCK - tail, _ => 0);
      if idx in cache || View().IsOnDisk(idx) {
        CacheBlock(idx, true);
        ghost var u := View();
        DataIsBlock(u, nonceCtr, {});
        assert u.Ok(nonceCtr, {idx});
        StoreCached(idx, Spliced(cache[idx].data, tail, blank));
      }
      assert View().Data(idx) == Spliced(t.Data(idx), tail, blank);
      SplicedAt(t, View(), idx, tail, blank);
    }

    /** Gives every reservation back when the buffer goes away. */
    method Drop()
      requires Valid()
      modifies this`reserved, this`cache, this`order, pool
      ensures pool.Valid() && reserved == 0 && pool.shares == old(pool.shares)[ticket := 0]
      ensures pool.used == old(pool.used) - BLOCK * old(reserved)
    {
      if reserved > 0 {
        SumUpdate(pool.shares, ticket, 0);
        pool.Release(reserved, ticket);
        reserved := 0;
      }
      cache, order := map[], [];
    }

    /** Reads up to |out| bytes from offset on; returns how many there were. */
    method ReadAt(offset: nat, out: array<Byte>) returns (total: nat)
      requires Valid()
      modifies out
      ensures total == if offset >= len then 0 else if out.Length < len - offset then out.Length else len - offset
      ensures out[..total] == if total == 0 then [] else Contents()[offset..offset + total]
      ensures forall k :: total <= k < out.Length ==> out[k] == old(out[k])
    {
      if offset >= len || out.Length == 0 {
        return 0;
      }
      total := if out.Length < len - offset then out.Length else len - offset;
      ReadBlocks(offset, out, total);
      ContentsFrom(View(), len, offset, out[..total]);
    }

    /** Reads block by block. */
    method ReadBlocks(offset: nat, out: array<Byte>, total: nat)
      requires Sound() && total <= out.Length
      modifies out
      ensures forall k :: 0 <= k < total ==> out[k] == View().At(offset + k)
      ensures forall k :: total <= k < out.Length ==> out[k] == old(out[k])
    {
      ghost var v := View();
      var done := 0;
      while done < total
        invariant 0 <= done <= total
        invariant forall k :: 0 <= k < done ==> out[k] == v.At(offset + k)
        invariant forall k :: done <= k < out.Length ==> out[k] == old(out[k])
      {
        var n := InBlock(offset + done, total - done);
        ReadPart(offset, out, done, n);
        done := done + n;
      }
    }

    /** Reads the n bytes that go to position at of out, all of one block. */
    method ReadPart(offset: nat, out: array<Byte>, at: nat, n: nat)
      requires Sound() && at + n <= out.Length && (offset + at) % BLOCK + n <= BLOCK
      modifies out
      ensures forall k :: at <= k < at + n ==> out[k] == View().At(offset + k)
      ensures forall k :: 0 <= k < out.Length && !(at <= k < at + n) ==> out[k] == old(out[k])
    {
      ghost var v := View();
      DataIsBlock(v, nonceCtr, {});
      var idx, within := (offset + at) / BLOCK, (offset + at) % BLOCK;
      var block: Bytes;
      if idx in cache {
        block := cache[idx].data;
      } else if View().IsOnDisk(idx) {
        block := ReadSlot(idx);
      } else {
        block := seq(BLOCK, _ => 0);
        assert block == Zeros(BLOCK);
      }
      assert block == v.Data(idx);
      CopyInto(out, at, block, within, n);
      forall k | at <= k < at + n
        ensures out[k] == v.At(offset + k)
      {
        assert (offset + k) / BLOCK == idx && (offset + k) % BLOCK == within + (k - at);
      }
    }

    static method CopyInto(out: array<Byte>, at: nat, block: Bytes, within: nat, n: nat)
      requires at + n <= out.Length && within + n <= |block|
      modifies out
      ensures forall k :: at <= k < at + n ==> out[k] == block[within + (k - at)]
      ensures forall k :: 0 <= k < out.Length && !(at <= k < at + n) ==> out[k] == old(out[k])
    {
      forall k | at <= k < at + n {
        out[k] := block[within + (k - at)];
      }
    }
  }

  lemma SameSize<K, V>(m: map<K, V>, n: map<K, V>)
    requires m.Keys == n.Keys
    ensures |m| == |n|
  {
    assert |m| == |m.Keys| && |n| == |n.Keys|;
  }
}
