/** The chunk cache that stands between the bsdiff patcher and the old file. */
module LruFile {
  import opened Common

  /** Cached chunk c sits in slot lru[c], except the chunk being added, which has none yet. */
  ghost predicate KeyOk(lru: map<int, int>, allocations: seq<int>, c: int) {
    c in lru ==> c >= 0 && 0 <= lru[c] < |allocations| && allocations[lru[c]] == c
  }

  ghost predicate SlotOk(lru: map<int, int>, allocations: seq<int>, v: int) {
    0 <= v < |allocations| ==> allocations[v] < 0 || (allocations[v] in lru && lru[allocations[v]] == v)
  }

  /**
   * lru and allocations are inverse bijections between cached chunks and used slots; adding is
   * the chunk without a slot, if any.
   */
  ghost predicate Inverse(lru: map<int, int>, allocations: seq<int>, adding: int) {
    && |lru| <= |allocations|
    && (forall c :: c in lru ==> c >= 0)
    && (forall c {:trigger KeyOk(lru, allocations, c)} :: c != adding ==> KeyOk(lru, allocations, c))
    && (forall v {:trigger SlotOk(lru, allocations, v)} :: SlotOk(lru, allocations, v))
    && (forall v {:trigger allocations[v]} :: 0 <= v < |allocations| && adding >= 0 ==> allocations[v] != adding)
  }

  /** While a chunk waits for a slot, some slot is free, whatever was evicted to make room. */
  lemma RoomExists(lru: map<int, int>, allocations: seq<int>, adding: int)
    requires Inverse(lru, allocations, adding) && adding >= 0 && adding in lru
    ensures exists v :: 0 <= v < |allocations| && allocations[v] < 0
  {
    if forall v :: 0 <= v < |allocations| ==> allocations[v] >= 0 {
      forall i, j | 0 <= i < j < |allocations| ensures allocations[i] != allocations[j] {
        assert SlotOk(lru, allocations, i) && SlotOk(lru, allocations, j);
      }
      forall x | x in allocations ensures x in lru.Keys - {adding} {
        var v :| 0 <= v < |allocations| && allocations[v] == x;
        assert SlotOk(lru, allocations, v);
      }
      assert |lru.Keys - {adding}| == |lru| - 1;
      DistinctFits(allocations, lru.Keys - {adding});
    }
  }

  lemma SlotsApart(v: int, w: int, size: nat)
    requires v < w
    ensures v * size + size <= w * size
  {
    MulMonotone(v + 1, w, size);
    MulMonotone(v, v, size);
  }

  lemma AddedInverse(lru: map<int, int>, allocations: seq<int>, key: int)
    requires Inverse(lru, allocations, -1) && key >= 0 && key !in lru && |lru| < |allocations|
    ensures Inverse(lru[key := -1], allocations, key)
  {
    var lru' := lru[key := -1];
    assert lru'.Keys == lru.Keys + {key};
    forall c | c != key ensures KeyOk(lru', allocations, c) {
      assert c in lru ==> KeyOk(lru, allocations, c);
    }
    forall v ensures SlotOk(lru', allocations, v) {
      assert SlotOk(lru, allocations, v);
    }
    forall v | 0 <= v < |allocations| ensures allocations[v] != key {
      assert SlotOk(lru, allocations, v);
    }
  }

  lemma EvictedInverse(lru: map<int, int>, allocations: seq<int>, victim: int)
    requires Inverse(lru, allocations, -1) && victim in lru
    ensures 0 <= lru[victim] < |allocations|
    ensures Inverse(lru - {victim}, allocations[lru[victim] := -1], -1) && |lru - {victim}| == |lru| - 1
  {
    assert KeyOk(lru, allocations, victim);
    var lru', allocations' := lru - {victim}, allocations[lru[victim] := -1];
    assert lru'.Keys == lru.Keys - {victim};
    forall c | c in lru' ensures KeyOk(lru', allocations', c) {
      assert KeyOk(lru, allocations, c);
    }
    forall v ensures SlotOk(lru', allocations', v) {
      assert SlotOk(lru, allocations, v);
    }
  }

  lemma PlacedInverse(lru: map<int, int>, allocations: seq<int>, key: int, slot: int)
    requires Inverse(lru, allocations, key) && key >= 0 && key in lru
    requires 0 <= slot < |allocations| && allocations[slot] < 0
    ensures Inverse(lru[key := slot], allocations[slot := key], -1)
    ensures forall c :: c in lru && c != key ==> lru[c] != slot
  {
    var lru', allocations' := lru[key := slot], allocations[slot := key];
    assert lru'.Keys == lru.Keys;
    forall c | c != -1 ensures KeyOk(lru', allocations', c) {
      assert c != key ==> KeyOk(lru, allocations, c);
    }
    forall v ensures SlotOk(lru', allocations', v) {
      assert SlotOk(lru, allocations, v);
    }
    forall c | c in lru && c != key ensures lru[c] != slot {
      assert KeyOk(lru, allocations, c);
    }
  }

  // ----- what the slots hold

  ghost function ChunkOf(contents: Bytes, size: nat, c: int): (chunk: Bytes)
    requires c * size >= 0
  {
    ReadAt(contents, c * size, size)
  }

  ghost predicate SlotHolds(storage: Bytes, size: nat, slot: int, chunk: Bytes) {
    && 0 <= slot * size && slot * size + size <= |storage| && |chunk| <= size
    && storage[slot * size..slot * size + |chunk|] == chunk
  }

  ghost predicate CacheHolds(lru: map<int, int>, storage: Bytes, contents: Bytes, size: nat) {
    forall c :: c in lru ==> c * size >= 0 && SlotHolds(storage, size, lru[c], ChunkOf(contents, size, c))
  }

  /** Filling one slot leaves what every other slot holds. */
  lemma CacheHoldsAfterLoad(lru0: map<int, int>, storage0: Bytes, lru: map<int, int>, storage: Bytes, contents: Bytes,
      size: nat, key: int)
    requires CacheHolds(lru0, storage0, contents, size) && |storage0| == |storage| && key in lru && key * size >= 0
    requires forall c :: c in lru && c != key ==> c in lru0 && lru[c] == lru0[c] && lru[c] != lru[key]
    requires SlotHolds(storage, size, lru[key], ChunkOf(contents, size, key))
    requires forall i :: 0 <= i < |storage| && !(lru[key] * size <= i < lru[key] * size + size) ==>
      storage[i] == storage0[i]
    ensures CacheHolds(lru, storage, contents, size)
  {
    forall c | c in lru && c != key ensures c * size >= 0
      && SlotHolds(storage, size, lru[c], ChunkOf(contents, size, c)) {
      assert SlotHolds(storage0, size, lru[c], ChunkOf(contents, size, c));
      if lru[c] < lru[key] {
        SlotsApart(lru[c], lru[key], size);
      } else {
        SlotsApart(lru[key], lru[c], size);
      }
      var start, chunk := lru[c] * size, ChunkOf(contents, size, c);
      assert storage[start..start + |chunk|] == storage0[start..start + |chunk|];
    }
  }

  /** Bytes [start, end) of chunk c are the file's bytes from offset c * size + start on. */
  lemma ChunkPiece(contents: Bytes, size: nat, c: int, start: int, end: int)
    requires c * size >= 0 && 0 <= start <= end <= Min(size, |contents| - c * size)
    ensures end <= |ChunkOf(contents, size, c)|
    ensures ChunkOf(contents, size, c)[start..end] == contents[c * size + start..c * size + end]
  {
    var base, chunk := c * size, ChunkOf(contents, size, c);
    SubPiece(contents, base, chunk, start, end);
  }

  lemma SubPiece(storage: Bytes, base: int, chunk: Bytes, start: int, end: int)
    requires 0 <= base <= base + |chunk| <= |storage| && storage[base..base + |chunk|] == chunk
      && 0 <= start <= end <= |chunk|
    ensures storage[base + start..base + end] == chunk[start..end]
  {
    forall k | 0 <= k < end - start ensures storage[base + start..base + end][k] == chunk[start..end][k] {
      assert chunk[start + k] == storage[base..base + |chunk|][start + k];
    }
  }

  method ChunkPosition(offset: nat, size: nat) returns (chunkIndex: nat, start: nat)
    requires size > 0
    ensures start < size && offset == chunkIndex * size + start
  {
    chunkIndex, start := offset / size, offset % size;
  }

  method CopyTo(buf: array<byte>, at: int, src: array<byte>, lo: int, hi: int)
    requires buf != src && 0 <= lo <= hi <= src.Length && 0 <= at && at + hi - lo <= buf.Length
    modifies buf
    ensures buf[..] == old(buf[..])[..at] + src[lo..hi] + old(buf[..])[at + hi - lo..]
  {
    forall i | 0 <= i < hi - lo {
      buf[at + i] := src[lo + i];
    }
  }

  const SEEK_START := 0
  const SEEK_CURRENT := 1
  const SEEK_END := 2

  class File {
    const chunkSize: nat
    const numEntries: nat
    var contents: Bytes
    var size: int
    var offset: int
    const storage: array<byte>
    const allocations: array<int>
    var lru: map<int, int>

    ghost predicate Shape()
      reads this
    {
      && chunkSize > 0 && numEntries > 0
      && allocations.Length == numEntries && storage.Length == numEntries * chunkSize
      && storage as object != allocations
      && size == |contents| && 0 <= offset <= size
    }

    ghost predicate Valid()
      reads this, storage, allocations
    {
      && Shape() && Inverse(lru, allocations[..], -1)
      && CacheHolds(lru, storage[..], contents, chunkSize)
    }

    /** A new cache is not usable until Reset: its slots all claim to hold chunk 0. */
    constructor (chunkSize: nat, numEntries: nat)
      requires chunkSize > 0 && numEntries > 0
      ensures Shape() && fresh(storage) && fresh(allocations)
      ensures this.chunkSize == chunkSize && this.numEntries == numEntries && forall v :: 0 <= v < numEntries ==>
        allocations[v] == 0
    {
      this.chunkSize, this.numEntries := chunkSize, numEntries;
      storage := new byte[numEntries * chunkSize];
      allocations := new int[numEntries](_ => 0);
      contents, size, offset, lru := [], 0, 0, map[];
    }

    /** Attach another file: every slot is released and nothing is cached; the stored bytes stay but are unreachable. */
    method Reset(rs: Bytes)
      requires Shape()
      modifies this, allocations
      ensures Valid() && contents == rs && offset == 0 && lru == map[]
    {
      contents, size, offset := rs, |rs|, 0;
      for i := 0 to allocations.Length
        invariant Shape() && contents == rs && offset == 0
        invariant forall v :: 0 <= v < i ==> allocations[v] == -1
      {
        allocations[i] := -1;
      }
      lru := map[];
    }

    /** Where a seek leads, for the three places it can be counted from. */
    function SeekTarget(delta: int, whence: int): int
      reads this`offset, this`contents
    {
      if whence == SEEK_START then delta else if whence == SEEK_CURRENT then offset + delta else |contents| + delta
    }

    /** A seek outside the file rewinds to 0 and fails; one from no known place fails and stays. */
    method Seek(delta: int, whence: int) returns (ok: bool)
      requires Valid()
      modifies this`offset
      ensures Valid() && ok == (whence in {SEEK_START, SEEK_CURRENT, SEEK_END}
        && 0 <= old(SeekTarget(delta, whence)) <= |contents|)
      ensures offset ==
        if ok then old(SeekTarget(delta, whence)) else if whence in {SEEK_START, SEEK_CURRENT, SEEK_END} then 0
          else old(offset)
    {
      var target;
      if whence == SEEK_START {
        target := delta;
      } else if whence == SEEK_CURRENT {
        target := offset + delta;
      } else if whence == SEEK_END {
        target := size + delta;
      } else {
        return false;
      }
      ok := 0 <= target <= size;
      offset := if ok then target else 0;
    }

    method OnEvict(storageIndex: int)
      requires 0 <= storageIndex < allocations.Length
      modifies allocations
      ensures allocations[..] == old(allocations[..])[storageIndex := -1]
    {
      allocations[storageIndex] := -1;
    }

    /** simplelru's Add of a new key that has no slot yet: at capacity it evicts any one other key. */
    method AddKey(key: int)
      requires Shape() && Inverse(lru, allocations[..], -1) && key >= 0 && key !in lru
      modifies this`lru, allocations
      ensures Shape() && key in lru && Inverse(lru, allocations[..], key)
      ensures forall c :: c in lru && c != key ==> c in old(lru) && lru[c] == old(lru)[c]
    {
      if |lru| == numEntries {
        NonEmpty(lru.Keys);
        var victim :| victim in lru.Keys;
        EvictedInverse(lru, allocations[..], victim);
        OnEvict(lru[victim]);
        lru := lru - {victim};
      }
      AddedInverse(lru, allocations[..], key);
      lru := lru[key := -1];
    }

    method FindFree() returns (storageIndex: int)
      requires Shape()
      ensures storageIndex < 0 ==> forall v :: 0 <= v < allocations.Length ==> allocations[..][v] >= 0
      ensures storageIndex >= 0 ==> storageIndex < allocations.Length && allocations[storageIndex] < 0
    {
      storageIndex := -1;
      for k := 0 to allocations.Length
        invariant forall v :: 0 <= v < k ==> allocations[v] >= 0
      {
        if allocations[k] < 0 {
          storageIndex := k;
          break;
        }
      }
    }

    /** Read chunk key into a slot; the other slots keep their bytes. */
    method Load(key: int, slot: int)
      requires Shape() && 0 <= key * chunkSize && 0 <= slot < numEntries
      modifies storage
      ensures SlotHolds(storage[..], chunkSize, slot, ChunkOf(contents, chunkSize, key))
      ensures forall i :: 0 <= i < storage.Length && !(slot * chunkSize <= i < slot * chunkSize + chunkSize) ==>
        storage[..][i] == old(storage[..])[i]
    {
      SlotsApart(slot, numEntries, chunkSize);
      MulMonotone(0, slot, chunkSize);
      var chunk := ReadAt(contents, key * chunkSize, chunkSize);
      var start := slot * chunkSize;
      forall i | 0 <= i < |chunk| {
        storage[start + i] := chunk[i];
      }
      assert storage[start..start + |chunk|] == chunk;
    }

    /** A miss: the chunk is read into a free slot. The "could not find room" failure cannot happen. */
    method LoadChunk(key: int) returns (start: int)
      requires Valid() && key >= 0 && key !in lru && key * chunkSize >= 0
      modifies this`lru, storage, allocations
      ensures Valid() && key in lru && start == lru[key] * chunkSize
    {
      ghost var lru0, storage0 := lru, storage[..];
      AddKey(key);
      var storageIndex := FindFree();
      RoomExists(lru, allocations[..], key);
      if storageIndex < 0 {
        assert false;
      }
      PlacedInverse(lru, allocations[..], key, storageIndex);
      lru := lru[key := storageIndex];
      allocations[storageIndex] := key;
      Load(key, storageIndex);
      CacheHoldsAfterLoad(lru0, storage0, lru, storage[..], contents, chunkSize, key);
      start := storageIndex * chunkSize;
    }

    /** The storage position of a chunk, read in on a miss. */
    method GetChunk(key: int) returns (start: int)
      requires Valid() && key >= 0
      modifies this`lru, storage, allocations
      ensures Valid() && key * chunkSize >= 0
      ensures var chunk := ChunkOf(contents, chunkSize, key);
        0 <= start <= start + |chunk| <= storage.Length && storage[start..start + |chunk|] == chunk
    {
      MulMonotone(0, key, chunkSize);
      if key in lru {
        start := lru[key] * chunkSize;
      } else {
        start := LoadChunk(key);
      }
      assert SlotHolds(storage[..], chunkSize, lru[key], ChunkOf(contents, chunkSize, key));
    }

    /** buf holds n bytes of the contents from that place on, and behind them what it held before. */
    ghost predicate Filled(buf: Bytes, buf0: Bytes, from: int, n: int)
      reads this`contents
    {
      && 0 <= from && 0 <= n <= |buf0| == |buf| && from + n <= |contents|
      && forall k :: 0 <= k < |buf| ==> buf[k] == if k < n then contents[from + k] else buf0[k]
    }

    lemma FilledIs(buf: Bytes, buf0: Bytes, from: int, n: int)
      requires Filled(buf, buf0, from, n)
      ensures buf == contents[from..from + n] + buf0[n..]
    {
    }

    lemma FilledOn(before: Bytes, after: Bytes, buf0: Bytes, from: int, n: int, copied: int)
      requires Filled(before, buf0, from, n) && 0 <= copied && from + n + copied <= |contents| && n + copied <= |buf0|
      requires after == before[..n] + contents[from + n..from + n + copied] + before[n + copied..]
      ensures Filled(after, buf0, from, n + copied)
    {
    }

    /** One turn of the read loop, behind the n bytes that are there. */
    method ReadMore(buf: array<byte>, n: int, ghost buf0: Bytes, ghost from: int) returns (copied: int, eof: bool)
      requires Valid() && buf != storage && buf as object != allocations && 0 <= n < buf.Length
      requires offset == from + n && Filled(buf[..], buf0, from, n)
      modifies this`lru, this`offset, storage, allocations, buf
      ensures Valid() && 0 <= copied <= buf.Length - n && offset == from + n + copied
      ensures if eof then offset == |contents| && copied < buf.Length - n else copied > 0
      ensures Filled(buf[..], buf0, from, n + copied)
    {
      ghost var before := buf[..];
      copied, eof := ReadChunk(buf, n);
      FilledOn(before, buf[..], buf0, from, n, copied);
    }

    /** Reads as the plain file would: all that was asked for, or up to the end with an end-of-file report. */
    method Read(buf: array<byte>) returns (n: int, eof: bool)
      requires Valid() && buf != storage && buf as object != allocations
      modifies this`lru, this`offset, storage, allocations, buf
      ensures Valid() && n == Min(buf.Length, |contents| - old(offset)) && offset == old(offset) + n
      ensures eof == (buf.Length > |contents| - old(offset))
      ensures buf[..] == contents[old(offset)..offset] + old(buf[..])[n..]
    {
      var remaining := buf.Length;
      n, eof := 0, false;
      while remaining > 0
        invariant Valid() && 0 <= n <= buf.Length && remaining == buf.Length - n && !eof
        invariant offset == old(offset) + n && Filled(buf[..], old(buf[..]), old(offset), n)
        decreases remaining
      {
        var copied;
        copied, eof := ReadMore(buf, n, old(buf[..]), old(offset));
        n, remaining := n + copied, remaining - copied;
        if eof {
          break;
        }
      }
      FilledIs(buf[..], old(buf[..]), old(offset), n);
    }

    /** Where in storage the bytes at the offset are, up to the end of their chunk, of the request, or of the file. */
    method Locate(want: int) returns (lo: int, hi: int, eof: bool)
      requires Valid() && want > 0
      modifies this`lru, storage, allocations
      ensures Valid() && 0 <= lo <= hi <= storage.Length && hi - lo <= Min(want, |contents| - offset)
      ensures if eof then hi - lo == |contents| - offset < want else hi > lo
      ensures storage[lo..hi] == contents[offset..offset + hi - lo]
    {
      var chunkIndex, start := ChunkPosition(offset, chunkSize);
      var chunkStart := chunkIndex * chunkSize;
      var end;
      end, eof := Span(start, want, chunkStart);
      var base := GetChunk(chunkIndex);
      lo, hi := base + start, base + end;
      ChunkPiece(contents, chunkSize, chunkIndex, start, end);
      SubPiece(storage[..], base, ChunkOf(contents, chunkSize, chunkIndex), start, end);
    }

    method Span(start: int, want: int, chunkStart: int) returns (end: int, eof: bool)
      requires Shape() && 0 <= start < chunkSize && want > 0 && 0 <= chunkStart && chunkStart + start <= size
      ensures start <= end <= Min(chunkSize, size - chunkStart) && end - start <= want
      ensures if eof then end == size - chunkStart < start + want else end > start
    {
      end := start + want;
      var chunkEnd := chunkStart + chunkSize;
      var lastChunk := false;
      if chunkEnd > size {
        chunkEnd := size;
        lastChunk := true;
      }
      eof := false;
      if end > chunkEnd - chunkStart {
        end := chunkEnd - chunkStart;
        eof := lastChunk;
      }
    }

    /** One turn of the read loop. */
    method ReadChunk(buf: array<byte>, done: int) returns (copied: int, eof: bool)
      requires Valid() && buf != storage && buf as object != allocations && 0 <= done < buf.Length
      modifies this`lru, this`offset, storage, allocations, buf
      ensures Valid() && 0 <= copied <= buf.Length - done && offset == old(offset) + copied
      ensures if eof then offset == |contents| && copied < buf.Length - done else copied > 0
      ensures buf[..] == old(buf[..])[..done] + contents[old(offset)..offset] + old(buf[..])[done + copied..]
    {
      var lo, hi;
      lo, hi, eof := Locate(buf.Length - done);
      copied := hi - lo;
      ghost var piece, storage0, allocations0 := storage[lo..hi], storage[..], allocations[..];
      CopyTo(buf, done, storage, lo, hi);
      assert storage[..] == storage0 && allocations[..] == allocations0;
      assert piece == contents[offset..offset + copied];
      offset := offset + copied;
    }
  }
}
