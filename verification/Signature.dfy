/** Signatures: made from files, stored as bare hashes, read back, and handed out file by file. */
module Signature {
  import opened Common
  import opened RollingHash
  import opened WsyncOps

  // ----- making one

  method CreateSignature(strong: StrongHash, size: nat, fileIndex: nat, file: Bytes) returns (hashes: seq<BlockHash>)
    requires size > 0
    ensures hashes == FileHashes(strong, size, fileIndex, file)
  {
    hashes := [];
    var pos, blockIndex := 0, 0;
    while pos < |file|
      invariant pos == Offset(blockIndex, size) || (pos == |file| && file != [])
      invariant pos <= |file| && |hashes| == blockIndex && (file == [] ==> pos == 0)
      invariant pos < |file| ==> pos == Offset(blockIndex, size)
      invariant pos == |file| && file != [] ==> blockIndex == NumBlocks(|file|, size)
      invariant forall k :: 0 <= k < blockIndex ==>
        hashes[k] == HashOf(strong, size, fileIndex, k, BlockAt(file, size, k))
      decreases |file| - pos
    {
      var block := ReadAt(file, pos, size);
      var h := HashBlock(strong, size, fileIndex, blockIndex, block);
      hashes := hashes + [h];
      NumBlocksOffsets(|file|, size, blockIndex);
      NumBlocksOffsets(|file|, size, blockIndex + 1);
      pos, blockIndex := pos + |block|, blockIndex + 1;
    }
    if blockIndex == 0 {
      var h := HashBlock(strong, size, fileIndex, blockIndex, []);
      hashes := hashes + [h];
    }
  }

  method HashBlock(strong: StrongHash, size: nat, fileIndex: nat, blockIndex: nat, block: Bytes) returns (h: BlockHash)
    ensures h == HashOf(strong, size, fileIndex, blockIndex, block)
  {
    var weak := BetaHash(block);
    h := BlockHash(fileIndex, blockIndex, weak.hash, 0, strong(block));
    if |block| < size {
      h := h.(shortSize := |block|);
    }
  }

  method ComputeSignature(strong: StrongHash, size: nat, files: seq<Bytes>) returns (hashes: seq<BlockHash>)
    requires size > 0
    ensures hashes == Signature(strong, size, files, 0)
  {
    hashes := [];
    for i := 0 to |files|
      invariant hashes == Signature(strong, size, files[..i], 0)
    {
      var own := CreateSignature(strong, size, i, files[i]);
      SignatureSnoc(strong, size, files[..i], files[i], 0);
      assert files[..i + 1] == files[..i] + [files[i]];
      hashes := hashes + own;
    }
    assert files[..|files|] == files;
  }

  lemma {:induction false} SignatureSnoc(strong: StrongHash, size: nat, files: seq<Bytes>, last: Bytes, first: int)
    requires size > 0
    ensures Signature(strong, size, files + [last], first) == Signature(strong, size, files, first) +
      FileHashes(strong, size, first + |files|, last)
  {
    var own := FileHashes(strong, size, first + |files|, last);
    if files == [] {
      assert [] + [last] == [last];
      assert own + [] == own;
    } else {
      SignatureSnoc(strong, size, files[1..], last, first + 1);
      RestOfSnoc(files, last);
      var head, middle := FileHashes(strong, size, first, files[0]), Signature(strong, size, files[1..], first + 1);
      assert Signature(strong, size, files + [last], first) == head + (middle + own);
      Associate(head, middle, own);
    }
  }

  // ----- storing and reading

  /** All that is stored of a block hash. */
  datatype RawHash = RawHash(weakHash: int, strongHash: Bytes)

  function Raw(h: BlockHash): RawHash {
    RawHash(h.weakHash, h.strongHash)
  }

  function Raws(hashes: seq<BlockHash>): (raws: seq<RawHash>)
    ensures |raws| == |hashes| && forall k :: 0 <= k < |raws| ==> raws[k] == Raw(hashes[k])
  {
    seq(|hashes|, k requires 0 <= k < |hashes| => Raw(hashes[k]))
  }

  /** What is known of a hash from the container: its file, its place in it, and its size if short. */
  datatype Slot = Slot(fileIndex: int, blockIndex: int, shortSize: int)

  function FileSlots(fileIndex: int, fileSize: nat, size: nat): (slots: seq<Slot>)
    requires size > 0
    ensures |slots| == if fileSize == 0 then 1 else NumBlocks(fileSize, size)
  {
    if fileSize == 0 then [Slot(fileIndex, 0, 0)]
    else seq(NumBlocks(fileSize, size), b requires 0 <= b => Slot(fileIndex, b, if Offset(b + 1, size) > fileSize
      then fileSize % size else 0))
  }

  function Slots(sizes: seq<nat>, size: nat, first: int): seq<Slot>
    requires size > 0
  {
    if sizes == [] then [] else FileSlots(first, sizes[0], size) + Slots(sizes[1..], size, first + 1)
  }

  function Restore(slot: Slot, raw: RawHash): BlockHash {
    BlockHash(slot.fileIndex, slot.blockIndex, raw.weakHash, slot.shortSize, raw.strongHash)
  }

  /** hashes is what the raws from at on give in these slots, as far as they go. */
  ghost predicate Restored(hashes: seq<BlockHash>, slots: seq<Slot>, raws: seq<RawHash>, at: nat) {
    at <= |raws| && |hashes| == Min(|slots|, |raws| - at) && forall k :: 0 <= k < |hashes| ==>
      hashes[k] == Restore(slots[k], raws[at + k])
  }

  lemma RestoredAppend(a: seq<BlockHash>, b: seq<BlockHash>, s: seq<Slot>, t: seq<Slot>, raws: seq<RawHash>, at: nat)
    requires Restored(a, s, raws, at) && Restored(b, t, raws, at + |a|)
    ensures Restored(a + b, s + t, raws, at)
  {
    forall k | 0 <= k < |a + b| ensures (a + b)[k] == Restore((s + t)[k], raws[at + k]) {
      if k >= |a| {
        assert b[k - |a|] == Restore(t[k - |a|], raws[at + |a| + (k - |a|)]);
      }
    }
  }

  /** The hashes of one file; reading stops where the stream does. */
  method ReadFileHashes(fileIndex: nat, fileSize: nat, size: nat, raws: seq<RawHash>, at: nat)
    returns (hashes: seq<BlockHash>)
    requires size > 0 && at <= |raws|
    ensures Restored(hashes, FileSlots(fileIndex, fileSize, size), raws, at)
  {
    hashes := [];
    ghost var slots := FileSlots(fileIndex, fileSize, size);
    var numBlocks := NumBlocks(fileSize, size);
    if numBlocks == 0 {
      if at == |raws| {
        return;
      }
      hashes := [BlockHash(fileIndex, 0, raws[at].weakHash, 0, raws[at].strongHash)];
    }
    var blockIndex := 0;
    while blockIndex < numBlocks && at + blockIndex < |raws|
      invariant 0 <= blockIndex <= numBlocks && (numBlocks > 0 ==> |hashes| == blockIndex && at + blockIndex <= |raws|)
      invariant numBlocks > 0 ==> forall k :: 0 <= k < blockIndex ==> hashes[k] == Restore(slots[k], raws[at + k])
      invariant numBlocks == 0 ==> Restored(hashes, slots, raws, at)
    {
      var shortSize := 0;
      OffsetIsProduct(blockIndex + 1, size);
      if (blockIndex + 1) * size > fileSize {
        shortSize := fileSize % size;
      }
      var raw := raws[at + blockIndex];
      hashes := hashes + [BlockHash(fileIndex, blockIndex, raw.weakHash, shortSize, raw.strongHash)];
      blockIndex := blockIndex + 1;
    }
  }

  /**
   * ReadSignature, from the file sizes in the container and the stored hashes; a stream that ends early gives fewer.
   */
  method ReadSignature(sizes: seq<nat>, size: nat, raws: seq<RawHash>) returns (hashes: seq<BlockHash>)
    requires size > 0
    ensures Restored(hashes, Slots(sizes, size, 0), raws, 0)
  {
    hashes := [];
    for i := 0 to |sizes|
      invariant Restored(hashes, Slots(sizes[..i], size, 0), raws, 0)
    {
      var own := ReadFileHashes(i, sizes[i], size, raws, |hashes|);
      RestoredAppend(hashes, own, Slots(sizes[..i], size, 0), FileSlots(i, sizes[i], size), raws, 0);
      SlotsSnoc(sizes[..i], sizes[i], size, 0);
      assert sizes[..i + 1] == sizes[..i] + [sizes[i]];
      hashes := hashes + own;
    }
    assert sizes[..|sizes|] == sizes;
  }

  lemma {:induction false} SlotsSnoc(sizes: seq<nat>, last: nat, size: nat, first: int)
    requires size > 0
    ensures Slots(sizes + [last], size, first) == Slots(sizes, size, first) + FileSlots(first + |sizes|, last, size)
  {
    var own := FileSlots(first + |sizes|, last, size);
    if sizes == [] {
      assert [] + [last] == [last];
      assert own + [] == own;
    } else {
      SlotsSnoc(sizes[1..], last, size, first + 1);
      RestOfSnoc(sizes, last);
      var head, middle := FileSlots(first, sizes[0], size), Slots(sizes[1..], size, first + 1);
      assert Slots(sizes + [last], size, first) == head + (middle + own);
      Associate(head, middle, own);
    }
  }

  /** The container tells the size of a short last block. */
  lemma ShortSizeKnown(file: Bytes, size: nat, b: nat)
    requires size > 0 && b < NumBlocks(|file|, size)
    ensures var block := BlockAt(file, size, b);
      (if |block| < size then |block| else 0) == if Offset(b + 1, size) > |file| then |file| % size else 0
  {
    NumBlocksOffsets(|file|, size, b);
    OffsetIsProduct(b, size);
    if Offset(b + 1, size) > |file| {
      ShortTail(|file|, size, b);
    }
  }

  lemma FileRoundTrip(strong: StrongHash, size: nat, fileIndex: int, file: Bytes)
    requires size > 0
    ensures var slots, hashes := FileSlots(fileIndex, |file|, size), FileHashes(strong, size, fileIndex, file);
      |slots| == |hashes| && forall b :: 0 <= b < |hashes| ==> Restore(slots[b], Raw(hashes[b])) == hashes[b]
  {
    var slots, hashes := FileSlots(fileIndex, |file|, size), FileHashes(strong, size, fileIndex, file);
    forall b | 0 <= b < |hashes| ensures Restore(slots[b], Raw(hashes[b])) == hashes[b] {
      if file != [] {
        ShortSizeKnown(file, size, b);
      }
    }
  }

  /** The slots of the files fit the hashes of their signature. */
  lemma {:induction false} SlotsFit(strong: StrongHash, size: nat, files: seq<Bytes>, first: int)
    requires size > 0
    ensures var slots, hashes := Slots(Sizes(files), size, first), Signature(strong, size, files, first);
      |slots| == |hashes| && forall b :: 0 <= b < |hashes| ==> Restore(slots[b], Raw(hashes[b])) == hashes[b]
  {
    if files != [] {
      FileRoundTrip(strong, size, first, files[0]);
      SlotsFit(strong, size, files[1..], first + 1);
      assert Sizes(files)[1..] == Sizes(files[1..]);
    }
  }

  /**
   * Storing only the weak and strong hashes loses nothing: with the sizes of the files,
   * reading gives the same signature.
   */
  lemma SignatureRoundTrip(strong: StrongHash, size: nat, files: seq<Bytes>, read: seq<BlockHash>)
    requires size > 0 && Restored(read, Slots(Sizes(files), size, 0), Raws(Signature(strong, size, files, 0)), 0)
    ensures read == Signature(strong, size, files, 0)
  {
    SlotsFit(strong, size, files, 0);
  }

  // ----- each file's own hashes

  /** How many hashes a file of this size has. */
  function HashCount(fileSize: nat, size: nat): (n: nat)
    requires size > 0
    ensures n > 0
  {
    if fileSize == 0 then 1 else NumBlocks(fileSize, size)
  }

  /** Where the hashes of file i start. */
  function HashStart(sizes: seq<nat>, size: nat, i: nat): nat
    requires size > 0 && i <= |sizes|
  {
    if i == 0 then 0 else HashStart(sizes, size, i - 1) + HashCount(sizes[i - 1], size)
  }

  type HashGroups = map<nat, seq<BlockHash>>

  /** The group of file i is its stretch of the hashes; an empty file has none. */
  ghost predicate GroupRight(groups: HashGroups, sizes: seq<nat>, size: nat, hashes: seq<BlockHash>, i: nat)
    requires size > 0 && i < |sizes| && HashStart(sizes, size, |sizes|) == |hashes|
  {
    HashesWithin(sizes, size, i);
    if sizes[i] == 0 then i !in groups
    else i in groups && groups[i] == hashes[HashStart(sizes, size, i)..HashStart(sizes, size, i + 1)]
  }

  lemma {:induction false} HashesWithin(sizes: seq<nat>, size: nat, i: nat)
    requires size > 0 && i < |sizes|
    ensures HashStart(sizes, size, i) <= HashStart(sizes, size, i + 1) <= HashStart(sizes, size, |sizes|)
    decreases |sizes| - i
  {
    if i + 1 < |sizes| {
      HashesWithin(sizes, size, i + 1);
    }
  }

  datatype Grouping = Groups(groups: HashGroups) | WrongCount | Panics

  /** A slice of the hashes may reach behind their length, but not behind what they are stored in. */
  ghost predicate OutOfBounds(sizes: seq<nat>, size: nat, stored: seq<BlockHash>, i: nat)
    requires size > 0 && i < |sizes|
  {
    sizes[i] > 0 && HashStart(sizes, size, i + 1) > |stored|
  }

  /**
   * ComputeHashInfo, on the first length of the hashes stored. It goes through exactly when there is the right number
   * of hashes for the container. Too few are an error if every slice still lies within what is stored, and a panic
   * otherwise.
   */
  method ComputeHashInfo(paths: seq<string>, sizes: seq<nat>, size: nat, stored: seq<BlockHash>, length: nat)
    returns (r: Grouping)
    requires size > 0 && |paths| == |sizes| && Distinct(paths) && length <= |stored|
    ensures r.Groups? <==> HashStart(sizes, size, |sizes|) == length
    ensures r.Panics? <==> exists i :: 0 <= i < |sizes| && OutOfBounds(sizes, size, stored, i)
    ensures r.Groups? ==> forall i :: 0 <= i < |sizes| ==> GroupRight(r.groups, sizes, size, stored[..length], i)
  {
    var pathToFileIndex: map<string, nat> := map[];
    for i := 0 to |paths|
      invariant forall j :: 0 <= j < i ==> paths[j] in pathToFileIndex && pathToFileIndex[paths[j]] == j
    {
      pathToFileIndex := pathToFileIndex[paths[i] := i];
    }
    var hashGroups: HashGroups := map[];
    var hashIndex := 0;
    for i := 0 to |sizes|
      invariant hashIndex == HashStart(sizes, size, i) && (forall j :: j in hashGroups ==> j < i)
      invariant forall j :: 0 <= j < i ==> !OutOfBounds(sizes, size, stored, j)
      invariant HashStart(sizes, size, |sizes|) == length ==>
        forall j :: 0 <= j < i ==> GroupRight(hashGroups, sizes, size, stored[..length], j)
    {
      ghost var before := hashGroups;
      HashesWithin(sizes, size, i);
      var fileIndex := pathToFileIndex[paths[i]];
      var count := HashCount(sizes[i], size);
      if sizes[i] != 0 {
        if hashIndex + count > |stored| {
          assert OutOfBounds(sizes, size, stored, i);
          return Panics;
        }
        hashGroups := hashGroups[fileIndex := stored[hashIndex..hashIndex + count]];
      }
      hashIndex := hashIndex + count;
      if HashStart(sizes, size, |sizes|) == length {
        SliceOfPrefix(stored, length, HashStart(sizes, size, i), HashStart(sizes, size, i + 1));
        forall j | 0 <= j < i + 1
          ensures GroupRight(hashGroups, sizes, size, stored[..length], j)
        {
          assert j < i ==> GroupRight(before, sizes, size, stored[..length], j);
        }
      }
    }
    if hashIndex != length {
      return WrongCount;
    }
    r := Groups(hashGroups);
  }

  lemma SliceOfPrefix<T>(s: seq<T>, n: nat, lo: nat, hi: nat)
    requires lo <= hi <= n <= |s|
    ensures s[..n][lo..hi] == s[lo..hi]
  {
  }

  /** In the signature of these files, file i's stretch is its own hashes. */
  lemma {:induction false} SignatureStretch(strong: StrongHash, size: nat, files: seq<Bytes>, first: int, i: nat)
    requires size > 0 && i < |files|
    ensures var sizes, all := Sizes(files), Signature(strong, size, files, first);
      && HashStart(sizes, size, |sizes|) == |all| && HashStart(sizes, size, i) <= HashStart(sizes, size, i + 1) <= |all|
      && all[HashStart(sizes, size, i)..HashStart(sizes, size, i + 1)] == FileHashes(strong, size, first + i, files[i])
    decreases |files|
  {
    var n := |files| - 1;
    var sizes, all := Sizes(files), Signature(strong, size, files, first);
    var rest, own := Signature(strong, size, files[..n], first), FileHashes(strong, size, first + n, files[n]);
    assert all == rest + own by {
      SignatureSnoc(strong, size, files[..n], files[n], first);
      assert files[..n] + [files[n]] == files;
    }
    assert sizes[..n] == Sizes(files[..n]);
    SignatureLength(strong, size, files[..n], first);
    SignatureLength(strong, size, files, first);
    HashStartPrefix(sizes, size, n, n);
    HashesWithin(sizes, size, i);
    SliceOfSum(rest, own);
    if i < n {
      SignatureStretch(strong, size, files[..n], first, i);
      HashStartPrefix(sizes, size, n, i);
      HashStartPrefix(sizes, size, n, i + 1);
      assert HashStart(sizes, size, i + 1) <= |rest|;
    }
  }

  lemma {:induction false} HashStartPrefix(sizes: seq<nat>, size: nat, n: nat, i: nat)
    requires size > 0 && i <= n <= |sizes|
    ensures HashStart(sizes[..n], size, i) == HashStart(sizes, size, i)
  {
    if i > 0 {
      HashStartPrefix(sizes, size, n, i - 1);
    }
  }

  lemma {:induction false} SignatureLength(strong: StrongHash, size: nat, files: seq<Bytes>, first: int)
    requires size > 0
    ensures |Signature(strong, size, files, first)| == HashStart(Sizes(files), size, |files|)
  {
    if files != [] {
      var n := |files| - 1;
      SignatureLength(strong, size, files[..n], first);
      SignatureSnoc(strong, size, files[..n], files[n], first);
      assert files[..n] + [files[n]] == files && Sizes(files)[..n] == Sizes(files[..n]);
      HashStartPrefix(Sizes(files), size, n, n);
    }
  }

  lemma OwnGroup(strong: StrongHash, size: nat, files: seq<Bytes>, all: seq<BlockHash>, groups: HashGroups, i: nat)
    requires size > 0 && i < |files| && all == Signature(strong, size, files, 0)
    requires HashStart(Sizes(files), size, |files|) == |all| && GroupRight(groups, Sizes(files), size, all, i)
    ensures if files[i] == [] then i !in groups else i in groups && groups[i] == FileHashes(strong, size, i, files[i])
  {
    SignatureStretch(strong, size, files, 0, i);
    assert Sizes(files)[i] == |files[i]|;
  }

  /**
   * From disk to disk: after storing and reading a signature, every non-empty file gets exactly its own block hashes.
   */
  lemma EachFileItsOwn(strong: StrongHash, size: nat, files: seq<Bytes>, read: seq<BlockHash>, groups: HashGroups,
      i: nat)
    requires size > 0 && i < |files| && Restored(read, Slots(Sizes(files), size, 0),
      Raws(Signature(strong, size, files, 0)), 0)
    requires HashStart(Sizes(files), size, |files|) == |read| && GroupRight(groups, Sizes(files), size, read, i)
    ensures if files[i] == [] then i !in groups else i in groups && groups[i] == FileHashes(strong, size, i, files[i])
  {
    SignatureRoundTrip(strong, size, files, read);
    OwnGroup(strong, size, files, read, groups, i);
  }
}
