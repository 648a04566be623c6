/** Blocks, signatures and sync operations, and what applying an operation produces. */
module WsyncOps {
  import opened Common
  import opened RollingHash

  datatype Operation = BlockRange(fileIndex: int, blockIndex: int, blockSpan: int) | Data(data: Bytes)

  datatype BlockHash = BlockHash(fileIndex: int, blockIndex: int, weakHash: int, shortSize: int, strongHash: Bytes)

  /** The strong hash: any function; what is assumed of it is stated where it is used. */
  type StrongHash = Bytes -> Bytes

  // ----- blocks

  function BlockAt(file: Bytes, size: nat, i: nat): (block: Bytes)
    ensures |block| <= size
  {
    ReadAt(file, Offset(i, size), size)
  }

  function Sizes(files: seq<Bytes>): (sizes: seq<nat>)
    ensures |sizes| == |files| && forall i :: 0 <= i < |files| ==> sizes[i] == |files[i]|
  {
    seq(|files|, i requires 0 <= i < |files| => |files[i]|)
  }

  /** Number of blocks of a file; an empty file has none. */
  function NumBlocks(fileSize: nat, size: nat): (n: nat)
    requires size > 0
    ensures n == 0 <==> fileSize == 0
  {
    CeilDivZero(fileSize, size);
    CeilDiv(fileSize, size)
  }

  /** The size of a block by its index: full, or what is left of the file. */
  function ComputeBlockSize(fileSize: nat, blockIndex: int, size: nat): int
    requires size > 0
  {
    if size * (blockIndex + 1) > fileSize then fileSize % size else size
  }

  lemma CeilDivZero(n: nat, size: nat)
    requires size > 0
    ensures CeilDiv(n, size) == 0 <==> n == 0
  {
    if n > 0 {
      CeilDivBounds(n, size);
    }
  }

  lemma NumBlocksOffsets(fileSize: nat, size: nat, i: nat)
    requires size > 0
    ensures i < NumBlocks(fileSize, size) <==> Offset(i, size) < fileSize
  {
    OffsetIsProduct(i, size);
    if fileSize > 0 {
      var n := NumBlocks(fileSize, size);
      CeilDivBounds(fileSize, size);
      if i < n {
        MulMonotone(i, n - 1, size);
      } else {
        MulMonotone(n, i, size);
      }
    }
  }

  function HashOf(strong: StrongHash, size: nat, fileIndex: int, blockIndex: int, block: Bytes): BlockHash {
    BlockHash(fileIndex, blockIndex, BetaOf(block).hash, if |block| < size then |block| else 0, strong(block))
  }

  /** The hashes of one file: one for each block, and one of the empty block for an empty file. */
  function FileHashes(strong: StrongHash, size: nat, fileIndex: int, file: Bytes): (hashes: seq<BlockHash>)
    requires size > 0
    ensures |hashes| == if file == [] then 1 else NumBlocks(|file|, size)
  {
    seq(if file == [] then 1 else NumBlocks(|file|, size),
      i requires 0 <= i => HashOf(strong, size, fileIndex, i, BlockAt(file, size, i)))
  }

  /** The signature of files, numbered from first on. */
  function Signature(strong: StrongHash, size: nat, files: seq<Bytes>, first: int): seq<BlockHash>
    requires size > 0
  {
    if files == [] then []
    else FileHashes(strong, size, first, files[0]) + Signature(strong, size, files[1..], first + 1)
  }

  /** A signature entry names a real block of a real file (block 0 of an empty file included). */
  ghost predicate Names(strong: StrongHash, size: nat, files: seq<Bytes>, h: BlockHash)
    requires size > 0
  {
    && 0 <= h.fileIndex < |files| && 0 <= h.blockIndex
    && (var block := BlockAt(files[h.fileIndex], size, h.blockIndex);
        h.strongHash == strong(block) && h.shortSize == (if |block| < size then |block| else 0))
    && (files[h.fileIndex] != [] ==> Offset(h.blockIndex, size) < |files[h.fileIndex]|)
  }

  lemma {:induction false} SignatureNames(strong: StrongHash, size: nat, files: seq<Bytes>, done: nat)
    requires size > 0 && done <= |files|
    ensures forall h :: h in Signature(strong, size, files[done..], done) ==> Names(strong, size, files, h)
    decreases |files| - done
  {
    if done < |files| {
      SignatureNames(strong, size, files, done + 1);
      forall i | 0 <= i < NumBlocks(|files[done]|, size) ensures Offset(i, size) < |files[done]| {
        NumBlocksOffsets(|files[done]|, size, i);
      }
      assert files[done..][1..] == files[done + 1..];
    }
  }

  // ----- operations

  ghost predicate ValidOp(files: seq<Bytes>, size: nat, op: Operation) {
    op.BlockRange? ==>
      && 0 <= op.fileIndex < |files| && 0 <= op.blockIndex && 1 <= op.blockSpan
      && Offset(op.blockIndex + op.blockSpan - 1, size) < |files[op.fileIndex]|
  }

  /**
   * The bytes an operation stands for: its data, or the file from its first block to the end of
   * its last block or of the file.
   */
  function OpBytes(files: seq<Bytes>, size: nat, op: Operation): Bytes {
    match op
    case Data(d) => d
    case BlockRange(f, i, span) =>
      if 0 <= f < |files| && 0 <= i && 0 <= span then ReadAt(files[f], Offset(i, size), Offset(span, size)) else []
  }

  /**
   * ApplySingleFull: it works out the number of bytes to copy, with a short last block when that crosses the end
   * of the file. Ranges that reach behind the file, or have no block, give what the file has of them.
   */
  method ApplySingle(files: seq<Bytes>, size: nat, op: Operation, output: Bytes) returns (output': Bytes)
    requires size > 0 && (op.BlockRange? ==> 0 <= op.fileIndex < |files| && 0 <= op.blockIndex)
    ensures output' == output + OpBytes(files, size, op)
  {
    match op
    case BlockRange(fileIndex, blockIndex, blockSpan) =>
      var fileSize := |files[fileIndex]|;
      var fixedSize := (blockSpan - 1) * size;
      var lastIndex := blockIndex + (blockSpan - 1);
      var lastSize := size;
      if size * (lastIndex + 1) > fileSize {
        lastSize := fileSize % size;
      }
      CopyAny(files[fileIndex], size, blockIndex, blockSpan);
      var opSize := fixedSize + lastSize;
      assert opSize == OpSize(fileSize, size, blockIndex, blockSpan);
      output' := output + ReadAt(files[fileIndex], size * blockIndex, if opSize < 0 then 0 else opSize);
    case Data(data) =>
      output' := output + data;
  }

  /** What ApplySingle asks for reaches exactly to the end of the last block or of the file. */
  lemma CopySize(fileSize: nat, size: nat, blockIndex: nat, blockSpan: nat)
    requires size > 0 && blockSpan >= 1 && Offset(blockIndex + blockSpan - 1, size) < fileSize
    ensures var lastIndex := blockIndex + (blockSpan - 1);
      var lastSize := if size * (lastIndex + 1) > fileSize then fileSize % size else size;
      && size * blockIndex == Offset(blockIndex, size)
      && 0 <= (blockSpan - 1) * size + lastSize == Min(Offset(blockSpan, size), fileSize - Offset(blockIndex, size))
  {
    var last := blockIndex + blockSpan - 1;
    OffsetAdds(blockIndex, blockSpan - 1, size);
    OffsetIsProduct(blockIndex, size);
    OffsetIsProduct(blockSpan - 1, size);
    OffsetIsProduct(last, size);
    assert size * (last + 1) == last * size + size;
    assert size * blockIndex == blockIndex * size;
    if size * (last + 1) > fileSize {
      ShortTail(fileSize, size, last);
    }
  }

  /** The number of bytes ApplySingle asks for; not more than none means none. */
  function OpSize(fileSize: nat, size: nat, blockIndex: nat, blockSpan: int): int
    requires size > 0
  {
    (blockSpan - 1) * size + if size * (blockIndex + (blockSpan - 1) + 1) > fileSize then fileSize % size else size
  }

  lemma CopyNone(fileSize: nat, size: nat, blockIndex: nat, blockSpan: int)
    requires size > 0 && blockSpan <= 0
    ensures OpSize(fileSize, size, blockIndex, blockSpan) <= 0
  {
    MulMonotone(blockSpan - 1, -1, size);
  }

  /** The bytes asked for are those the file has of the range. */
  ghost predicate CopiesRange(file: Bytes, size: nat, blockIndex: nat, blockSpan: int)
    requires size > 0
  {
    var opSize := OpSize(|file|, size, blockIndex, blockSpan);
    ReadAt(file, Offset(blockIndex, size), if opSize < 0 then 0 else opSize)
    == if blockSpan < 0 then [] else ReadAt(file, Offset(blockIndex, size), Offset(blockSpan, size))
  }

  lemma CopyInside(file: Bytes, size: nat, blockIndex: nat, blockSpan: nat)
    requires size > 0 && blockSpan >= 1 && Offset(blockIndex + blockSpan - 1, size) < |file|
    ensures CopiesRange(file, size, blockIndex, blockSpan)
  {
    CopySize(|file|, size, blockIndex, blockSpan);
  }

  lemma CopyToEnd(file: Bytes, size: nat, blockIndex: nat, blockSpan: nat)
    requires size > 0 && blockSpan >= 1 && Offset(blockIndex + blockSpan - 1, size) >= |file|
    ensures CopiesRange(file, size, blockIndex, blockSpan)
  {
    CopyBehind(|file|, size, blockIndex, blockSpan);
  }

  /** Whatever the range, the bytes copied are those the file has of it. */
  lemma CopyAny(file: Bytes, size: nat, blockIndex: nat, blockSpan: int)
    requires size > 0
    ensures size * blockIndex == Offset(blockIndex, size) && CopiesRange(file, size, blockIndex, blockSpan)
  {
    OffsetIsProduct(blockIndex, size);
    assert size * blockIndex == blockIndex * size;
    if blockSpan <= 0 {
      CopyNone(|file|, size, blockIndex, blockSpan);
    } else if Offset(blockIndex + blockSpan - 1, size) < |file| {
      CopyInside(file, size, blockIndex, blockSpan);
    } else {
      CopyToEnd(file, size, blockIndex, blockSpan);
    }
  }

  /** A range whose last block lies behind the file asks for all that is left of it. */
  lemma CopyBehind(fileSize: nat, size: nat, blockIndex: nat, blockSpan: nat)
    requires size > 0 && blockSpan >= 1 && Offset(blockIndex + blockSpan - 1, size) >= fileSize
    ensures OpSize(fileSize, size, blockIndex, blockSpan) >= 0
    ensures Offset(blockIndex, size) + OpSize(fileSize, size, blockIndex, blockSpan) >= fileSize
    ensures Offset(blockIndex, size) + Offset(blockSpan, size) >= fileSize
  {
    OffsetAdds(blockIndex, blockSpan - 1, size);
    OffsetIsProduct(blockSpan - 1, size);
  }

  lemma ShortTail(fileSize: nat, size: nat, last: nat)
    requires size > 0 && last * size < fileSize < last * size + size
    ensures fileSize % size == fileSize - last * size
  {
    ModCongruent(fileSize, fileSize - last * size, last, size);
  }

  function OpsBytes(files: seq<Bytes>, size: nat, ops: seq<Operation>): Bytes {
    if ops == [] then [] else OpsBytes(files, size, ops[..|ops| - 1]) + OpBytes(files, size, ops[|ops| - 1])
  }

  lemma OpsBytesSnoc(files: seq<Bytes>, size: nat, ops: seq<Operation>, op: Operation)
    ensures OpsBytes(files, size, ops + [op]) == OpsBytes(files, size, ops) + OpBytes(files, size, op)
  {
    assert (ops + [op])[..|ops|] == ops;
  }

  lemma {:induction false} OpsBytesAppend(files: seq<Bytes>, size: nat, a: seq<Operation>, b: seq<Operation>)
    ensures OpsBytes(files, size, a + b) == OpsBytes(files, size, a) + OpsBytes(files, size, b)
  {
    if b == [] {
      assert a + b == a;
    } else {
      var n := |b| - 1;
      OpsBytesAppend(files, size, a, b[..n]);
      OpsBytesGrow(files, size, a, b[..n], b[n]);
      assert b[..n] + [b[n]] == b;
    }
  }

  lemma OpsBytesGrow(files: seq<Bytes>, size: nat, a: seq<Operation>, b: seq<Operation>, op: Operation)
    requires OpsBytes(files, size, a + b) == OpsBytes(files, size, a) + OpsBytes(files, size, b)
    ensures OpsBytes(files, size, a + (b + [op])) == OpsBytes(files, size, a) + OpsBytes(files, size, b + [op])
  {
    OpsBytesSnoc(files, size, b, op);
    OpsBytesSnoc(files, size, a + b, op);
    Associate(a, b, [op]);
    Associate(OpsBytes(files, size, a), OpsBytes(files, size, b), OpBytes(files, size, op));
  }

  lemma OneBlockBytes(files: seq<Bytes>, size: nat, f: int, i: int)
    requires ValidOp(files, size, BlockRange(f, i, 1))
    ensures OpBytes(files, size, BlockRange(f, i, 1)) == BlockAt(files[f], size, i)
  {
    assert Offset(1, size) == size;
  }

  lemma ReadsJoin(s: Bytes, at: nat, n: nat, m: nat)
    ensures ReadAt(s, at, n + m) == ReadAt(s, at, n) + ReadAt(s, at + n, m)
  {
  }

  /** Joining a range with the block that follows it changes nothing about the bytes. */
  lemma RangesJoin(files: seq<Bytes>, size: nat, f: int, i: int, span: int)
    requires ValidOp(files, size, BlockRange(f, i, span)) && ValidOp(files, size, BlockRange(f, i + span, 1))
    ensures ValidOp(files, size, BlockRange(f, i, span + 1))
    ensures OpBytes(files, size, BlockRange(f, i, span + 1)) == OpBytes(files, size, BlockRange(f, i, span)) +
      OpBytes(files, size, BlockRange(f, i + span, 1))
  {
    assert i + (span + 1) - 1 == i + span + 1 - 1;
    RangeBytesJoin(files, size, f, i, span);
  }

  lemma RangeBytesJoin(files: seq<Bytes>, size: nat, f: nat, i: nat, span: nat)
    requires f < |files|
    ensures OpBytes(files, size, BlockRange(f, i, span + 1)) == OpBytes(files, size, BlockRange(f, i, span)) +
      OpBytes(files, size, BlockRange(f, i + span, 1))
  {
    RangeBytes(files, size, f, i, span);
    RangeBytes(files, size, f, i, span + 1);
    RangeBytes(files, size, f, i + span, 1);
    OffsetAdds(i, span, size);
    OffsetAdds(span, 1, size);
    ReadsJoin(files[f], Offset(i, size), Offset(span, size), Offset(1, size));
  }

  lemma RangeBytes(files: seq<Bytes>, size: nat, f: nat, i: nat, span: nat)
    requires f < |files|
    ensures OpBytes(files, size, BlockRange(f, i, span)) == ReadAt(files[f], Offset(i, size), Offset(span, size))
  {
  }
}
