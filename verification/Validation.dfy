/** Validating a file against its signed hashes: blocks cut from any writes, one wound for each, joined and sent on. */
module Validation {
  import opened Common
  import opened RollingHash
  import opened WsyncOps
  import opened Wounds

  /** Validates the blocks of one file, in order. */
  class FileValidator {
    const strong: StrongHash
    const size: nat
    const fileIndex: nat
    const fileSize: nat
    /** The file's hashes from the signature; none for an empty file. */
    const group: seq<BlockHash>
    var blockIndex: nat
    var wounds: seq<Wound>
    ghost var seen: seq<Bytes>

    ghost predicate Valid()
      reads this
    {
      && size > 0 && blockIndex == |seen| == |wounds|
      && forall k :: 0 <= k < |seen| ==> wounds[k] == WoundFor(k, seen[k])
    }

    constructor (strong: StrongHash, size: nat, fileIndex: nat, fileSize: nat, group: seq<BlockHash>)
      requires size > 0
      ensures Valid() && seen == [] && this.strong == strong && this.size == size && this.fileIndex == fileIndex
      ensures this.fileSize == fileSize && this.group == group
    {
      this.strong, this.size, this.fileIndex, this.fileSize, this.group := strong, size, fileIndex, fileSize, group;
      blockIndex, wounds, seen := 0, [], [];
    }

    /** The block is the one that was signed, as far as its hashes tell. */
    predicate Matches(k: nat, data: Bytes) {
      k < |group| && group[k].weakHash == BetaOf(data).hash && group[k].strongHash == strong(data)
    }

    function WoundFor(k: nat, data: Bytes): Wound
      requires size > 0
    {
      var start := Offset(k, size);
      Wound(if Matches(k, data) then ClosedFile else FileWound, fileIndex, start,
        start + ComputeBlockSize(fileSize, k, size))
    }

    method ValidateAsWound(k: nat, data: Bytes) returns (w: Wound)
      requires size > 0
      ensures w == WoundFor(k, data)
    {
      var weak := BetaHash(data);
      var strongHash := strong(data);
      OffsetIsProduct(k, size);
      var start := k * size;
      var blockSize := ComputeBlockSize(fileSize, k, size);
      if k >= |group| {
        return Wound(FileWound, fileIndex, start, start + blockSize);
      }
      var bh := group[k];
      if bh.weakHash != weak.hash {
        return Wound(FileWound, fileIndex, start, start + blockSize);
      }
      if bh.strongHash != strongHash {
        return Wound(FileWound, fileIndex, start, start + blockSize);
      }
      w := Wound(ClosedFile, fileIndex, start, start + blockSize);
    }

    /** It fails exactly on the blocks that ValidateAsWound calls wounds. */
    method ValidateAsError(k: nat, data: Bytes) returns (r: Result<()>)
      requires size > 0
      ensures r.Ok? <==> WoundFor(k, data).Healthy()
    {
      var weak := BetaHash(data);
      if k >= |group| {
        return Err("too large");
      }
      if group[k].weakHash != weak.hash {
        return Err("weak hash");
      }
      if group[k].strongHash != strong(data) {
        return Err("strong hash");
      }
      r := Ok(());
    }

    /** The validate closure of the validating pool. */
    method Validate(data: Bytes)
      requires Valid()
      modifies this
      ensures Valid() && seen == old(seen) + [data]
    {
      var w := ValidateAsWound(blockIndex, data);
      wounds := wounds + [w];
      seen := seen + [data];
      blockIndex := blockIndex + 1;
    }
  }

  /** Takes writes of any size and hands on whole buffers, validated first; the last one may be shorter. */
  class DripWriter {
    const buffer: array<byte>
    const validator: FileValidator
    var offset: nat
    /** What the underlying writer was given. */
    var written: seq<Bytes>

    ghost predicate Valid()
      reads this, buffer, validator
    {
      && 0 < buffer.Length && offset < buffer.Length && validator.Valid() && validator.seen == written
      && forall k :: 0 <= k < |written| ==> |written[k]| == buffer.Length
    }

    ghost function Content(): Bytes
      requires offset <= buffer.Length
      reads this, buffer
    {
      Flatten(written) + buffer[..offset]
    }

    constructor (size: nat, validator: FileValidator)
      requires size > 0 && validator.Valid() && validator.seen == []
      ensures Valid() && Content() == [] && fresh(buffer) && buffer.Length == size && this.validator == validator
    {
      buffer := new byte[size](_ => 0);
      this.validator, offset, written := validator, 0, [];
    }

    /** A full buffer is validated and written. */
    method Drip()
      requires offset == buffer.Length > 0 && validator.Valid() && validator.seen == written
      requires forall k :: 0 <= k < |written| ==> |written[k]| == buffer.Length
      modifies this, validator
      ensures Valid() && Content() == old(Content())
    {
      validator.Validate(buffer[..]);
      FlattenSnoc(written, buffer[..]);
      assert buffer[..offset] == buffer[..];
      written := written + [buffer[..]];
      offset := 0;
      assert Flatten(written) + [] == Flatten(written);
    }

    method CopyIn(data: Bytes, dataOffset: nat, n: nat)
      requires offset + n <= buffer.Length && dataOffset + n <= |data|
      modifies buffer, this`offset
      ensures offset == old(offset) + n && buffer[..offset] == old(buffer[..offset]) + data[dataOffset..dataOffset + n]
    {
      for i := 0 to n
        invariant forall k :: 0 <= k < old(offset) ==> buffer[k] == old(buffer[k])
        invariant forall k :: old(offset) <= k < old(offset) + i ==> buffer[k] == data[dataOffset + (k - old(offset))]
        invariant offset == old(offset)
      {
        buffer[offset + i] := data[dataOffset + i];
      }
      offset := offset + n;
    }

    method Write(data: Bytes)
      requires Valid()
      modifies this, buffer, validator
      ensures Valid() && Content() == old(Content()) + data
    {
      var dataOffset := 0;
      ghost var before := Content();
      assert data[..0] == [] && before + [] == before;
      while dataOffset < |data|
        invariant Valid() && 0 <= dataOffset <= |data| && Content() == before + data[..dataOffset]
        decreases |data| - dataOffset
      {
        var writtenBytes := |data| - dataOffset;
        if writtenBytes > buffer.Length - offset {
          writtenBytes := buffer.Length - offset;
        }
        ghost var flat, head := Flatten(written), buffer[..offset];
        CopyIn(data, dataOffset, writtenBytes);
        ghost var piece := data[dataOffset..dataOffset + writtenBytes];
        assert flat + (head + piece) == (flat + head) + piece;
        assert data[..dataOffset] + piece == data[..dataOffset + writtenBytes];
        assert (before + data[..dataOffset]) + piece == before + (data[..dataOffset] + piece);
        dataOffset := dataOffset + writtenBytes;
        if offset == buffer.Length {
          Drip();
        }
      }
      assert data[..dataOffset] == data;
    }

    /** What is left in the buffer is the last, shorter block. */
    method Close()
      requires Valid()
      modifies this, validator
      ensures validator.Valid() && validator.seen == written && Flatten(written) == old(Content())
      ensures CutInto(written, buffer.Length)
    {
      if offset > 0 {
        validator.Validate(buffer[..offset]);
        FlattenSnoc(written, buffer[..offset]);
        written := written + [buffer[..offset]];
        offset := 0;
      } else {
        assert Flatten(written) + buffer[..0] == Flatten(written);
      }
    }
  }

  /** Blocks of the size, but for a last one that may be shorter. */
  ghost predicate CutInto(blocks: seq<Bytes>, size: nat) {
    forall k :: 0 <= k < |blocks| ==> 0 < |blocks[k]| <= size && (k < |blocks| - 1 ==> |blocks[k]| == size)
  }

  /** There is only one way to cut bytes into blocks. */
  lemma {:induction false} CutsAreBlocks(blocks: seq<Bytes>, size: nat, data: Bytes)
    requires size > 0 && CutInto(blocks, size) && Flatten(blocks) == data
    ensures |blocks| == NumBlocks(|data|, size)
    ensures forall k :: 0 <= k < |blocks| ==> blocks[k] == BlockAt(data, size, k)
    decreases |blocks|
  {
    CutLength(blocks, size);
    forall k | 0 <= k < |blocks| ensures blocks[k] == BlockAt(data, size, k) {
      CutAt(blocks, size, k);
    }
    NumBlocksOffsets(|data|, size, |blocks|);
    if |blocks| > 0 {
      NumBlocksOffsets(|data|, size, |blocks| - 1);
    }
  }

  /** Block k of a cut starts at k times the size. */
  lemma {:induction false} CutAt(blocks: seq<Bytes>, size: nat, k: nat)
    requires size > 0 && CutInto(blocks, size) && k < |blocks|
    ensures BlockAt(Flatten(blocks), size, k) == blocks[k]
  {
    var front, back := blocks[..k], blocks[k + 1..];
    assert blocks == front + ([blocks[k]] + back);
    FlattenAppend(front, [blocks[k]] + back);
    FlattenAppend([blocks[k]], back);
    assert Flatten([blocks[k]]) == blocks[k] + Flatten<byte>([]) == blocks[k];
    assert CutInto(front + [blocks[k]], size) && forall j :: 0 <= j < k ==> |front[j]| == size;
    FullLength(front, size);
    if back == [] {
      assert Flatten(back) == [];
    }
  }

  lemma {:induction false} FullLength(blocks: seq<Bytes>, size: nat)
    requires forall j :: 0 <= j < |blocks| ==> |blocks[j]| == size
    ensures |Flatten(blocks)| == Offset(|blocks|, size)
  {
    if blocks != [] {
      var n := |blocks| - 1;
      FullLength(blocks[..n], size);
      FlattenSnoc(blocks[..n], blocks[n]);
      assert blocks == blocks[..n] + [blocks[n]];
    }
  }

  lemma CutLength(blocks: seq<Bytes>, size: nat)
    requires CutInto(blocks, size)
    ensures blocks == [] ==> Flatten(blocks) == []
    ensures blocks != [] ==> Offset(|blocks| - 1, size) < |Flatten(blocks)| <= Offset(|blocks|, size)
  {
    if blocks != [] {
      var n := |blocks| - 1;
      FullLength(blocks[..n], size);
      FlattenSnoc(blocks[..n], blocks[n]);
      assert blocks == blocks[..n] + [blocks[n]];
    }
  }

  // ----- a whole file

  /** The strong hash tells every signed block from the block found in its place. */
  ghost predicate Trusted(strong: StrongHash, size: nat, signed: Bytes, actual: Bytes) {
    forall k: nat :: TrustedAt(strong, size, signed, actual, k)
  }

  ghost predicate TrustedAt(strong: StrongHash, size: nat, signed: Bytes, actual: Bytes, k: nat) {
    strong(BlockAt(signed, size, k)) == strong(BlockAt(actual, size, k)) ==>
      BlockAt(signed, size, k) == BlockAt(actual, size, k)
  }

  /** What the signature holds for a file. */
  function GroupOf(strong: StrongHash, size: nat, fileIndex: nat, signed: Bytes): seq<BlockHash>
    requires size > 0
  {
    if signed == [] then [] else FileHashes(strong, size, fileIndex, signed)
  }

  /** A block's hashes match if and only if the signed file has that very block. */
  lemma MatchIsEqual(v: FileValidator, signed: Bytes, actual: Bytes, k: nat)
    requires v.size > 0 && v.group == GroupOf(v.strong, v.size, v.fileIndex, signed)
      && Trusted(v.strong, v.size, signed, actual)
    requires k < NumBlocks(|actual|, v.size)
    ensures v.Matches(k, BlockAt(actual, v.size, k)) <==>
      k < NumBlocks(|signed|, v.size) && BlockAt(signed, v.size, k) == BlockAt(actual, v.size, k)
  {
    assert TrustedAt(v.strong, v.size, signed, actual, k);
  }

  /** Files of one length with equal blocks are equal. */
  lemma {:induction false} BlocksMakeFile(a: Bytes, b: Bytes, size: nat, n: nat)
    requires size > 0 && |a| == |b| && forall k :: 0 <= k < n ==> BlockAt(a, size, k) == BlockAt(b, size, k)
    ensures forall x :: 0 <= x < |a| && x < Offset(n, size) ==> a[x] == b[x]
  {
    if n > 0 {
      BlocksMakeFile(a, b, size, n - 1);
      var start := Offset(n - 1, size);
      forall x | start <= x < |a| && x < Offset(n, size) ensures a[x] == b[x] {
        assert BlockAt(a, size, n - 1)[x - start] == a[x] && BlockAt(b, size, n - 1)[x - start] == b[x];
      }
    }
  }

  /** Byte x lies in a block that differs. */
  ghost predicate InDifferingBlock(signed: Bytes, actual: Bytes, size: nat, x: int) {
    exists k: nat :: Offset(k, size) <= x < Offset(k + 1, size) && x < |signed|
      && BlockAt(signed, size, k) != BlockAt(actual, size, k)
  }

  function DifferingAt(signed: Bytes, actual: Bytes, size: nat, k: nat): nat {
    if BlockAt(signed, size, k) != BlockAt(actual, size, k) then |BlockAt(signed, size, k)| else 0
  }

  /** The wounds cover exactly the differing blocks of file f, and their sizes add up to those blocks' sizes. */
  ghost predicate Tells(ws: seq<Wound>, f: nat, signed: Bytes, actual: Bytes, size: nat)
    requires size > 0
  {
    && OneFile(ws, f)
    && (forall x :: Covers(ws, f, x) <==> InDifferingBlock(signed, actual, size, x))
    && TotalSize(ws) == DifferingBytes(signed, actual, size, NumBlocks(|signed|, size))
  }

  lemma ExactTells(out: seq<Wound>, ws: seq<Wound>, f: nat, signed: Bytes, actual: Bytes, size: nat)
    requires size > 0 && Exact(out, ws) && OneFile(out, f) && Tells(ws, f, signed, actual, size)
    ensures Tells(out, f, signed, actual, size)
  {
    forall x ensures Covers(out, f, x) <==> InDifferingBlock(signed, actual, size, x) {
      assert Covers(out, f, x) <==> Covers(ws, f, x);
      assert Covers(ws, f, x) <==> InDifferingBlock(signed, actual, size, x);
    }
  }

  /** The sizes of the differing blocks among the first n. */
  function DifferingBytes(signed: Bytes, actual: Bytes, size: nat, n: nat): nat {
    if n == 0 then 0 else DifferingBytes(signed, actual, size, n - 1) + DifferingAt(signed, actual, size, n - 1)
  }

  predicate InTrailing(trailing: Option<Wound>, f: nat, x: int) {
    trailing.Some? && CoversAt(trailing.value, f, x)
  }

  /** doOne: stream the file's bytes through, in any pieces, and add a wound if the length is wrong. */
  method ValidateFile(v: FileValidator, pieces: seq<Bytes>, maxWoundSize: int, ghost signed: Bytes)
    returns (sent: seq<Wound>, trailing: Option<Wound>)
    requires v.Valid() && v.seen == [] && v.fileSize == |signed|
      && v.group == GroupOf(v.strong, v.size, v.fileIndex, signed)
    requires Trusted(v.strong, v.size, signed, Flatten(pieces))
    modifies v
    ensures (AllHealthy(sent) && trailing.None?) <==> Flatten(pieces) == signed
    ensures OneFile(sent, v.fileIndex)
    ensures Marks(sent) ==
      HealthySigns(v.fileIndex, signed, Flatten(pieces), v.size, NumBlocks(|Flatten(pieces)|, v.size))
    ensures sent == Flush(Aggregated(Verdicts(v.fileIndex, signed, Flatten(pieces), v.size), maxWoundSize))
    ensures trailing.Some? <==> |Flatten(pieces)| != |signed|
    ensures trailing.Some? ==> trailing.value == Wound(FileWound, v.fileIndex, |Flatten(pieces)|, |signed|)
    ensures forall x :: 0 <= x < |signed| ==>
      (Covers(sent, v.fileIndex, x) || InTrailing(trailing, v.fileIndex, x) <==>
        InDifferingBlock(signed, Flatten(pieces), v.size, x))
    ensures |Flatten(pieces)| == |signed| ==> Tells(sent, v.fileIndex, signed, Flatten(pieces), v.size)
    ensures |Flatten(pieces)| == |signed| && v.size < maxWoundSize ==> forall i :: 0 <= i < |sent| ==>
      sent[i].Size() < maxWoundSize + v.size
  {
    ghost var actual := Flatten(pieces);
    var writer := new DripWriter(v.size, v);
    var writtenBytes := 0;
    for i := 0 to |pieces|
      invariant writer.Valid() && writer.Content() == Flatten(pieces[..i]) && writtenBytes == |writer.Content()|
      invariant fresh(writer) && fresh(writer.buffer) && writer.validator == v && writer.buffer.Length == v.size
    {
      writer.Write(pieces[i]);
      writtenBytes := writtenBytes + |pieces[i]|;
      FlattenSnoc(pieces[..i], pieces[i]);
      assert pieces[..i + 1] == pieces[..i] + [pieces[i]];
    }
    assert pieces[..|pieces|] == pieces;
    trailing := if writtenBytes != v.fileSize then Some(Wound(FileWound, v.fileIndex, writtenBytes, v.fileSize))
      else None;
    writer.Close();
    CutsAreBlocks(writer.written, v.size, actual);
    FileIsTold(v, signed, actual, maxWoundSize);
    WoundsAreVerdicts(v, signed, actual);
    VerdictsMark(v.fileIndex, signed, actual, v.size, |v.wounds|);
    assert v.wounds[..|v.wounds|] == v.wounds;
    sent := AggregateWounds(v.wounds, maxWoundSize);
  }

  /** All that the wounds of the blocks say once they are joined. */
  lemma FileIsTold(v: FileValidator, signed: Bytes, actual: Bytes, maxWoundSize: int)
    requires v.Valid() && v.fileSize == |signed| && v.group == GroupOf(v.strong, v.size, v.fileIndex, signed)
    requires Trusted(v.strong, v.size, signed, actual) && |v.seen| == NumBlocks(|actual|, v.size)
    requires forall k :: 0 <= k < |v.seen| ==> v.seen[k] == BlockAt(actual, v.size, k)
    ensures var sent := Flush(Aggregated(v.wounds, maxWoundSize));
      && OneFile(sent, v.fileIndex)
      && (AllHealthy(sent) && |actual| == |signed| <==> actual == signed)
      && (forall x :: 0 <= x < |signed| ==>
        (Covers(sent, v.fileIndex, x) || x >= |actual| <==> InDifferingBlock(signed, actual, v.size, x)))
    ensures |actual| == |signed| ==>
      var sent := Flush(Aggregated(v.wounds, maxWoundSize));
      && Tells(sent, v.fileIndex, signed, actual, v.size)
      && (v.size < maxWoundSize ==> forall i :: 0 <= i < |sent| ==> sent[i].Size() < maxWoundSize + v.size)
  {
    HealthIsRight(v, signed, actual, maxWoundSize);
    forall x | 0 <= x < |signed|
      ensures Covers(Flush(Aggregated(v.wounds, maxWoundSize)), v.fileIndex, x) || x >= |actual|
        <==> InDifferingBlock(signed, actual, v.size, x)
    {
      CoveredIffDiffers(v, signed, actual, maxWoundSize, x);
    }
    if |actual| == |signed| {
      WoundsAreRight(v, signed, actual, maxWoundSize);
    }
  }

  /** For files of one length the wounds of the blocks lie end to end, and tell exactly the differing ones. */
  lemma BlockWounds(v: FileValidator, signed: Bytes, actual: Bytes)
    requires v.Valid() && v.fileSize == |signed| == |actual|
      && v.group == GroupOf(v.strong, v.size, v.fileIndex, signed)
    requires Trusted(v.strong, v.size, signed, actual) && |v.seen| == NumBlocks(|actual|, v.size)
    requires forall k :: 0 <= k < |v.seen| ==> v.seen[k] == BlockAt(actual, v.size, k)
    ensures Contiguous(v.wounds, v.size)
    ensures AllHealthy(v.wounds) <==> actual == signed
    ensures Tells(v.wounds, v.fileIndex, signed, actual, v.size)
  {
    forall k | 0 <= k < |v.wounds| ensures WoundRight(v.wounds[k], signed, actual, v.size, k) {
      NumBlocksOffsets(|signed|, v.size, k);
      BlockWound(v, signed, actual, k);
    }
    forall i | 0 <= i < |v.wounds| - 1 ensures Touches(v.wounds, i) {
      NumBlocksOffsets(|signed|, v.size, i + 1);
      assert WoundRight(v.wounds[i], signed, actual, v.size, i)
        && WoundRight(v.wounds[i + 1], signed, actual, v.size, i + 1);
    }
    forall x ensures Covers(v.wounds, v.fileIndex, x) <==> InDifferingBlock(signed, actual, v.size, x) {
      CoversDiffering(v.wounds, v.fileIndex, signed, actual, v.size, x);
    }
    TotalIsDiffering(v.wounds, signed, actual, v.size);
    HealthyIsEqual(v.wounds, signed, actual, v.size);
  }

  /** Wound k is about block k, and a file wound if that differs. */
  ghost predicate WoundRight(w: Wound, signed: Bytes, actual: Bytes, size: nat, k: nat) {
    && w.start == Offset(k, size) && w.end == w.start + |BlockAt(signed, size, k)|
      && w.end == Min(Offset(k + 1, size), |signed|)
    && (w.kind.FileWound? <==> BlockAt(signed, size, k) != BlockAt(actual, size, k))
      && (w.kind.FileWound? || w.kind.ClosedFile?)
  }

  lemma BlockWound(v: FileValidator, signed: Bytes, actual: Bytes, k: nat)
    requires v.Valid() && v.fileSize == |signed| && v.group == GroupOf(v.strong, v.size, v.fileIndex, signed)
    requires Trusted(v.strong, v.size, signed, actual) && k < |v.seen| == NumBlocks(|actual|, v.size)
      && v.seen[k] == BlockAt(actual, v.size, k)
    requires Offset(k, v.size) < |signed|
    ensures WoundRight(v.wounds[k], signed, actual, v.size, k)
  {
    MatchIsEqual(v, signed, actual, k);
    NumBlocksOffsets(|signed|, v.size, k);
    OffsetIsProduct(k, v.size);
    OffsetIsProduct(k + 1, v.size);
    assert v.size * (k + 1) == (k + 1) * v.size;
    if Offset(k + 1, v.size) > |signed| {
      ShortTail(|signed|, v.size, k);
    }
  }

  /** A wound for a block behind the end of the signed file says nothing about the bytes of that file. */
  lemma WoundBehind(v: FileValidator, signed: Bytes, k: nat)
    requires v.Valid() && v.fileSize == |signed| && k < |v.seen| && Offset(k, v.size) >= |signed|
    ensures |signed| <= v.wounds[k].start <= v.wounds[k].end <= Offset(k + 1, v.size)
    ensures v.wounds[k].start == Offset(k, v.size)
  {
  }

  // ----- block by block

  /** The signed file has block k, and it is the one found. */
  predicate IsSigned(signed: Bytes, actual: Bytes, size: nat, k: nat) {
    Offset(k, size) < |signed| && BlockAt(signed, size, k) == BlockAt(actual, size, k)
  }

  /**
   * What is said of block k of the file found. A block behind the end of the signed file is a wound of the
   * size that is left over there.
   */
  function Verdict(f: nat, signed: Bytes, actual: Bytes, size: nat, k: nat): Wound
    requires size > 0
  {
    Wound(if IsSigned(signed, actual, size, k) then ClosedFile else FileWound, f, Offset(k, size),
      if Offset(k, size) < |signed| then Min(Offset(k + 1, size), |signed|) else Offset(k, size) + |signed| % size)
  }

  function Verdicts(f: nat, signed: Bytes, actual: Bytes, size: nat): seq<Wound>
    requires size > 0
  {
    seq(NumBlocks(|actual|, size), k requires 0 <= k => Verdict(f, signed, actual, size, k))
  }

  /** One sign of health for each of the first n blocks that is as it was signed. */
  function HealthySigns(f: nat, signed: Bytes, actual: Bytes, size: nat, n: nat): seq<Wound> {
    if n == 0 then []
    else HealthySigns(f, signed, actual, size, n - 1) + (if IsSigned(signed, actual, size, n - 1)
      then [Wound(ClosedFile, f, Offset(n - 1, size), Min(Offset(n, size), |signed|))] else [])
  }

  lemma {:induction false} VerdictsMark(f: nat, signed: Bytes, actual: Bytes, size: nat, n: nat)
    requires size > 0 && n <= NumBlocks(|actual|, size)
    ensures Marks(Verdicts(f, signed, actual, size)[..n]) == HealthySigns(f, signed, actual, size, n)
  {
    if n > 0 {
      VerdictsMark(f, signed, actual, size, n - 1);
      var ws := Verdicts(f, signed, actual, size);
      assert ws[..n] == ws[..n - 1] + [ws[n - 1]];
      MarksSnoc(ws[..n - 1], ws[n - 1]);
    }
  }

  /** The hashes tell of each block what comparing the files themselves would. */
  lemma WoundsAreVerdicts(v: FileValidator, signed: Bytes, actual: Bytes)
    requires v.Valid() && v.fileSize == |signed| && v.group == GroupOf(v.strong, v.size, v.fileIndex, signed)
    requires Trusted(v.strong, v.size, signed, actual) && |v.seen| == NumBlocks(|actual|, v.size)
    requires forall k :: 0 <= k < |v.seen| ==> v.seen[k] == BlockAt(actual, v.size, k)
    ensures v.wounds == Verdicts(v.fileIndex, signed, actual, v.size)
  {
    forall k | 0 <= k < |v.seen| ensures v.wounds[k] == Verdict(v.fileIndex, signed, actual, v.size, k) {
      MatchIsEqual(v, signed, actual, k);
      NumBlocksOffsets(|signed|, v.size, k);
      if Offset(k, v.size) < |signed| {
        BlockWound(v, signed, actual, k);
      } else {
        BehindSize(|signed|, v.size, k);
      }
    }
  }

  lemma BehindSize(fileSize: nat, size: nat, k: nat)
    requires size > 0 && Offset(k, size) >= fileSize
    ensures ComputeBlockSize(fileSize, k, size) == fileSize % size
  {
    OffsetIsProduct(k, size);
    assert size * (k + 1) == k * size + size;
  }

  /** The wounds of the blocks go forward, with nothing of the signed file between them. */
  lemma BlocksForward(v: FileValidator, signed: Bytes, actual: Bytes, x: int)
    requires v.Valid() && v.fileSize == |signed| && v.group == GroupOf(v.strong, v.size, v.fileIndex, signed)
    requires Trusted(v.strong, v.size, signed, actual) && |v.seen| == NumBlocks(|actual|, v.size)
    requires forall k :: 0 <= k < |v.seen| ==> v.seen[k] == BlockAt(actual, v.size, k)
    requires x < |signed|
    ensures Forward(v.wounds) && forall i :: 0 <= i < |v.wounds| - 1 ==> !Between(v.wounds, i, x)
  {
    forall k | 0 <= k < |v.wounds|
      ensures v.wounds[k].start == Offset(k, v.size) <= v.wounds[k].end <= Offset(k + 1, v.size)
      ensures v.wounds[k].end == Offset(k + 1, v.size) || v.wounds[k].end >= |signed|
    {
      if Offset(k, v.size) < |signed| {
        BlockWound(v, signed, actual, k);
      } else {
        WoundBehind(v, signed, k);
      }
    }
    forall i | 0 <= i < |v.wounds| - 1 ensures EndsBefore(v.wounds, i) && !Between(v.wounds, i, x) {
    }
  }

  lemma OnlyBlock(v: FileValidator, signed: Bytes, actual: Bytes, j: nat, x: int)
    requires v.Valid() && v.fileSize == |signed| && v.group == GroupOf(v.strong, v.size, v.fileIndex, signed)
    requires Trusted(v.strong, v.size, signed, actual) && j < |v.seen| == NumBlocks(|actual|, v.size)
      && v.seen[j] == BlockAt(actual, v.size, j)
    requires x < |signed| && CoversAt(v.wounds[j], v.fileIndex, x)
    ensures Offset(j, v.size) <= x < Offset(j + 1, v.size)
  {
    if Offset(j, v.size) < |signed| {
      BlockWound(v, signed, actual, j);
    } else {
      WoundBehind(v, signed, j);
    }
  }

  lemma BlockIs(x: nat, size: nat, k: nat)
    requires size > 0
    ensures Offset(k, size) <= x < Offset(k + 1, size) <==> k == x / size
  {
    OffsetIsProduct(k, size);
    OffsetIsProduct(x / size, size);
    if Offset(k, size) <= x < Offset(k + 1, size) {
      DivModIs(x, size, k, x - Offset(k, size));
    }
  }

  /** There is one block that byte x lies in, and it differs where the file is too short. */
  lemma DiffersIff(signed: Bytes, actual: Bytes, size: nat, x: nat, k: nat)
    requires size > 0 && x < |signed| && k == x / size
    ensures Offset(k, size) <= x < Offset(k + 1, size)
    ensures InDifferingBlock(signed, actual, size, x) <==> BlockAt(signed, size, k) != BlockAt(actual, size, k)
    ensures x >= |actual| ==> BlockAt(signed, size, k) != BlockAt(actual, size, k)
  {
    BlockIs(x, size, k);
    forall j: nat | Offset(j, size) <= x < Offset(j + 1, size) ensures j == k {
      BlockIs(x, size, j);
    }
  }

  /** Before they are joined, the wounds cover a byte just if its block differs. */
  lemma BlocksCover(v: FileValidator, signed: Bytes, actual: Bytes, x: int, k: nat)
    requires v.Valid() && v.fileSize == |signed| && v.group == GroupOf(v.strong, v.size, v.fileIndex, signed)
    requires Trusted(v.strong, v.size, signed, actual) && |v.seen| == NumBlocks(|actual|, v.size)
    requires forall k :: 0 <= k < |v.seen| ==> v.seen[k] == BlockAt(actual, v.size, k)
    requires 0 <= x < |signed| && x < |actual| && k == x / v.size
    ensures Covers(v.wounds, v.fileIndex, x) <==> BlockAt(signed, v.size, k) != BlockAt(actual, v.size, k)
  {
    BlockIs(x, v.size, k);
    NumBlocksOffsets(|actual|, v.size, k);
    BlockWound(v, signed, actual, k);
    assert CoversAt(v.wounds[k], v.fileIndex, x) <==> v.wounds[k].kind.FileWound?;
    forall j | 0 <= j < |v.wounds| && CoversAt(v.wounds[j], v.fileIndex, x) ensures j == k {
      OnlyBlock(v, signed, actual, j, x);
      BlockIs(x, v.size, j);
    }
  }

  /** Whatever its length: a byte of the signed file is covered, or behind the end, just if its block differs. */
  lemma CoveredIffDiffers(v: FileValidator, signed: Bytes, actual: Bytes, maxWoundSize: int, x: int)
    requires v.Valid() && v.fileSize == |signed| && v.group == GroupOf(v.strong, v.size, v.fileIndex, signed)
    requires Trusted(v.strong, v.size, signed, actual) && |v.seen| == NumBlocks(|actual|, v.size)
    requires forall k :: 0 <= k < |v.seen| ==> v.seen[k] == BlockAt(actual, v.size, k)
    requires 0 <= x < |signed|
    ensures Covers(Flush(Aggregated(v.wounds, maxWoundSize)), v.fileIndex, x) || x >= |actual|
      <==> InDifferingBlock(signed, actual, v.size, x)
  {
    DiffersIff(signed, actual, v.size, x, x / v.size);
    if x < |actual| {
      BlocksForward(v, signed, actual, x);
      CoverageKeptAt(v.wounds, |v.wounds|, v.fileIndex, maxWoundSize, v.fileIndex, x);
      assert v.wounds[..|v.wounds|] == v.wounds;
      BlocksCover(v, signed, actual, x, x / v.size);
    }
  }

  lemma CoversDiffering(ws: seq<Wound>, f: nat, signed: Bytes, actual: Bytes, size: nat, x: int)
    requires size > 0 && |ws| == NumBlocks(|signed|, size)
    requires OneFile(ws, f) && forall k :: 0 <= k < |ws| ==> WoundRight(ws[k], signed, actual, size, k)
    ensures Covers(ws, f, x) <==> InDifferingBlock(signed, actual, size, x)
  {
    if Covers(ws, f, x) {
      var k :| 0 <= k < |ws| && CoversAt(ws[k], f, x);
      assert WoundRight(ws[k], signed, actual, size, k);
    }
    if InDifferingBlock(signed, actual, size, x) {
      var k: nat :| Offset(k, size) <= x < Offset(k + 1, size) && x < |signed|
        && BlockAt(signed, size, k) != BlockAt(actual, size, k);
      NumBlocksOffsets(|signed|, size, k);
      assert WoundRight(ws[k], signed, actual, size, k);
      assert CoversAt(ws[k], f, x);
    }
  }

  lemma {:induction false} TotalIsDiffering(ws: seq<Wound>, signed: Bytes, actual: Bytes, size: nat)
    requires forall k :: 0 <= k < |ws| ==> WoundRight(ws[k], signed, actual, size, k)
    ensures TotalSize(ws) == DifferingBytes(signed, actual, size, |ws|)
  {
    if ws != [] {
      TotalIsDiffering(ws[..|ws| - 1], signed, actual, size);
      WoundAdds(ws[|ws| - 1], signed, actual, size, |ws| - 1);
    }
  }

  lemma WoundAdds(w: Wound, signed: Bytes, actual: Bytes, size: nat, k: nat)
    requires WoundRight(w, signed, actual, size, k)
    ensures (if w.kind.FileWound? then w.Size() else 0) == DifferingAt(signed, actual, size, k)
  {
  }

  /** Only a file that is as it was signed gives no file wound. */
  lemma HealthyIsEqual(ws: seq<Wound>, signed: Bytes, actual: Bytes, size: nat)
    requires size > 0 && |signed| == |actual| && |ws| == NumBlocks(|signed|, size)
    requires forall k :: 0 <= k < |ws| ==> WoundRight(ws[k], signed, actual, size, k)
    ensures AllHealthy(ws) <==> actual == signed
  {
    if AllHealthy(ws) {
      forall k | 0 <= k < |ws| ensures BlockAt(signed, size, k) == BlockAt(actual, size, k) {
        assert WoundRight(ws[k], signed, actual, size, k) && ws[k].Healthy();
      }
      BlocksMakeFile(signed, actual, size, |ws|);
      NumBlocksOffsets(|signed|, size, |ws|);
    } else {
      var k :| 0 <= k < |ws| && !ws[k].Healthy();
      assert WoundRight(ws[k], signed, actual, size, k);
    }
  }

  /** Healthy blocks only, in a file of the signed length, are that file. */
  lemma HealthIsRight(v: FileValidator, signed: Bytes, actual: Bytes, maxWoundSize: int)
    requires v.Valid() && v.fileSize == |signed| && v.group == GroupOf(v.strong, v.size, v.fileIndex, signed)
    requires Trusted(v.strong, v.size, signed, actual) && |v.seen| == NumBlocks(|actual|, v.size)
    requires forall k :: 0 <= k < |v.seen| ==> v.seen[k] == BlockAt(actual, v.size, k)
    ensures var sent := Flush(Aggregated(v.wounds, maxWoundSize));
      && OneFile(sent, v.fileIndex)
      && (AllHealthy(sent) && |actual| == |signed| <==> actual == signed)
  {
    AggregationKeepsHealth(v.wounds, maxWoundSize);
    AggregationKeepsFile(v.wounds, v.fileIndex, maxWoundSize);
    if |actual| == |signed| {
      BlockWounds(v, signed, actual);
    }
  }

  /** What the wounds of the single blocks say of a file of the signed length, joined or not. */
  lemma WoundsAreRight(v: FileValidator, signed: Bytes, actual: Bytes, maxWoundSize: int)
    requires v.Valid() && v.fileSize == |signed| == |actual|
      && v.group == GroupOf(v.strong, v.size, v.fileIndex, signed)
    requires Trusted(v.strong, v.size, signed, actual) && |v.seen| == NumBlocks(|actual|, v.size)
    requires forall k :: 0 <= k < |v.seen| ==> v.seen[k] == BlockAt(actual, v.size, k)
    ensures var sent := Flush(Aggregated(v.wounds, maxWoundSize));
      && Tells(sent, v.fileIndex, signed, actual, v.size)
      && (v.size < maxWoundSize ==> forall i :: 0 <= i < |sent| ==> sent[i].Size() < maxWoundSize + v.size)
  {
    BlockWounds(v, signed, actual);
    AggregationKeepsFile(v.wounds, v.fileIndex, maxWoundSize);
    AggregationIsExact(v.wounds, v.fileIndex, v.size, maxWoundSize);
    ExactTells(Flush(Aggregated(v.wounds, maxWoundSize)), v.wounds, v.fileIndex, signed, actual, v.size);
    if v.size < maxWoundSize {
      AggregationIsBounded(v.wounds, v.size, maxWoundSize);
    }
  }
}
