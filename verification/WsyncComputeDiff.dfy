/** ComputeDiff as a whole: the round trip, and what it does to a file that did not change. */
module WsyncComputeDiff {
  import opened Common
  import opened RollingHash
  import opened WsyncOps
  import opened WsyncDiff
  import opened WsyncRest
  import opened WsyncRun
  import opened WsyncWindow
  import opened WsyncGreedy
  import opened WsyncKnown

  // ----- an unchanged file

  /** The source is the preferred target file, and it is not empty. */
  ghost predicate Unchanged(input: Input) {
    0 <= input.preferred < |input.files| && input.source == input.files[input.preferred] != []
  }

  ghost predicate DistinctBlocks(file: Bytes, size: nat, n: nat) {
    forall i: nat, j: nat :: i < j < n ==> BlockAt(file, size, i) != BlockAt(file, size, j)
  }

  /** r is the first copy of block k in its own file. */
  ghost predicate FirstCopy(file: Bytes, size: nat, k: nat, r: int) {
    && 0 <= r <= k && BlockAt(file, size, r) == BlockAt(file, size, k)
    && forall j: nat :: j < r ==> BlockAt(file, size, j) != BlockAt(file, size, k)
  }

  /** Looking up block k of an unchanged file finds the first copy of that block in the file itself. */
  lemma LookupInUnchanged(input: Input, k: nat)
    requires input.Ok() && FromSignature(input) && Unchanged(input) && Offset(k, input.size) < |input.source|
    ensures var found := LookupOf(input, WindowAt(input, Offset(k, input.size)));
      found.Some? && found.value.fileIndex == input.preferred
        && FirstCopy(input.source, input.size, k, found.value.blockIndex)
  {
    var p := Offset(k, input.size);
    assert BlockAt(input.source, input.size, k) == WindowAt(input, p);
    assert IsTargetBlock(input, input.preferred, k, p);
    LookupIsFirst(input, p);
    var h := LookupOf(input, WindowAt(input, p)).value;
    forall j: nat | j < h.blockIndex
      ensures BlockAt(input.source, input.size, j) != BlockAt(input.source, input.size, k)
    {
      assert !IsTargetBlock(input, input.preferred, j, p);
    }
  }

  ghost function WholeFile(input: Input): Operation
    requires input.size > 0
  {
    BlockRange(input.preferred, 0, NumBlocks(|input.source|, input.size))
  }

  /** The tokens copy blocks of the preferred file: the first copy of block k, and so on. */
  ghost predicate FirstCopies(input: Input, tokens: seq<Token>, k: nat) {
    forall j :: 0 <= j < |tokens| ==> IsFirstCopy(input, tokens[j], k + j)
  }

  ghost predicate IsFirstCopy(input: Input, t: Token, k: nat) {
    t.Block? && t.fileIndex == input.preferred && FirstCopy(input.source, input.size, k, t.blockIndex)
  }

  lemma FirstCopiesGrow(input: Input, t: Token, rest: seq<Token>, k: nat)
    requires IsFirstCopy(input, t, k) && FirstCopies(input, rest, k + 1)
    ensures FirstCopies(input, [t] + rest, k)
  {
    forall j | 0 <= j < |rest| + 1 ensures IsFirstCopy(input, ([t] + rest)[j], k + j) {
      if j > 0 {
        assert IsFirstCopy(input, rest[j - 1], k + 1 + (j - 1));
      }
    }
  }

  /** So the scan of an unchanged file copies, block by block, the first copy of each. */
  lemma {:induction false} UnchangedScan(input: Input, k: nat)
    requires input.Ok() && FromSignature(input) && Unchanged(input) && k < NumBlocks(|input.source|, input.size)
    ensures Offset(k, input.size) < |input.source|
    ensures var tokens := Greedy(input, Offset(k, input.size), false);
      |tokens| == NumBlocks(|input.source|, input.size) - k && FirstCopies(input, tokens, k)
    decreases NumBlocks(|input.source|, input.size) - k
  {
    NumBlocksOffsets(|input.source|, input.size, k);
    var t, rest := UnchangedTurn(input, k);
    if k + 1 < NumBlocks(|input.source|, input.size) {
      UnchangedScan(input, k + 1);
    }
    FirstCopiesGrow(input, t, rest, k);
  }

  /** One block of it. */
  lemma UnchangedTurn(input: Input, k: nat) returns (t: Token, rest: seq<Token>)
    requires input.Ok() && FromSignature(input) && Unchanged(input) && Offset(k, input.size) < |input.source|
    ensures Greedy(input, Offset(k, input.size), false) == [t] + rest && IsFirstCopy(input, t, k)
    ensures if k + 1 < NumBlocks(|input.source|, input.size)
      then Offset(k + 1, input.size) <= |input.source| && rest == Greedy(input, Offset(k + 1, input.size), false)
      else k + 1 == NumBlocks(|input.source|, input.size) && rest == []
  {
    var p := Offset(k, input.size);
    NumBlocksOffsets(|input.source|, input.size, k);
    NumBlocksOffsets(|input.source|, input.size, k + 1);
    LookupInUnchanged(input, k);
    BlockEnds(|input.source|, input.size, k);
    GreedyBlock(input, p);
    if Offset(k + 1, input.size) == |input.source| {
      GreedyAtEnd(input);
    }
    var h := LookupOf(input, WindowAt(input, p)).value;
    t := Block(h.fileIndex, h.blockIndex);
    rest := if p + input.size <= Whole(input) then Greedy(input, p + input.size, false) else [];
  }

  /** A block ends before the short last one, or is it. */
  lemma BlockEnds(fileSize: nat, size: nat, k: nat)
    requires size > 0 && Offset(k, size) < fileSize
    ensures if Offset(k + 1, size) > fileSize then Offset(k, size) == fileSize - fileSize % size
      else Offset(k, size) + size <= fileSize - fileSize % size
    ensures Offset(k + 1, size) == fileSize ==> Offset(k + 1, size) == fileSize - fileSize % size
  {
    OffsetIsProduct(k, size);
    DivModIs(Offset(k, size), size, k, 0);
    WholeIs(fileSize, size, Offset(k, size));
  }

  lemma {:induction false} BlocksAt(f: int, i: int, n: nat)
    ensures |Blocks(f, i, n)| == n && forall j :: 0 <= j < n ==> Blocks(f, i, n)[j] == Block(f, i + j)
  {
    if n > 0 {
      BlocksAt(f, i, n - 1);
    }
  }

  ghost predicate NoneSilent(ops: seq<Operation>) {
    forall k :: 0 <= k < |ops| ==> if ops[k].Data? then ops[k].data != [] else ops[k].blockSpan > 0
  }

  /** Operations that could not be joined and say consecutive blocks are one range. */
  lemma {:induction false} OneRange(ops: seq<Operation>, f: int, i: int, n: nat)
    requires n > 0 && Tokens(ops) == Blocks(f, i, n) && Apart(ops) && NoneSilent(ops)
    ensures ops == [BlockRange(f, i, n)]
    decreases |ops|
  {
    var front, last := ops[..|ops| - 1], ops[|ops| - 1];
    BlocksAt(f, i, n);
    LastRange(Tokens(front), last, f, i, n);
    var m := n - last.blockSpan;
    assert Apart(front) by {
      forall k | 0 < k < |front| ensures ApartAt(front, k) {
        assert ApartAt(ops, k);
      }
    }
    if m > 0 {
      assert front != [] ==> ApartAt(ops, |ops| - 1);
      OneRange(front, f, i, m);
    } else if front != [] {
      SaysSomething(front);
    }
  }

  lemma SaysSomething(ops: seq<Operation>)
    requires ops != [] && NoneSilent(ops)
    ensures Tokens(ops) != []
  {
    var last := ops[|ops| - 1];
    if last.Data? {
      ShippedIs(|last.data|);
    } else {
      BlocksAt(last.fileIndex, last.blockIndex, last.blockSpan);
    }
  }

  lemma SaysFresh(said: seq<Token>, last: Operation)
    requires last.Data? && last.data != []
    ensures var all := said + TokensOf(last);
      |all| > 0 && all[|all| - 1] == Fresh
  {
    ShippedIs(|last.data|);
  }

  /** What is said last of consecutive blocks are the last ones. */
  lemma LastRange(said: seq<Token>, last: Operation, f: int, i: int, n: nat)
    requires n > 0 && said + TokensOf(last) == Blocks(f, i, n) && NoneSilent([last])
    ensures last.BlockRange? && last.blockSpan <= n
    ensures last == BlockRange(f, i + n - last.blockSpan, last.blockSpan) && said == Blocks(f, i, n - last.blockSpan)
  {
    var all := Blocks(f, i, n);
    assert NoneSilent([last]) && [last][0] == last;
    BlocksAt(f, i, n);
    if last.Data? {
      SaysFresh(said, last);
      assert false;
    } else {
      BlocksAt(last.fileIndex, last.blockIndex, last.blockSpan);
      var m := |said|;
      assert all[m] == Block(last.fileIndex, last.blockIndex);
      BlocksAt(f, i, m);
      assert said == all[..m];
    }
  }

  /** The operations for an unchanged file are one whole-file range exactly when no block repeats. */
  ghost predicate UnchangedResult(input: Input, ops: seq<Operation>)
    requires input.size > 0
  {
    ops == [WholeFile(input)] <==> DistinctBlocks(input.source, input.size, NumBlocks(|input.source|, input.size))
  }

  lemma UnchangedIs(input: Input, ops: seq<Operation>)
    requires input.Ok() && FromSignature(input) && Unchanged(input)
    requires Tokens(ops) == Greedy(input, 0, false) && Apart(ops) && FinalTidy(ops, input.maxData, input.size)
      && AllRanges(input, ops)
    ensures UnchangedResult(input, ops)
  {
    NumBlocksOffsets(|input.source|, input.size, 0);
    UnchangedScan(input, 0);
    CopiesInPlaceIff(input, Tokens(ops));
    OneRangeIff(input, ops, input.preferred);
  }

  lemma OneRangeIff(input: Input, ops: seq<Operation>, f: int)
    requires FinalTidy(ops, input.maxData, input.size) && AllRanges(input, ops) && Apart(ops) && Tokens(ops) != []
    ensures ops == [BlockRange(f, 0, |Tokens(ops)|)] <==> Tokens(ops) == Blocks(f, 0, |Tokens(ops)|)
  {
    var op := BlockRange(f, 0, |Tokens(ops)|);
    OneOpTold(op);
    NoneIsSilent(input, ops);
    if Tokens(ops) == Blocks(f, 0, |Tokens(ops)|) {
      OneRange(ops, f, 0, |Tokens(ops)|);
    }
  }

  lemma OneOpTold(op: Operation)
    ensures Tokens([op]) == TokensOf(op)
  {
    TokensSnoc([], op);
    assert [] + [op] == [op] && [] + TokensOf(op) == TokensOf(op);
  }

  lemma NoneIsSilent(input: Input, ops: seq<Operation>)
    requires FinalTidy(ops, input.maxData, input.size) && AllRanges(input, ops) && Tokens(ops) != []
    ensures NoneSilent(ops)
  {
    if |ops| == 1 && ops[0].Data? {
      OneOpTold(ops[0]);
      assert ops == [ops[0]];
    }
  }

  /** The first copies of all blocks are the blocks themselves if and only if these are distinct. */
  lemma CopiesInPlaceIff(input: Input, tokens: seq<Token>)
    requires input.size > 0 && FirstCopies(input, tokens, 0)
    ensures tokens == Blocks(input.preferred, 0, |tokens|) <==> DistinctBlocks(input.source, input.size, |tokens|)
  {
    BlocksAt(input.preferred, 0, |tokens|);
    if tokens == Blocks(input.preferred, 0, |tokens|) {
      forall i: nat, j: nat | i < j < |tokens|
        ensures BlockAt(input.source, input.size, i) != BlockAt(input.source, input.size, j)
      {
        assert IsFirstCopy(input, tokens[j], 0 + j);
      }
    }
    if DistinctBlocks(input.source, input.size, |tokens|) {
      forall j | 0 <= j < |tokens| ensures tokens[j] == Blocks(input.preferred, 0, |tokens|)[j] {
        assert IsFirstCopy(input, tokens[j], 0 + j);
      }
    }
  }

  ghost predicate AllRanges(input: Input, ops: seq<Operation>) {
    forall k :: 0 <= k < |ops| ==> ValidOp(input.files, input.size, ops[k])
  }

  /**
   * The operations ComputeDiff emits, for any buffer that is long enough: applying them rebuilds the source.
   * There is at least one; an empty data operation is sent only alone; only the last data operation may exceed
   * maxData. When no block of a target occurs in the source, that operation is data whose length is given in
   * closed form. An unchanged file gives one whole-file range exactly when its blocks are pairwise distinct.
   */
  method ComputeDiff(input: Input, buffer: array<byte>) returns (ops: seq<Operation>)
    requires input.Ok() && buffer.Length >= input.size * 2 + input.maxData
    modifies buffer
    ensures OpsBytes(input.files, input.size, ops) == input.source
    ensures Tokens(ops) == Greedy(input, 0, false) && Apart(ops)
    ensures ops != [] && FinalTidy(ops, input.maxData, input.size)
    ensures forall i :: 0 <= i < |ops| ==> ValidOp(input.files, input.size, ops[i])
    ensures FromSignature(input) && Unchanged(input) ==> UnchangedResult(input, ops)
    ensures NothingShared(input) ==>
      LastData(Out(ops, None), LastLength(|input.source|, input.size, input.maxData, buffer.Length))
  {
    var d := new Differ(input, buffer);
    RunStarts(d);
    while !d.lastRun
      invariant d.input == input && d.buffer == buffer
      invariant if d.lastRun then d.Finished() else d.Valid() && d.shortSize == 0
      invariant OnPlan(d) && (NothingShared(input) ==> UnmatchedRun(d))
      decreases !d.lastRun, |input.source| - d.Pos()
    {
      OneTurn(d);
    }
    FlushFinishes(d);
    PlanDone(d);
    ops := FlushPrev(d.out).sent;
    if FromSignature(input) && Unchanged(input) {
      UnchangedIs(input, ops);
    }
  }

  lemma RunStarts(d: Differ)
    requires d.input.Ok() && d.buffer.Length >= d.input.size * 2 + d.input.maxData
    requires d.Valid() && d.AtStart() && d.Telling() && d.said == Script([])
    ensures OnPlan(d) && UnmatchedRun(d)
  {
  }

  /** What has been said, and what the plain scan would say from here, make up the plain scan of all of the source. */
  ghost predicate OnPlan(d: Differ)
    reads d
  {
    if d.lastRun then Says(d.said, d.out, 0) && Ends(d.input, 0, false, Script([]), d.said)
    else d.Paced() && d.Telling() && LeadsOn(d.input, 0, false, Script([]), d.Pos(), d.rolling, d.said)
  }

  lemma PlanTurn(d: Differ, p: int, rolled: bool, said: Script)
    requires LeadsOn(d.input, 0, false, Script([]), p, rolled, said) && d.Goes(said, p, rolled)
    requires if d.lastRun then Says(d.said, d.out, 0) else d.Paced() && d.Telling()
    ensures OnPlan(d)
  {
    if d.lastRun {
      LeadsToEnd(d.input, 0, false, Script([]), p, rolled, said, d.said);
    } else {
      LeadsFurther(d.input, 0, false, Script([]), p, rolled, said, d.Pos(), d.rolling, d.said);
    }
  }

  lemma PlanDone(d: Differ)
    requires d.input.size > 0 && d.lastRun && OnPlan(d)
    ensures Tokens(FlushPrev(d.out).sent) == Greedy(d.input, 0, false)
  {
    FlushTells(d.out);
    SaysOutright(d.said, d.out);
    assert Scanning(0);
    assert [] + Greedy(d.input, 0, false) == Greedy(d.input, 0, false);
  }

  /** The body of the loop. */
  method OneTurn(d: Differ)
    requires d.input.Ok() && d.buffer.Length >= d.input.size * 2 + d.input.maxData
    requires d.Valid() && !d.lastRun && d.shortSize == 0
    requires OnPlan(d) && (NothingShared(d.input) ==> UnmatchedRun(d))
    modifies d, d.buffer
    ensures if d.lastRun then d.Finished() else d.Valid() && d.shortSize == 0 && d.Pos() > old(d.Pos())
    ensures OnPlan(d) && (NothingShared(d.input) ==> UnmatchedRun(d))
  {
    ghost var before, p, c, rolled, said := d.out, d.Pos(), d.Counted(), d.rolling, d.said;
    var found := d.Step();
    PlanTurn(d, p, rolled, said);
    if NothingShared(d.input) {
      UnmatchedTurn(d, c, before, p);
    }
  }

  /**
   * While nothing matches the counters are those of the trace, and in the end the last operation has the closed length.
   */
  ghost predicate UnmatchedRun(d: Differ)
    reads d
  {
    && d.input.size > 1 && d.input.maxData > 0 && d.buffer.Length >= d.input.size * 2 + d.input.maxData
    && if d.lastRun then LastData(d.out, LastLength(|d.input.source|, d.input.size, d.input.maxData, d.buffer.Length))
       else
         && d.Pos() >= 0 && d.Counted() == CountersAt(d.Pos(), d.input.size, d.input.maxData, d.buffer.Length)
         && (d.Pos() == 0 ==> d.out == Out([], None))
  }

  lemma UnmatchedTurn(d: Differ, c: Counters, before: Out, p: int)
    requires d.input.size > 1 && d.input.maxData > 0 && d.buffer.Length >= d.input.size * 2 + d.input.maxData
    requires p >= 0 && c == CountersAt(p, d.input.size, d.input.maxData, d.buffer.Length) && c.read <= |d.input.source|
    requires p == 0 ==> before == Out([], None)
    requires d.Traced(c, p, before)
    ensures UnmatchedRun(d)
  {
    if d.lastRun {
      RunEnds(p, |d.input.source|, d.input.size, d.input.maxData, d.buffer.Length);
    }
  }

  /**
   * The limit on data operations holds if and only if the closed length is within it; a
   * source within the limit always is.
   */
  lemma LimitHoldsIff(input: Input, cap: nat, ops: seq<Operation>)
    requires input.size > 0 && input.maxData > 0 && cap >= input.size * 2 + input.maxData
    requires FinalTidy(ops, input.maxData, input.size)
    requires LastData(Out(ops, None), LastLength(|input.source|, input.size, input.maxData, cap))
    ensures Limited(ops, input.maxData) <==> LastLength(|input.source|, input.size, input.maxData, cap) <= input.maxData
  {
  }

  /** No data operation exceeds the limit. */
  predicate Limited(ops: seq<Operation>, maxData: nat) {
    forall i :: 0 <= i < |ops| && ops[i].Data? ==> |ops[i].data| <= maxData
  }

  /**
   * Whatever the targets, a data operation is a part of the source, so that none of a short source exceeds the limit.
   */
  lemma {:induction false} ShortSourceIsLimited(files: seq<Bytes>, size: nat, ops: seq<Operation>, maxData: nat)
    requires |OpsBytes(files, size, ops)| <= maxData
    ensures Limited(ops, maxData)
  {
    if ops != [] {
      ShortSourceIsLimited(files, size, ops[..|ops| - 1], maxData);
    }
  }

  const BLOCK_SIZE := 64 * 1024
  const MAX_DATA_OP := 4 * 1024 * 1024

  lemma LastLengthAboveLimit()
    ensures LastLength(MAX_DATA_OP + 1, BLOCK_SIZE, MAX_DATA_OP, 2 * BLOCK_SIZE + MAX_DATA_OP) == MAX_DATA_OP + 1
  {
    assert LastLength(4194305, 65536, 4194304, 4325376) == 4194305;
  }

  /** One byte more than the limit, and no targets: one data operation with all of it. */
  method LimitExceeded(strong: StrongHash, source: Bytes) returns (ops: seq<Operation>)
    requires |source| == MAX_DATA_OP + 1
    ensures |ops| > 0 && ops[|ops| - 1].Data? && |ops[|ops| - 1].data| == MAX_DATA_OP + 1 && !Limited(ops, MAX_DATA_OP)
  {
    var input := Input(strong, BLOCK_SIZE, MAX_DATA_OP, [], map[], -1, source);
    var buffer := new byte[2 * BLOCK_SIZE + MAX_DATA_OP];
    ops := ComputeDiff(input, buffer);
    LastLengthAboveLimit();
  }

  // ----- the transposition shortcut

  /** isFullFileOp: the operation takes the whole of a target file that has the source's size. */
  predicate IsFullFileOp(op: Operation, targetSize: nat, sourceSize: nat, size: nat)
    requires size > 0
  {
    op.BlockRange? && op.blockIndex == 0 && targetSize == sourceSize && op.blockSpan == NumBlocks(sourceSize, size)
  }

  /**
   * When the first operation of a series that rebuilds the source is a full-file operation, the source is that
   * file and the rest adds nothing.
   */
  lemma TransposeIsApply(files: seq<Bytes>, size: nat, source: Bytes, ops: seq<Operation>)
    requires size > 0 && ops != [] && OpsBytes(files, size, ops) == source
    requires ops[0].BlockRange? && 0 <= ops[0].fileIndex < |files|
      && IsFullFileOp(ops[0], |files[ops[0].fileIndex]|, |source|, size)
    ensures source == files[ops[0].fileIndex] && OpsBytes(files, size, ops[1..]) == []
  {
    var op := ops[0];
    var file := files[op.fileIndex];
    NumBlocksOffsets(|file|, size, op.blockSpan);
    assert OpBytes(files, size, op) == file;
    OpsBytesAppend(files, size, [op], ops[1..]);
    assert ops == [op] + ops[1..];
    assert OpsBytes(files, size, [op]) == OpsBytes(files, size, []) + file == file;
  }
}
