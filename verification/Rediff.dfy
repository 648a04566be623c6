/** Rewriting a patch: files worth it get a bsdiff series against one target file instead of their rsync series. */
module Rediff {
  import opened Common
  import opened WsyncOps
  import opened SuffixSearch
  import opened BsdiffDiff
  import opened Patcher
  import opened PatchStream

  datatype DiffMapping = DiffMapping(targetIndex: nat, numBytes: int)

  // ----- what is read of an rsync patch

  /** The operations up to the next end marker. */
  function OpsFrom(msgs: seq<Message>, pos: nat): seq<Operation>
    decreases |msgs| - pos
  {
    if pos < |msgs| && msgs[pos].SyncOp? then [msgs[pos].op] + OpsFrom(msgs, pos + 1) else []
  }

  /** A well-formed series is its operations and an end marker. */
  lemma {:induction false} TailIsOps(env: Env, pos: nat)
    requires RsyncTail(env, pos).Some?
    ensures var ops, tail := OpsFrom(env.msgs, pos), RsyncTail(env, pos).value;
      && AllValid(env.targets, env.size, ops) && tail.next == pos + |ops| + 1 <= |env.msgs|
      && tail.bytes == OpsBytes(env.targets, env.size, ops)
    decreases |env.msgs| - pos
  {
    if env.msgs[pos].SyncOp? {
      TailIsOps(env, pos + 1);
      OpsBytesFront(env.targets, env.size, OpsFrom(env.msgs, pos));
    }
  }

  /** Where those operations are, and what ends them. */
  ghost predicate OpsAt(msgs: seq<Message>, pos: nat, ops: seq<Operation>) {
    && pos + |ops| < |msgs| && msgs[pos + |ops|].HeyYouDidIt?
    && forall m :: pos <= m < pos + |ops| ==> msgs[m] == SyncOp(ops[m - pos])
  }

  lemma {:induction false} OpsFromAt(env: Env, pos: nat)
    requires RsyncTail(env, pos).Some?
    ensures OpsAt(env.msgs, pos, OpsFrom(env.msgs, pos))
    decreases |env.msgs| - pos
  {
    if env.msgs[pos].SyncOp? {
      OpsFromAt(env, pos + 1);
    }
  }

  // ----- the heuristics

  /**
   * The bytes a range is credited with: the size of the block behind its last one, and one less than all its blocks.
   */
  function Credit(op: Operation, fileSize: nat, size: nat): int
    requires op.BlockRange? && size > 0
  {
    size * op.blockSpan - 1 + ComputeBlockSize(fileSize, op.blockIndex + op.blockSpan, size)
  }

  /**
   * The credit is what the range really contributes only in one corner: one byte of the file
   * is left behind its last block.
   */
  lemma CreditIsExact(targets: seq<Bytes>, size: nat, op: Operation)
    requires size >= 2 && op.BlockRange? && ValidOp(targets, size, op)
    ensures var fileSize := |targets[op.fileIndex]|;
      Credit(op, fileSize, size) == |OpBytes(targets, size, op)| <==>
        Offset(op.blockIndex + op.blockSpan, size) + 1 == fileSize
  {
    var fileSize, end := |targets[op.fileIndex]|, op.blockIndex + op.blockSpan;
    OffsetAdds(op.blockIndex, op.blockSpan - 1, size);
    OffsetIsProduct(op.blockSpan, size);
    assert size * op.blockSpan == op.blockSpan * size;
    NextBlockSize(fileSize, size, end);
  }

  /** What ComputeBlockSize says of the block behind the end of a range. */
  lemma NextBlockSize(fileSize: nat, size: nat, end: nat)
    requires size >= 2 && end > 0 && Offset(end - 1, size) < fileSize
    ensures var next := ComputeBlockSize(fileSize, end, size);
      if Offset(end, size) > fileSize then next == fileSize - Offset(end - 1, size)
      else if Offset(end, size) == fileSize then next == 0
      else next == Min(size, fileSize - Offset(end, size))
  {
    OffsetIsProduct(end, size);
    OffsetIsProduct(end - 1, size);
    assert size * (end + 1) == end * size + size;
    assert end * size == (end - 1) * size + size;
    if end * size > fileSize {
      ShortTail(fileSize, size, end - 1);
    } else if end * size == fileSize {
      ModOfMultiple(end, size);
    } else if (end + 1) * size > fileSize {
      ShortTail(fileSize, size, end);
    }
  }

  lemma ModOfMultiple(k: nat, size: nat)
    requires size > 0
    ensures k * size % size == 0
  {
    ModCongruent(k * size, 0, k, size);
  }

  predicate InTargets(ops: seq<Operation>, n: nat) {
    forall k :: 0 <= k < |ops| && ops[k].BlockRange? ==> 0 <= ops[k].fileIndex < n
  }

  /** The credits after one more operation. */
  function Credited(before: map<nat, int>, op: Operation, targetSizes: seq<nat>, size: nat): map<nat, int>
    requires size > 0 && (op.BlockRange? ==> 0 <= op.fileIndex < |targetSizes|)
  {
    if op.Data? then before
    else
      var t := op.fileIndex;
      before[t := (if t in before then before[t] else 0) + Credit(op, targetSizes[t], size)]
  }

  /** The credits of each target file over a whole series. */
  function Reused(ops: seq<Operation>, targetSizes: seq<nat>, size: nat): map<nat, int>
    requires size > 0 && InTargets(ops, |targetSizes|)
  {
    if ops == [] then map[]
    else Credited(Reused(ops[..|ops| - 1], targetSizes, size), ops[|ops| - 1], targetSizes, size)
  }

  function CountRanges(ops: seq<Operation>): nat {
    if ops == [] then 0 else CountRanges(ops[..|ops| - 1]) + if ops[|ops| - 1].BlockRange? then 1 else 0
  }

  /** What has been counted once n operations are read. */
  ghost predicate OpsRead(ops: seq<Operation>, n: nat, targetSizes: seq<nat>, size: nat, reused: map<nat, int>,
      ranges: nat, data: nat)
    requires size > 0 && InTargets(ops, |targetSizes|)
  {
    n <= |ops| && reused == Reused(ops[..n], targetSizes, size) && ranges == CountRanges(ops[..n]) && ranges + data == n
  }

  lemma OneMoreOp(ops: seq<Operation>, n: nat, targetSizes: seq<nat>, size: nat, reused: map<nat, int>,
      ranges: nat, data: nat)
    requires size > 0 && InTargets(ops, |targetSizes|) && n < |ops|
    requires OpsRead(ops, n, targetSizes, size, reused, ranges, data)
    ensures OpsRead(ops, n + 1, targetSizes, size, Credited(reused, ops[n], targetSizes, size),
      ranges + (if ops[n].BlockRange? then 1 else 0), data + if ops[n].Data? then 1 else 0)
  {
    assert ops[..n + 1][..n] == ops[..n];
  }

  lemma AllOpsRead(ops: seq<Operation>, targetSizes: seq<nat>, size: nat, reused: map<nat, int>, ranges: nat, data: nat)
    requires size > 0 && InTargets(ops, |targetSizes|)
    requires OpsRead(ops, |ops|, targetSizes, size, reused, ranges, data)
    ensures reused == Reused(ops, targetSizes, size) && ranges == CountRanges(ops) && ranges + data == |ops|
  {
    assert ops[..|ops|] == ops;
  }

  predicate TakesFrom(op: Operation, t: int) {
    op.BlockRange? && op.fileIndex == t
  }

  /** The reused files are those the series takes blocks from. */
  lemma {:induction false} ReusedTargets(ops: seq<Operation>, targetSizes: seq<nat>, size: nat, t: nat)
    requires size > 0 && InTargets(ops, |targetSizes|)
    ensures t in Reused(ops, targetSizes, size) <==> exists k :: 0 <= k < |ops| && TakesFrom(ops[k], t)
  {
    if ops != [] {
      var n := |ops| - 1;
      ReusedTargets(ops[..n], targetSizes, size, t);
      if t in Reused(ops, targetSizes, size) {
        if TakesFrom(ops[n], t) {
        } else {
          var k :| 0 <= k < n && TakesFrom(ops[..n][k], t);
          assert TakesFrom(ops[k], t);
        }
      }
      forall k | 0 <= k < n && TakesFrom(ops[k], t) ensures t in Reused(ops, targetSizes, size) {
        assert TakesFrom(ops[..n][k], t);
      }
    }
  }

  /** Valid ranges reach into files that have bytes. */
  lemma TakesNonEmpty(targets: seq<Bytes>, size: nat, ops: seq<Operation>, t: int)
    requires AllValid(targets, size, ops) && Takes(ops, t)
    ensures 0 <= t < |targets| && targets[t] != []
  {
  }

  /**
   * What all ranges of a series that take from target file t add up to: of each the size of the block behind it, and
   * one less than all its blocks.
   */
  function CreditTotal(ops: seq<Operation>, t: int, fileSize: nat, size: nat): int
    requires size > 0
  {
    if ops == [] then 0
    else
      var op := ops[0];
      CreditTotal(ops[1..], t, fileSize, size) + if TakesFrom(op, t)
        then size * op.blockSpan - 1 + ComputeBlockSize(fileSize, op.blockIndex + op.blockSpan, size)
        else 0
  }

  lemma {:induction false} CreditTotalSnoc(ops: seq<Operation>, op: Operation, t: int, fileSize: nat, size: nat)
    requires size > 0
    ensures CreditTotal(ops + [op], t, fileSize, size) ==
      CreditTotal(ops, t, fileSize, size) + if TakesFrom(op, t) then Credit(op, fileSize, size) else 0
  {
    if ops == [] {
      assert [] + [op] == [op] && [op][1..] == [];
    } else {
      CreditTotalSnoc(ops[1..], op, t, fileSize, size);
      assert (ops + [op])[1..] == ops[1..] + [op];
    }
  }

  /** What the loop keeps for a file is that total, and it keeps nothing for a file it takes nothing from. */
  lemma {:induction false} ReusedIsTotal(ops: seq<Operation>, targetSizes: seq<nat>, size: nat, t: nat)
    requires size > 0 && InTargets(ops, |targetSizes|) && t < |targetSizes|
    ensures var reused := Reused(ops, targetSizes, size);
      (if t in reused then reused[t] else 0) == CreditTotal(ops, t, targetSizes[t], size)
  {
    if ops != [] {
      var n := |ops| - 1;
      ReusedIsTotal(ops[..n], targetSizes, size, t);
      CreditTotalSnoc(ops[..n], ops[n], t, targetSizes[t], size);
      assert ops == ops[..n] + [ops[n]];
    }
  }

  /** Some range takes from target file t. */
  predicate Takes(ops: seq<Operation>, t: int) {
    exists k :: 0 <= k < |ops| && TakesFrom(ops[k], t)
  }

  lemma AppendOne<T>(a: seq<T>, b: seq<T>, c: seq<T>, x: T)
    ensures (a + (b + c)) + [x] == a + (b + (c + [x]))
  {
  }

  /** after is out, a header and the first n operations. */
  ghost predicate Copied(after: seq<Message>, out: seq<Message>, i: nat, ops: seq<Operation>, n: int) {
    0 <= n <= |ops| && after == out + ([Header(i, RsyncKind)] + SyncOps(ops[..n]))
  }

  lemma CopiedNext(after: seq<Message>, out: seq<Message>, i: nat, ops: seq<Operation>, n: int)
    requires Copied(after, out, i, ops, n) && n < |ops|
    ensures Copied(after + [SyncOp(ops[n])], out, i, ops, n + 1)
  {
    SyncOpsSnoc(ops, n);
    AppendOne(out, [Header(i, RsyncKind)], SyncOps(ops[..n]), SyncOp(ops[n]));
  }

  /** A copied series, with its end marker, means what the operations do. */
  lemma CopiedMeans(env: Env, contents: seq<Bytes>, i: nat, ops: seq<Operation>, out: seq<Message>,
      after: seq<Message>, done: seq<Message>)
    requires Copied(after, out, i, ops, |ops|) && done == after + [HeyYouDidIt]
    requires ops != [] && AllValid(env.targets, env.size, ops) && i < |contents|
      && OpsBytes(env.targets, env.size, ops) == contents[i]
    ensures out <= done && FileTail(env.(msgs := done), i, |out|) == Some(Tail(contents[i], |done|))
    ensures done == out + RsyncMessages(i, ops)
  {
    assert ops[..|ops|] == ops;
    AppendOne(out, [Header(i, RsyncKind)], SyncOps(ops), HeyYouDidIt);
    assert done == out + RsyncMessages(i, ops);
    RsyncSeriesMeans(env.(msgs := out), contents, i, ops);
  }

  class Context {
    const size: nat
    const targetPaths: seq<string>
    const targetSizes: seq<nat>
    const sourcePaths: seq<string>
    const sourceSizes: seq<nat>
    const rediffSizeLimit: nat
    const forceMapAll: bool
    var diffMappings: map<nat, DiffMapping>

    ghost predicate Valid() {
      size > 0 && |targetPaths| == |targetSizes| && |sourcePaths| == |sourceSizes| && Distinct(targetPaths)
    }

    constructor (size: nat, targetPaths: seq<string>, targetSizes: seq<nat>, sourcePaths: seq<string>,
        sourceSizes: seq<nat>, rediffSizeLimit: nat, forceMapAll: bool)
      requires size > 0 && |targetPaths| == |targetSizes| && |sourcePaths| == |sourceSizes| && Distinct(targetPaths)
      ensures Valid() && this.size == size && this.targetSizes == targetSizes && this.sourceSizes == sourceSizes
      ensures diffMappings == map[]
    {
      this.size, this.targetPaths, this.targetSizes := size, targetPaths, targetSizes;
      this.sourcePaths, this.sourceSizes := sourcePaths, sourceSizes;
      this.rediffSizeLimit, this.forceMapAll, diffMappings := rediffSizeLimit, forceMapAll, map[];
    }

    /**
     * m is what any order of going through the reused files ends with: a greatest credit, the file's own path first.
     */
    ghost predicate Best(reused: map<nat, int>, sourcePath: string, m: DiffMapping)
      requires forall t :: t in reused ==> t < |targetPaths|
    {
      && m.targetIndex in reused && reused[m.targetIndex] == m.numBytes
      && forall t :: t in reused ==>
        reused[t] <= m.numBytes && (reused[t] == m.numBytes && targetPaths[t] == sourcePath ==>
          targetPaths[m.targetIndex] == sourcePath)
    }

    method PickMapping(reused: map<nat, int>, sourcePath: string) returns (m: Option<DiffMapping>)
      requires Valid() && forall t :: t in reused ==> t < |targetPaths|
      ensures if m.None? then reused == map[] else Best(reused, sourcePath, m.value)
    {
      m := None;
      var remaining := reused.Keys;
      while remaining != {}
        invariant remaining <= reused.Keys
        invariant m.None? ==> remaining == reused.Keys
        invariant m.Some? ==> Best(map t | t in reused && t !in remaining :: reused[t], sourcePath, m.value)
        decreases |remaining|
      {
        var t :| t in remaining;
        if m.None? || reused[t] > m.value.numBytes || (reused[t] == m.value.numBytes && targetPaths[t] == sourcePath) {
          m := Some(DiffMapping(t, reused[t]));
        }
        remaining := remaining - {t};
      }
      if m.Some? {
        assert reused == map t | t in reused && t !in remaining :: reused[t];
      }
    }

    // ----- analyzePatch

    /** Newly empty files and single ranges are left alone. */
    predicate Skips(ops: seq<Operation>, i: nat)
      requires i < |sourceSizes|
    {
      !forceMapAll && (sourceSizes[i] == 0 || (|ops| == 1 && ops[0].BlockRange?))
    }

    function TotalOf(ops: seq<Operation>, t: nat): int
      requires Valid() && t < |targetSizes|
    {
      CreditTotal(ops, t, targetSizes[t], size)
    }

    /**
     * m is about a file the series takes from, of greatest total; the source file's own path goes first among equals.
     */
    ghost predicate Greatest(ops: seq<Operation>, sourcePath: string, m: DiffMapping)
      requires Valid()
    {
      && m.targetIndex < |targetSizes| && Takes(ops, m.targetIndex) && m.numBytes == TotalOf(ops, m.targetIndex)
      && forall t: nat :: t < |targetSizes| && Takes(ops, t) ==>
        TotalOf(ops, t) <= m.numBytes && (TotalOf(ops, t) == m.numBytes && targetPaths[t] == sourcePath ==>
          targetPaths[m.targetIndex] == sourcePath)
    }

    lemma BestIsGreatest(ops: seq<Operation>, sourcePath: string, m: DiffMapping)
      requires Valid() && InTargets(ops, |targetSizes|)
      requires forall t :: t in Reused(ops, targetSizes, size) ==> t < |targetPaths|
      requires Best(Reused(ops, targetSizes, size), sourcePath, m)
      ensures Greatest(ops, sourcePath, m)
    {
      ReusedTargets(ops, targetSizes, size, m.targetIndex);
      ReusedIsTotal(ops, targetSizes, size, m.targetIndex);
      forall t: nat | t < |targetSizes| && Takes(ops, t)
        ensures t in Reused(ops, targetSizes, size) && TotalOf(ops, t) == Reused(ops, targetSizes, size)[t]
      {
        ReusedTargets(ops, targetSizes, size, t);
        ReusedIsTotal(ops, targetSizes, size, t);
      }
    }

    /** m is a mapping that analyzing this series may end with. */
    ghost predicate Decided(ops: seq<Operation>, i: nat, m: Option<DiffMapping>)
      requires Valid() && i < |sourceSizes|
    {
      if Skips(ops, i) || sourceSizes[i] > rediffSizeLimit then m.None?
      else if exists t :: Takes(ops, t) then
        exists b :: Greatest(ops, sourcePaths[i], b) && m == if targetSizes[b.targetIndex] > rediffSizeLimit then None
          else Some(b)
      else
        if m.Some? then NamesakeAt(i, m.value.targetIndex) && m.value.numBytes == 0 else forall t :: !NamesakeAt(i, t)
    }

    /** Target file t has the path of source file i and is worth comparing with. */
    predicate NamesakeAt(i: nat, t: nat)
      requires Valid() && i < |sourceSizes|
    {
      t < |targetPaths| && targetPaths[t] == sourcePaths[i] && 0 < targetSizes[t] <= rediffSizeLimit
    }

    method MapFile(reused: map<nat, int>, numBlockRange: nat, numData: nat, i: nat, pathToIndex: map<string, nat>,
        ghost ops: seq<Operation>)
      returns (m: Option<DiffMapping>)
      requires Valid() && i < |sourceSizes| && InTargets(ops, |targetSizes|) && reused == Reused(ops, targetSizes, size)
      requires numBlockRange == CountRanges(ops) && numBlockRange + numData == |ops|
      requires forall p :: p in pathToIndex <==> p in targetPaths
      requires forall p :: p in pathToIndex ==> pathToIndex[p] < |targetPaths| && targetPaths[pathToIndex[p]] == p
      ensures Decided(ops, i, m)
    {
      if sourceSizes[i] == 0 && !forceMapAll {
        return None;
      } else if numBlockRange == 1 && numData == 0 && !forceMapAll {
        return None;
      }
      TargetsInRange(ops);
      m := PickMapping(reused, sourcePaths[i]);
      ghost var best := m;
      if m.None? && sourcePaths[i] in pathToIndex {
        var t := pathToIndex[sourcePaths[i]];
        if targetSizes[t] > 0 {
          m := Some(DiffMapping(t, 0));
        }
      }
      if sourceSizes[i] > rediffSizeLimit {
        m := None;
      }
      if m.Some? && targetSizes[m.value.targetIndex] > rediffSizeLimit {
        m := None;
      }
      if best.Some? {
        BestIsGreatest(ops, sourcePaths[i], best.value);
      }
    }

    /** The loop keeps a credit for a file of the container if and only if some range takes from it. */
    lemma TargetsInRange(ops: seq<Operation>)
      requires Valid() && InTargets(ops, |targetSizes|)
      ensures forall t :: t in Reused(ops, targetSizes, size) ==> t < |targetPaths|
      ensures Reused(ops, targetSizes, size) == map[] <==> forall t :: !Takes(ops, t)
    {
      forall t | t in Reused(ops, targetSizes, size) ensures t < |targetPaths| && Takes(ops, t) {
        ReusedTargets(ops, targetSizes, size, t);
      }
      forall t | Takes(ops, t) ensures t in Reused(ops, targetSizes, size) {
        ReusedTargets(ops, targetSizes, size, t);
      }
    }

    method ReadOp(op: Operation, reused0: map<nat, int>, ranges: nat, data: nat)
      returns (reused: map<nat, int>, numBlockRange: nat, numData: nat)
      requires Valid() && (op.BlockRange? ==> 0 <= op.fileIndex < |targetSizes|)
      ensures numBlockRange == ranges + (if op.BlockRange? then 1 else 0) && numData == data + if op.Data? then 1 else 0
      ensures reused == Credited(reused0, op, targetSizes, size)
    {
      reused, numBlockRange, numData := reused0, ranges, data;
      match op {
        case BlockRange(t, _, _) =>
          numBlockRange := numBlockRange + 1;
          var alreadyReused := if t in reused then reused[t] else 0;
          var lastBlockSize := ComputeBlockSize(targetSizes[t], op.blockIndex + op.blockSpan, size);
          var otherBlocksSize := size * op.blockSpan - 1;
          reused := reused[t := alreadyReused + otherBlocksSize + lastBlockSize];
        case Data(_) =>
          numData := numData + 1;
      }
    }

    /** The op loop of one file. */
    method ReadOps(msgs: seq<Message>, pos: nat, ghost targets: seq<Bytes>)
      returns (reused: map<nat, int>, numBlockRange: nat, numData: nat, next: nat)
      requires Valid() && RsyncTail(Env(msgs, targets, size), pos).Some? && |targets| == |targetSizes|
      ensures var ops := OpsFrom(msgs, pos);
        && InTargets(ops, |targetSizes|) && reused == Reused(ops, targetSizes, size)
        && numBlockRange == CountRanges(ops) && numBlockRange + numData == |ops|
        && next == RsyncTail(Env(msgs, targets, size), pos).value.next
    {
      ghost var env, ops := Env(msgs, targets, size), OpsFrom(msgs, pos);
      TailIsOps(env, pos);
      OpsFromAt(env, pos);
      reused, numBlockRange, numData, next := map[], 0, 0, pos;
      ghost var n := 0;
      while msgs[next].SyncOp?
        invariant 0 <= n <= |ops| && next == pos + n
        invariant OpsRead(ops, n, targetSizes, size, reused, numBlockRange, numData)
        decreases |ops| - n
      {
        OneMoreOp(ops, n, targetSizes, size, reused, numBlockRange, numData);
        reused, numBlockRange, numData := ReadOp(msgs[next].op, reused, numBlockRange, numData);
        next, n := next + 1, n + 1;
      }
      AllOpsRead(ops, targetSizes, size, reused, numBlockRange, numData);
      next := next + 1;
    }

    /** What Optimize may rely on: mapped target files have bytes, and neither side is over the limit. */
    ghost predicate MappingsOk()
      reads this
    {
      forall i :: i in diffMappings ==> MappingOk(i, diffMappings[i])
    }

    ghost predicate MappingOk(i: nat, m: DiffMapping) {
      && i < |sourceSizes| && sourceSizes[i] <= rediffSizeLimit
      && m.targetIndex < |targetSizes| && 0 < targetSizes[m.targetIndex] <= rediffSizeLimit
    }

    lemma DecidedIsOk(targets: seq<Bytes>, ops: seq<Operation>, i: nat, m: Option<DiffMapping>)
      requires Valid() && AllValid(targets, size, ops) && |targetSizes| == |targets| && i < |sourceSizes|
      requires forall t :: 0 <= t < |targets| ==> targetSizes[t] == |targets[t]|
      ensures InTargets(ops, |targetSizes|)
      ensures m.Some? && Decided(ops, i, m) ==> MappingOk(i, m.value)
    {
      forall t: nat | Takes(ops, t) ensures t < |targetSizes| && targetSizes[t] > 0 {
        TakesNonEmpty(targets, size, ops, t);
      }
    }

    /** The series of file i starts at start and ends before next, and m is a mapping that analyzing it may end with. */
    ghost predicate DecidedAt(env: Env, contents: seq<Bytes>, i: nat, start: nat, next: nat, m: Option<DiffMapping>)
      requires Valid() && i < |sourceSizes| == |contents|
    {
      var ops := OpsFrom(env.msgs, start + 1);
      FileTail(env, i, start) == Some(Tail(contents[i], next)) && Decided(ops, i, m)
    }

    function MappingOf(mappings: map<nat, DiffMapping>, i: nat): Option<DiffMapping> {
      if i in mappings then Some(mappings[i]) else None
    }

    method AnalyzeFile(env: Env, pos: nat, i: nat, pathToIndex: map<string, nat>, ghost contents: seq<Bytes>)
      returns (m: Option<DiffMapping>, next: nat)
      requires Valid() && i < |sourceSizes| == |contents| && |env.targets| == |targetSizes| && env.size == size
      requires forall t :: 0 <= t < |env.targets| ==> targetSizes[t] == |env.targets[t]|
      requires forall p :: p in pathToIndex <==> p in targetPaths
      requires forall p :: p in pathToIndex ==> pathToIndex[p] < |targetPaths| && targetPaths[pathToIndex[p]] == p
      requires RsyncPatchFrom(env, contents, i, pos)
      ensures DecidedAt(env, contents, i, pos, next, m) && RsyncPatchFrom(env, contents, i + 1, next)
      ensures m.Some? ==> MappingOk(i, m.value)
    {
      ghost var ops := OpsFrom(env.msgs, pos + 1);
      TailIsOps(env, pos + 1);
      var reused, numBlockRange, numData;
      reused, numBlockRange, numData, next := ReadOps(env.msgs, pos + 1, env.targets);
      m := MapFile(reused, numBlockRange, numData, i, pathToIndex, ops);
      DecidedIsOk(env.targets, ops, i, m);
    }

    /**
     * analyzePatch: it reads every series and decides on a mapping; whatever it decides, the mapped target has bytes.
     */
    method AnalyzePatch(env: Env, ghost contents: seq<Bytes>) returns (ghost starts: seq<nat>)
      requires Valid() && diffMappings == map[] && |contents| == |sourceSizes| && |env.targets| == |targetSizes|
        && env.size == size
      requires forall t :: 0 <= t < |env.targets| ==> targetSizes[t] == |env.targets[t]|
      requires RsyncPatchFrom(env, contents, 0, 0)
      modifies this
      ensures MappingsOk() && |starts| == |contents| + 1 && starts[0] == 0
      ensures forall i :: 0 <= i < |contents| ==> DecidedAt(env, contents, i, starts[i], starts[i + 1],
        MappingOf(diffMappings, i))
    {
      var pathToIndex := IndexPaths(targetPaths);
      var pos := 0;
      starts := [0];
      for i := 0 to |sourceSizes|
        invariant MappingsOk() && (forall k :: k in diffMappings ==> k < i)
        invariant |starts| == i + 1 && starts[0] == 0 && starts[i] == pos && RsyncPatchFrom(env, contents, i, pos)
        invariant forall k {:trigger MappingOf(diffMappings, k)} :: 0 <= k < i ==>
          DecidedAt(env, contents, k, starts[k], starts[k + 1], MappingOf(diffMappings, k))
      {
        ghost var before := diffMappings;
        var m, next := AnalyzeFile(env, pos, i, pathToIndex, contents);
        if m.Some? {
          diffMappings := diffMappings[i := m.value];
        }
        assert forall k :: 0 <= k < i ==> MappingOf(diffMappings, k) == MappingOf(before, k);
        pos, starts := next, starts + [next];
      }
    }

    // ----- Optimize

    /** Copy a series as it is. */
    method CopySeries(env: Env, pos: nat, i: nat, out: seq<Message>, ghost contents: seq<Bytes>)
      returns (after: seq<Message>, next: nat)
      requires i < |contents| && RsyncPatchFrom(env, contents, i, pos)
      ensures out <= after && FileTail(env.(msgs := after), i, |out|) == Some(Tail(contents[i], |after|))
      ensures after == out + RsyncMessages(i, OpsFrom(env.msgs, pos + 1))
      ensures RsyncPatchFrom(env, contents, i + 1, next) && FileTail(env, i, pos) == Some(Tail(contents[i], next))
    {
      ghost var ops := OpsFrom(env.msgs, pos + 1);
      TailIsOps(env, pos + 1);
      OpsFromAt(env, pos + 1);
      after, next := out + [env.msgs[pos]], pos + 1;
      while env.msgs[next].SyncOp?
        invariant pos + 1 <= next <= pos + 1 + |ops|
        invariant Copied(after, out, i, ops, next - pos - 1)
        decreases pos + 1 + |ops| - next
      {
        CopiedNext(after, out, i, ops, next - pos - 1);
        after := after + [env.msgs[next]];
        next := next + 1;
      }
      CopiedMeans(env, contents, i, ops, out, after, after + [HeyYouDidIt]);
      next, after := next + 1, after + [HeyYouDidIt];
    }

    /** Throw the operations away. */
    method SkipSeries(env: Env, pos: nat, i: nat, ghost contents: seq<Bytes>) returns (next: nat)
      requires i < |contents| && RsyncPatchFrom(env, contents, i, pos)
      ensures RsyncPatchFrom(env, contents, i + 1, next) && FileTail(env, i, pos) == Some(Tail(contents[i], next))
    {
      ghost var ops := OpsFrom(env.msgs, pos + 1);
      TailIsOps(env, pos + 1);
      OpsFromAt(env, pos + 1);
      next := pos + 1;
      while env.msgs[next].SyncOp?
        invariant pos + 1 <= next <= pos + 1 + |ops|
        decreases pos + 1 + |ops| - next
      {
        next := next + 1;
      }
      next := next + 1;
    }

    /** bsdiff can be asked to make this source file. */
    predicate Diffable(env: Env, sources: seq<Bytes>, asked: nat, i: nat, m: DiffMapping)
      requires i < |sources| && m.targetIndex < |env.targets|
    {
      sources[i] == [] || |sources[i]| >= Partitions(asked, |env.targets[m.targetIndex]|)
    }

    method RewriteSeries(env: Env, sources: seq<Bytes>, asked: nat, sorter: Bytes -> seq<int>, i: nat, m: DiffMapping,
        out: seq<Message>)
      returns (after: Result<seq<Message>>)
      requires i < |sources| && m.targetIndex < |env.targets| && env.targets[m.targetIndex] != []
        && SortsSuffixes(sorter)
      ensures after.Ok? <==> Diffable(env, sources, asked, i, m)
      ensures after.Ok? ==>
        out <= after.value && FileTail(env.(msgs := after.value), i, |out|) == Some(Tail(sources[i], |after.value|))
      ensures after.Ok? ==> Rewritten(env, sources[i], asked, i, m, after.value[|out|..])
    {
      var ctrls := Do(env.targets[m.targetIndex], sources[i], asked, sorter);
      if ctrls.Err? {
        return Err(ctrls.reason);
      }
      BsdiffSeriesMeans(env.(msgs := out), sources, i, m.targetIndex, ctrls.value);
      after := Ok(out + BsdiffMessages(i, m.targetIndex, ctrls.value));
      assert after.value[|out|..] == BsdiffMessages(i, m.targetIndex, ctrls.value);
    }

    /** Series i is a bsdiff series against the mapped file, with what the differ sends. */
    ghost predicate Rewritten(env: Env, source: Bytes, asked: nat, i: nat, m: DiffMapping, series: seq<Message>)
      requires m.targetIndex < |env.targets|
    {
      exists ctrls :: series == BsdiffMessages(i, m.targetIndex, ctrls)
        && Diffed(env.targets[m.targetIndex], source, asked, ctrls)
    }

    /** A bsdiff series if file i is mapped, and else the series the old patch has at pos. */
    ghost predicate OptimizedSeries(env: Env, sources: seq<Bytes>, asked: nat, i: nat, pos: nat, series: seq<Message>)
      requires i < |sources| && (i in diffMappings ==> diffMappings[i].targetIndex < |env.targets|)
      reads this
    {
      if i in diffMappings then Rewritten(env, sources[i], asked, i, diffMappings[i], series)
      else series == RsyncMessages(i, OpsFrom(env.msgs, pos + 1))
    }

    ghost predicate OptimizedAt(env: Env, sources: seq<Bytes>, asked: nat, out: seq<Message>, starts: seq<nat>, i: nat,
        pos: nat)
      requires i < |sources| && i + 1 < |starts| && starts[i] <= starts[i + 1] <= |out|
      requires i in diffMappings ==> diffMappings[i].targetIndex < |env.targets|
      reads this
    {
      OptimizedSeries(env, sources, asked, i, pos, out[starts[i]..starts[i + 1]])
    }

    /** The first series of the new patch are what they should be; the old patch has them at olds. */
    ghost predicate OptimizedUpTo(env: Env, sources: seq<Bytes>, asked: nat, out: seq<Message>, starts: seq<nat>,
        olds: seq<nat>)
      requires MappingsOk() && |env.targets| == |targetSizes|
      reads this
    {
      && 0 < |starts| == |olds| <= |sources| + 1 && starts[0] == olds[0] == 0 && starts[|starts| - 1] == |out|
      && (forall i, j :: 0 <= i <= j < |starts| ==> starts[i] <= starts[j] <= |out|)
      && forall i :: 0 <= i < |starts| - 1 ==>
        && FileTail(env, i, olds[i]) == Some(Tail(sources[i], olds[i + 1]))
        && OptimizedAt(env, sources, asked, out, starts, i, olds[i])
    }

    lemma OptimizedNext(env: Env, sources: seq<Bytes>, asked: nat, out: seq<Message>, starts: seq<nat>, olds: seq<nat>,
        after: seq<Message>, next: nat)
      requires MappingsOk() && |env.targets| == |targetSizes|
      requires OptimizedUpTo(env, sources, asked, out, starts, olds) && out <= after && |starts| <= |sources|
      requires var i := |starts| - 1;
        && FileTail(env, i, olds[i]) == Some(Tail(sources[i], next))
        && OptimizedSeries(env, sources, asked, i, olds[i], after[|out|..])
      ensures OptimizedUpTo(env, sources, asked, after, starts + [|after|], olds + [next])
    {
      var more, pos := starts + [|after|], olds + [next];
      forall i | 0 <= i < |more| - 1
        ensures FileTail(env, i, pos[i]) == Some(Tail(sources[i], pos[i + 1]))
        ensures OptimizedAt(env, sources, asked, after, more, i, pos[i])
      {
        if i < |starts| - 1 {
          assert OptimizedAt(env, sources, asked, out, starts, i, olds[i]);
          assert after[more[i]..more[i + 1]] == out[starts[i]..starts[i + 1]];
        } else {
          assert after[more[i]..more[i + 1]] == after[|out|..];
        }
      }
    }

    /** One series of the old patch is copied, or thrown away and written anew. */
    method OptimizeSeries(env: Env, sources: seq<Bytes>, asked: nat, sorter: Bytes -> seq<int>, i: nat, pos: nat,
        out: seq<Message>)
      returns (after: Result<seq<Message>>, next: nat)
      requires Valid() && MappingsOk() && |sources| == |sourceSizes| && |env.targets| == |targetSizes|
        && SortsSuffixes(sorter)
      requires forall t :: 0 <= t < |env.targets| ==> targetSizes[t] == |env.targets[t]|
      requires i < |sources| && RsyncPatchFrom(env, sources, i, pos)
      ensures after.Ok? <==> (i in diffMappings ==> Diffable(env, sources, asked, i, diffMappings[i]))
      ensures after.Ok? ==>
        out <= after.value && FileTail(env.(msgs := after.value), i, |out|) == Some(Tail(sources[i], |after.value|))
      ensures RsyncPatchFrom(env, sources, i + 1, next) && FileTail(env, i, pos) == Some(Tail(sources[i], next))
      ensures after.Ok? ==> OptimizedSeries(env, sources, asked, i, pos, after.value[|out|..])
    {
      if i !in diffMappings {
        var copied, behind := CopySeries(env, pos, i, out, sources);
        return Ok(copied), behind;
      }
      next := SkipSeries(env, pos, i, sources);
      assert MappingOk(i, diffMappings[i]);
      after := RewriteSeries(env, sources, asked, sorter, i, diffMappings[i], out);
    }

    /**
     * Optimize: mapped files get a bsdiff series, the others keep theirs. It goes through exactly when bsdiff
     * can make every mapped file, and then the new patch makes the same contents as the old one.
     */
    method Optimize(env: Env, sources: seq<Bytes>, asked: nat, sorter: Bytes -> seq<int>)
      returns (r: Result<seq<Message>>, ghost starts: seq<nat>, ghost olds: seq<nat>)
      requires Valid() && MappingsOk() && |sources| == |sourceSizes| && |env.targets| == |targetSizes|
        && SortsSuffixes(sorter)
      requires forall t :: 0 <= t < |env.targets| ==> targetSizes[t] == |env.targets[t]|
      requires RsyncPatchFrom(env, sources, 0, 0)
      ensures r.Ok? <==> forall i :: i in diffMappings ==> Diffable(env, sources, asked, i, diffMappings[i])
      ensures r.Ok? ==> PatchFrom(env.(msgs := r.value), sources, 0, 0)
      ensures r.Ok? ==>
        |starts| == |sources| + 1 && OptimizedUpTo(env, sources, asked, r.value, starts, olds)
    {
      var out, pos := [], 0;
      starts, olds := [0], [0];
      for i := 0 to |sources|
        invariant |starts| == i + 1 && Sections(env.(msgs := out), sources, starts)
          && RsyncPatchFrom(env, sources, i, pos)
        invariant OptimizedUpTo(env, sources, asked, out, starts, olds) && olds[i] == pos
        invariant forall k :: k in diffMappings && k < i ==> Diffable(env, sources, asked, k, diffMappings[k])
      {
        var after, next := OptimizeSeries(env, sources, asked, sorter, i, pos, out);
        if after.Err? {
          return Err(after.reason), starts, olds;
        }
        OptimizedNext(env, sources, asked, out, starts, olds, after.value, next);
        SectionsGrow(env.(msgs := out), sources, starts, after.value);
        out, pos := after.value, next;
        starts, olds := starts + [|out|], olds + [pos];
      }
      SectionsMakePatch(env.(msgs := out), sources, starts, 0);
      r := Ok(out);
    }
  }
}
