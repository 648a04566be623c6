/** Writing a patch: one series of messages for each source file. */
module PatchStream {
  import opened Common
  import opened WsyncOps
  import opened WsyncDiff
  import opened WsyncRun
  import opened WsyncWindow
  import opened WsyncGreedy
  import opened WsyncKnown
  import opened WsyncComputeDiff
  import opened BsdiffPatch
  import opened Patcher

  // ----- a series on its own

  function SyncOps(ops: seq<Operation>): seq<Message> {
    seq(|ops|, k requires 0 <= k < |ops| => SyncOp(ops[k]))
  }

  lemma SyncOpsSnoc(ops: seq<Operation>, n: nat)
    requires n < |ops|
    ensures SyncOps(ops[..n + 1]) == SyncOps(ops[..n]) + [SyncOp(ops[n])]
  {
  }

  function RsyncMessages(i: nat, ops: seq<Operation>): seq<Message> {
    [Header(i, RsyncKind)] + SyncOps(ops) + [HeyYouDidIt]
  }

  function Ctrls(ctrls: seq<Control>): seq<Message> {
    seq(|ctrls|, k requires 0 <= k < |ctrls| => Ctrl(ctrls[k]))
  }

  function BsdiffMessages(i: nat, targetIndex: nat, ctrls: seq<Control>): seq<Message> {
    [Header(i, BsdiffKind), BsdiffHeader(targetIndex)] + Ctrls(ctrls) + [HeyYouDidIt]
  }

  ghost predicate AllValid(targets: seq<Bytes>, size: nat, ops: seq<Operation>) {
    forall k :: 0 <= k < |ops| ==> ValidOp(targets, size, ops[k])
  }

  lemma OpsBytesFront(files: seq<Bytes>, size: nat, ops: seq<Operation>)
    requires ops != []
    ensures OpsBytes(files, size, ops) == OpBytes(files, size, ops[0]) + OpsBytes(files, size, ops[1..])
  {
    assert ops == [ops[0]] + ops[1..];
    OpsBytesAppend(files, size, [ops[0]], ops[1..]);
    OpsBytesSnoc(files, size, [], ops[0]);
    assert [] + [ops[0]] == [ops[0]];
    assert OpsBytes(files, size, []) + OpBytes(files, size, ops[0]) == OpBytes(files, size, ops[0]);
  }

  /** Operations followed by the end marker stand for their bytes, wherever they are in the stream. */
  lemma {:induction false} OpsMean(env: Env, pos: nat, ops: seq<Operation>)
    requires pos + |ops| < |env.msgs| && env.msgs[pos + |ops|].HeyYouDidIt? && AllValid(env.targets, env.size, ops)
    requires forall k :: 0 <= k < |ops| ==> env.msgs[pos + k] == SyncOp(ops[k])
    ensures RsyncTail(env, pos) == Some(Tail(OpsBytes(env.targets, env.size, ops), pos + |ops| + 1))
    decreases |ops|
  {
    if ops != [] {
      assert env.msgs[pos + 0] == SyncOp(ops[0]);
      forall k | 0 <= k < |ops[1..]| ensures env.msgs[pos + 1 + k] == SyncOp(ops[1..][k]) {
        assert env.msgs[pos + (k + 1)] == SyncOp(ops[k + 1]);
      }
      OpsMean(env, pos + 1, ops[1..]);
      OpsBytesFront(env.targets, env.size, ops);
    }
  }

  /** Control messages, the last of which ends the stream, stand for what patching with them gives. */
  lemma {:induction false} CtrlsMean(env: Env, pos: nat, old_: Bytes, oldOffset: int, ctrls: seq<Control>)
    requires pos + |ctrls| < |env.msgs| && env.msgs[pos + |ctrls|].HeyYouDidIt? && OnlyLastEof(ctrls)
    requires forall k :: 0 <= k < |ctrls| ==> env.msgs[pos + k] == Ctrl(ctrls[k])
    requires RunPatch(old_, oldOffset, ctrls).Some?
    ensures BsdiffTail(env, old_, oldOffset, pos) == Some(Tail(RunPatch(old_, oldOffset, ctrls).value,
      pos + |ctrls| + 1))
    decreases |ctrls|
  {
    assert env.msgs[pos + 0] == Ctrl(ctrls[0]);
    if |ctrls| > 1 {
      forall k | 0 <= k < |ctrls[1..]| ensures env.msgs[pos + 1 + k] == Ctrl(ctrls[1..][k]) {
        assert env.msgs[pos + (k + 1)] == Ctrl(ctrls[k + 1]);
      }
      CtrlsMean(env, pos + 1, old_, ApplyControl(old_, oldOffset, ctrls[0]).value.next, ctrls[1..]);
    }
  }

  // ----- series after series

  /** Series i of env starts at starts[i] and means contents[i]. */
  ghost predicate SectionAt(env: Env, contents: seq<Bytes>, starts: seq<nat>, i: nat)
    requires i < |contents| && i + 1 < |starts|
  {
    FileTail(env, i, starts[i]) == Some(Tail(contents[i], starts[i + 1]))
  }

  /** env holds the series of the first files, and nothing else. */
  ghost predicate Sections(env: Env, contents: seq<Bytes>, starts: seq<nat>) {
    && 0 < |starts| <= |contents| + 1 && starts[0] == 0 && starts[|starts| - 1] == |env.msgs|
    && forall i :: 0 <= i < |starts| - 1 ==> SectionAt(env, contents, starts, i)
  }

  lemma {:induction false} RsyncTailExtends(env: Env, more: seq<Message>, pos: nat)
    requires RsyncTail(env, pos).Some?
    ensures RsyncTail(env.(msgs := env.msgs + more), pos) == RsyncTail(env, pos)
    decreases |env.msgs| - pos
  {
    if env.msgs[pos].SyncOp? {
      RsyncTailExtends(env, more, pos + 1);
    }
  }

  lemma {:induction false} BsdiffTailExtends(env: Env, more: seq<Message>, old_: Bytes, oldOffset: int, pos: nat)
    requires BsdiffTail(env, old_, oldOffset, pos).Some?
    ensures BsdiffTail(env.(msgs := env.msgs + more), old_, oldOffset, pos) == BsdiffTail(env, old_, oldOffset, pos)
    decreases |env.msgs| - pos
  {
    if !env.msgs[pos].ctrl.eof {
      BsdiffTailExtends(env, more, old_, ApplyControl(old_, oldOffset, env.msgs[pos].ctrl).value.next, pos + 1);
    }
  }

  lemma FileTailExtends(env: Env, more: seq<Message>, i: nat, pos: nat)
    requires FileTail(env, i, pos).Some?
    ensures FileTail(env.(msgs := env.msgs + more), i, pos) == FileTail(env, i, pos)
  {
    if env.msgs[pos].kind.RsyncKind? {
      RsyncTailExtends(env, more, pos + 1);
    } else {
      BsdiffTailExtends(env, more, env.targets[env.msgs[pos + 1].targetIndex], 0, pos + 2);
    }
  }

  /** Appending the next file's series. */
  lemma SectionsGrow(env: Env, contents: seq<Bytes>, starts: seq<nat>, after: seq<Message>)
    requires Sections(env, contents, starts) && |starts| <= |contents| && env.msgs <= after
    requires FileTail(env.(msgs := after), |starts| - 1, |env.msgs|) == Some(Tail(contents[|starts| - 1], |after|))
    ensures Sections(env.(msgs := after), contents, starts + [|after|])
  {
    var more := starts + [|after|];
    assert after == env.msgs + after[|env.msgs|..];
    forall i | 0 <= i < |more| - 1 ensures SectionAt(env.(msgs := after), contents, more, i) {
      if i < |starts| - 1 {
        assert SectionAt(env, contents, starts, i);
        FileTailExtends(env, after[|env.msgs|..], i, starts[i]);
      }
    }
  }

  lemma RsyncSeriesMeans(env: Env, contents: seq<Bytes>, i: nat, ops: seq<Operation>)
    requires ops != [] && AllValid(env.targets, env.size, ops) && i < |contents|
      && OpsBytes(env.targets, env.size, ops) == contents[i]
    ensures var after := env.(msgs := env.msgs + RsyncMessages(i, ops));
      FileTail(after, i, |env.msgs|) == Some(Tail(contents[i], |after.msgs|))
  {
    var after, at := env.(msgs := env.msgs + RsyncMessages(i, ops)), |env.msgs|;
    assert after.msgs[at] == Header(i, RsyncKind);
    forall k | 0 <= k < |ops| ensures after.msgs[at + 1 + k] == SyncOp(ops[k]) {
    }
    assert after.msgs[at + 1 + 0] == SyncOp(ops[0]);
    OpsMean(after, at + 1, ops);
  }

  lemma BsdiffSeriesMeans(env: Env, contents: seq<Bytes>, i: nat, targetIndex: nat, ctrls: seq<Control>)
    requires targetIndex < |env.targets| && i < |contents| && OnlyLastEof(ctrls)
    requires RunPatch(env.targets[targetIndex], 0, ctrls) == Some(contents[i])
    ensures var after := env.(msgs := env.msgs + BsdiffMessages(i, targetIndex, ctrls));
      FileTail(after, i, |env.msgs|) == Some(Tail(contents[i], |after.msgs|))
  {
    var after, at := env.(msgs := env.msgs + BsdiffMessages(i, targetIndex, ctrls)), |env.msgs|;
    assert after.msgs[at] == Header(i, BsdiffKind) && after.msgs[at + 1] == BsdiffHeader(targetIndex);
    forall k | 0 <= k < |ctrls| ensures after.msgs[at + 2 + k] == Ctrl(ctrls[k]) {
    }
    CtrlsMean(after, at + 2, env.targets[targetIndex], 0, ctrls);
  }

  /** All series together are a patch that makes the contents. */
  lemma {:induction false} SectionsMakePatch(env: Env, contents: seq<Bytes>, starts: seq<nat>, i: nat)
    requires Sections(env, contents, starts) && |starts| == |contents| + 1 && i <= |contents|
    ensures PatchFrom(env, contents, i, starts[i])
    decreases |contents| - i
  {
    if i < |contents| {
      assert SectionAt(env, contents, starts, i);
      SectionsMakePatch(env, contents, starts, i + 1);
    }
  }

  // ----- writing the operations, and counting their bytes

  /** The bytes that messages ship. */
  function FreshIn(msgs: seq<Message>): nat {
    if msgs == [] then 0 else FreshIn(msgs[..|msgs| - 1]) + Shipped(msgs[|msgs| - 1])
  }

  function Shipped(m: Message): nat {
    if m.SyncOp? && m.op.Data? then |m.op.data| else 0
  }

  /** The bytes that messages copy from the target files. */
  ghost function ReusedIn(targets: seq<Bytes>, size: nat, msgs: seq<Message>): nat {
    if msgs == [] then 0 else ReusedIn(targets, size, msgs[..|msgs| - 1]) + ReusedBy(targets, size, msgs[|msgs| - 1])
  }

  ghost function ReusedBy(targets: seq<Bytes>, size: nat, m: Message): nat {
    if m.SyncOp? && m.op.BlockRange? then |OpBytes(targets, size, m.op)| else 0
  }

  /** The two counts are those of the messages. */
  ghost predicate Counted(targets: seq<Bytes>, size: nat, msgs: seq<Message>, reusedBytes: int, freshBytes: int) {
    reusedBytes == ReusedIn(targets, size, msgs) && freshBytes == FreshIn(msgs)
  }

  lemma CountedSnoc(targets: seq<Bytes>, size: nat, msgs: seq<Message>, m: Message, reusedBytes: int, freshBytes: int)
    requires Counted(targets, size, msgs, reusedBytes, freshBytes)
    ensures Counted(targets, size, msgs + [m], reusedBytes + ReusedBy(targets, size, m), freshBytes + Shipped(m))
  {
    assert (msgs + [m])[..|msgs|] == msgs;
  }

  lemma {:induction false} CountedAppend(targets: seq<Bytes>, size: nat, a: seq<Message>, b: seq<Message>)
    ensures Counted(targets, size, a + b, ReusedIn(targets, size, a) + ReusedIn(targets, size, b),
      FreshIn(a) + FreshIn(b))
  {
    if b == [] {
      assert a + b == a;
    } else {
      var n := |b| - 1;
      CountedAppend(targets, size, a, b[..n]);
      CountedSnoc(targets, size, a + b[..n], b[n], ReusedIn(targets, size, a + b[..n]), FreshIn(a + b[..n]));
      assert (a + b[..n]) + [b[n]] == a + b;
    }
  }

  /** Header and end marker count for nothing. */
  lemma SeriesCounted(targets: seq<Bytes>, size: nat, i: nat, written: seq<Message>, reusedBytes: int, freshBytes: int)
    requires Counted(targets, size, written, reusedBytes, freshBytes)
    ensures Counted(targets, size, [Header(i, RsyncKind)] + written + [HeyYouDidIt], reusedBytes, freshBytes)
  {
    var header: Message := Header(i, RsyncKind);
    CountedSnoc(targets, size, [], header, 0, 0);
    assert [] + [header] == [header];
    CountedAppend(targets, size, [header], written);
    CountedSnoc(targets, size, [header] + written, HeyYouDidIt, reusedBytes, freshBytes);
  }

  lemma OpsNext(targets: seq<Bytes>, size: nat, ops: seq<Operation>, k: nat)
    requires k < |ops|
    ensures SyncOps(ops[..k + 1]) == SyncOps(ops[..k]) + [SyncOp(ops[k])]
    ensures |OpsBytes(targets, size, ops[..k + 1])| == |OpsBytes(targets, size, ops[..k])| +
      |OpBytes(targets, size, ops[k])|
  {
    assert ops[..k + 1][..k] == ops[..k];
    SyncOpsSnoc(ops, k);
  }

  /** A range is counted with just the bytes it copies, short last block included. */
  lemma RangeIsCounted(targets: seq<Bytes>, size: nat, op: Operation)
    requires size > 0 && op.BlockRange? && ValidOp(targets, size, op)
    ensures size * (op.blockSpan - 1) + ComputeBlockSize(|targets[op.fileIndex]|, op.blockIndex + op.blockSpan - 1,
      size)
      == |OpBytes(targets, size, op)|
  {
    CopySize(|targets[op.fileIndex]|, size, op.blockIndex, op.blockSpan);
    assert size * (op.blockSpan - 1) == (op.blockSpan - 1) * size;
  }

  /**
   * makeOpsWriter: bytes taken from the target and bytes shipped are counted; together
   * that is every byte of the source.
   */
  method WriteOps(targetSizes: seq<nat>, size: nat, ops: seq<Operation>, ghost targets: seq<Bytes>)
    returns (msgs: seq<Message>, reusedBytes: int, freshBytes: int)
    requires size > 0 && AllValid(targets, size, ops) && targetSizes == Sizes(targets)
    ensures msgs == SyncOps(ops) && Counted(targets, size, msgs, reusedBytes, freshBytes)
    ensures reusedBytes + freshBytes == |OpsBytes(targets, size, ops)|
  {
    msgs, reusedBytes, freshBytes := [], 0, 0;
    for k := 0 to |ops|
      invariant msgs == SyncOps(ops[..k]) && Counted(targets, size, msgs, reusedBytes, freshBytes)
      invariant reusedBytes + freshBytes == |OpsBytes(targets, size, ops[..k])|
    {
      OpsNext(targets, size, ops, k);
      var reused, shipped := CountOp(targetSizes, size, ops[k], targets);
      CountedSnoc(targets, size, msgs, SyncOp(ops[k]), reusedBytes, freshBytes);
      reusedBytes, freshBytes := reusedBytes + reused, freshBytes + shipped;
      msgs := msgs + [SyncOp(ops[k])];
    }
    assert ops[..|ops|] == ops;
  }

  method CountOp(targetSizes: seq<nat>, size: nat, op: Operation, ghost targets: seq<Bytes>)
    returns (reused: int, shipped: int)
    requires size > 0 && ValidOp(targets, size, op) && targetSizes == Sizes(targets)
    ensures reused == ReusedBy(targets, size, SyncOp(op)) && shipped == Shipped(SyncOp(op))
    ensures reused + shipped == |OpBytes(targets, size, op)|
  {
    match op
    case BlockRange(fileIndex, blockIndex, blockSpan) =>
      RangeIsCounted(targets, size, op);
      var tailSize := ComputeBlockSize(targetSizes[fileIndex], blockIndex + blockSpan - 1, size);
      reused, shipped := size * (blockSpan - 1) + tailSize, 0;
    case Data(data) =>
      reused, shipped := 0, |data|;
  }

  /** The operations are those of the plain scan, with no ranges left to join. */
  ghost predicate Planned(input: Input, ops: seq<Operation>) {
    input.size > 0 && Tokens(ops) == Greedy(input, 0, false) && Apart(ops)
      && FinalTidy(ops, input.maxData, input.size)
  }

  /** One source file: its operations between its header and the end marker, behind what is written already. */
  method WriteSeries(strong: StrongHash, size: nat, maxData: nat, library: map<int, seq<BlockHash>>, preferred: int,
      buffer: array<byte>, targetSizes: seq<nat>, msgs: seq<Message>, i: nat, source: Bytes, ghost targets: seq<Bytes>,
      ghost sources: seq<Bytes>)
    returns (after: seq<Message>, reusedBytes: int, freshBytes: int, ghost ops: seq<Operation>)
    requires size >= 2 && maxData > 0 && buffer.Length >= size * 2 + maxData && i < |sources| && sources[i] == source
    requires forall weak :: Bucket(library, weak) == WithWeak(Signature(strong, size, targets, 0), weak)
    requires Separates(strong, size, targets, source) && targetSizes == Sizes(targets)
    modifies buffer
    ensures after == msgs + RsyncMessages(i, ops) && after[|msgs|] == Header(i, RsyncKind)
    ensures Planned(Input(strong, size, maxData, targets, library, preferred, source), ops)
    ensures FileTail(Env(after, targets, size), i, |msgs|) == Some(Tail(source, |after|))
    ensures Counted(targets, size, after[|msgs|..], reusedBytes, freshBytes) && reusedBytes + freshBytes == |source|
  {
    var input := Input(strong, size, maxData, targets, library, preferred, source);
    FromSignatureOk(input);
    var diff := ComputeDiff(input, buffer);
    ops := diff;
    var written;
    written, reusedBytes, freshBytes := WriteOps(targetSizes, size, diff, targets);
    RsyncSeriesMeans(Env(msgs, targets, size), sources, i, ops);
    SeriesCounted(targets, size, i, written, reusedBytes, freshBytes);
    after := msgs + ([Header(i, RsyncKind)] + written + [HeyYouDidIt]);
    assert after[|msgs|..] == [Header(i, RsyncKind)] + written + [HeyYouDidIt];
  }

  /** The last place of a path. */
  predicate LastIs(paths: seq<string>, path: string, k: int) {
    0 <= k < |paths| && paths[k] == path && forall j :: k < j < |paths| ==> paths[j] != path
  }

  /** The target file of the same path, or -1 if there is none. */
  predicate PreferredIs(targetPaths: seq<string>, path: string, preferred: int) {
    if path in targetPaths then LastIs(targetPaths, path, preferred) else preferred == -1
  }

  method IndexPaths(paths: seq<string>) returns (pathToIndex: map<string, nat>)
    ensures forall p :: p in pathToIndex <==> p in paths
    ensures forall p :: p in pathToIndex ==> LastIs(paths, p, pathToIndex[p])
  {
    pathToIndex := map[];
    for k := 0 to |paths|
      invariant forall p :: p in pathToIndex <==> p in paths[..k]
      invariant forall p :: p in pathToIndex ==> LastIs(paths[..k], p, pathToIndex[p])
    {
      pathToIndex := pathToIndex[paths[k] := k];
      assert paths[..k + 1] == paths[..k] + [paths[k]];
    }
    assert paths[..|paths|] == paths;
  }

  /** A patch whose series are all rsync series. */
  ghost predicate RsyncPatchFrom(env: Env, contents: seq<Bytes>, i: nat, pos: nat)
    requires i <= |contents|
    decreases |contents| - i
  {
    i < |contents| ==>
      var tail := FileTail(env, i, pos);
      && tail.Some? && tail.value.bytes == contents[i] && env.msgs[pos].kind.RsyncKind?
      && RsyncPatchFrom(env, contents, i + 1, tail.value.next)
  }

  lemma {:induction false} RsyncPatchIsPatch(env: Env, contents: seq<Bytes>, i: nat, pos: nat)
    requires i <= |contents| && RsyncPatchFrom(env, contents, i, pos)
    ensures PatchFrom(env, contents, i, pos)
    decreases |contents| - i
  {
    if i < |contents| {
      RsyncPatchIsPatch(env, contents, i + 1, FileTail(env, i, pos).value.next);
    }
  }

  ghost predicate RsyncStarts(env: Env, starts: seq<nat>) {
    forall i :: 0 <= i < |starts| - 1 ==> starts[i] < |env.msgs| && env.msgs[starts[i]] == Header(i, RsyncKind)
  }

  lemma {:induction false} SectionsMakeRsyncPatch(env: Env, contents: seq<Bytes>, starts: seq<nat>, i: nat)
    requires Sections(env, contents, starts) && RsyncStarts(env, starts) && |starts| == |contents| + 1
      && i <= |contents|
    ensures RsyncPatchFrom(env, contents, i, starts[i])
    decreases |contents| - i
  {
    if i < |contents| {
      assert SectionAt(env, contents, starts, i);
      SectionsMakeRsyncPatch(env, contents, starts, i + 1);
    }
  }

  /** One series after the other, numbered from first on. */
  function AllSeries(series: seq<seq<Operation>>): seq<Message> {
    if series == [] then [] else AllSeries(series[..|series| - 1]) + RsyncMessages(|series| - 1, series[|series| - 1])
  }

  /** Series i is what the plain scan of source file i says, with the target file of its path preferred. */
  ghost predicate SeriesPlanned(strong: StrongHash, size: nat, maxData: nat, targets: seq<Bytes>,
      library: map<int, seq<BlockHash>>, targetPaths: seq<string>, source: Bytes, path: string, ops: seq<Operation>)
  {
    exists preferred :: PreferredIs(targetPaths, path, preferred)
      && Planned(Input(strong, size, maxData, targets, library, preferred, source), ops)
  }

  /**
   * The patch of the first source files: their series, and the counts of all messages; to be looked into only where a
   * Position is named.
   */
  ghost predicate WrittenSo(env: Env, sources: seq<Bytes>, starts: seq<nat>, series: seq<seq<Operation>>,
      reusedBytes: int, freshBytes: int)
  {
    |series| <= |sources| && forall n: nat :: Position(n) && n == |series| ==>
      && Sections(env, sources, starts) && RsyncStarts(env, starts) && |starts| == n + 1
      && env.msgs == AllSeries(series) && Counted(env.targets, env.size, env.msgs, reusedBytes, freshBytes)
      && n <= |sources| && reusedBytes + freshBytes == |Flatten(sources[..n])|
  }

  lemma NothingWritten(env: Env, sources: seq<Bytes>)
    requires env.msgs == []
    ensures WrittenSo(env, sources, [0], [], 0, 0)
  {
    assert sources[..0] == [];
  }

  lemma WrittenOn(env: Env, sources: seq<Bytes>, starts: seq<nat>, series: seq<seq<Operation>>, reusedBytes: int,
      freshBytes: int, after: seq<Message>, ops: seq<Operation>, reused: int, shipped: int)
    requires WrittenSo(env, sources, starts, series, reusedBytes, freshBytes) && |series| < |sources|
    requires var i := |series|;
      && after == env.msgs + RsyncMessages(i, ops) && reused + shipped == |sources[i]|
      && FileTail(env.(msgs := after), i, |env.msgs|) == Some(Tail(sources[i], |after|))
    requires Counted(env.targets, env.size, after[|env.msgs|..], reused, shipped)
    ensures WrittenSo(env.(msgs := after), sources, starts + [|after|], series + [ops], reusedBytes + reused,
      freshBytes + shipped)
  {
    var i := |series|;
    assert Position(i);
    assert (series + [ops])[..i] == series;
    assert after[|env.msgs|..] == RsyncMessages(i, ops) && after[|env.msgs|] == Header(i, RsyncKind);
    CountedAppend(env.targets, env.size, env.msgs, RsyncMessages(i, ops));
    SectionsGrow(env, sources, starts, after);
    assert sources[..i + 1] == sources[..i] + [sources[i]];
    FlattenSnoc(sources[..i], sources[i]);
  }

  lemma WrittenAll(env: Env, sources: seq<Bytes>, starts: seq<nat>, series: seq<seq<Operation>>, reusedBytes: int,
      freshBytes: int)
    requires WrittenSo(env, sources, starts, series, reusedBytes, freshBytes) && |series| == |sources|
    ensures RsyncPatchFrom(env, sources, 0, 0) && reusedBytes + freshBytes == |Flatten(sources)|
    ensures env.msgs == AllSeries(series) && Counted(env.targets, env.size, env.msgs, reusedBytes, freshBytes)
  {
    assert Position(|sources|);
    assert sources[..|sources|] == sources;
    SectionsMakeRsyncPatch(env, sources, starts, 0);
  }

  ghost predicate AllPlanned(strong: StrongHash, size: nat, maxData: nat, targets: seq<Bytes>,
      library: map<int, seq<BlockHash>>, targetPaths: seq<string>, sources: seq<Bytes>, sourcePaths: seq<string>,
      series: seq<seq<Operation>>)
  {
    && |series| <= |sources| == |sourcePaths|
    && forall k :: 0 <= k < |series| ==>
      SeriesPlanned(strong, size, maxData, targets, library, targetPaths, sources[k], sourcePaths[k], series[k])
  }

  lemma OneMorePlanned(strong: StrongHash, size: nat, maxData: nat, targets: seq<Bytes>,
      library: map<int, seq<BlockHash>>, targetPaths: seq<string>, sources: seq<Bytes>, sourcePaths: seq<string>,
      series: seq<seq<Operation>>, ops: seq<Operation>)
    requires AllPlanned(strong, size, maxData, targets, library, targetPaths, sources, sourcePaths, series)
    requires |series| < |sources| && SeriesPlanned(strong, size, maxData, targets, library, targetPaths,
      sources[|series|], sourcePaths[|series|], ops)
    ensures AllPlanned(strong, size, maxData, targets, library, targetPaths, sources, sourcePaths, series + [ops])
  {
  }

  /** One file, with the target file of its path preferred. */
  method WriteFile(strong: StrongHash, size: nat, maxData: nat, library: map<int, seq<BlockHash>>,
      pathToIndex: map<string, nat>, buffer: array<byte>, targets: seq<Bytes>, ghost targetPaths: seq<string>,
      msgs: seq<Message>, i: nat, sources: seq<Bytes>, path: string)
    returns (after: seq<Message>, reusedBytes: int, freshBytes: int, ghost ops: seq<Operation>)
    requires size >= 2 && maxData > 0 && buffer.Length >= size * 2 + maxData && i < |sources|
    requires forall weak :: Bucket(library, weak) == WithWeak(Signature(strong, size, targets, 0), weak)
    requires Separates(strong, size, targets, sources[i])
    requires forall p :: p in pathToIndex <==> p in targetPaths
    requires forall p :: p in pathToIndex ==> LastIs(targetPaths, p, pathToIndex[p])
    modifies buffer
    ensures after == msgs + RsyncMessages(i, ops) && reusedBytes + freshBytes == |sources[i]|
    ensures FileTail(Env(after, targets, size), i, |msgs|) == Some(Tail(sources[i], |after|))
    ensures Counted(targets, size, after[|msgs|..], reusedBytes, freshBytes)
    ensures SeriesPlanned(strong, size, maxData, targets, library, targetPaths, sources[i], path, ops)
  {
    var preferred: int := if path in pathToIndex then pathToIndex[path] else -1;
    after, reusedBytes, freshBytes, ops := WriteSeries(strong, size, maxData, library, preferred, buffer,
      Sizes(targets), msgs, i, sources[i], targets, sources);
    assert PreferredIs(targetPaths, path, preferred);
  }

  /**
   * WritePatch: every source file is diffed against the target signature, preferring the target file of the same path.
   * The patch makes exactly the source files, and every byte of them is counted once, as reused or as fresh.
   */
  method WritePatch(strong: StrongHash, size: nat, maxData: nat, targets: seq<Bytes>, signature: seq<BlockHash>,
      targetPaths: seq<string>, sources: seq<Bytes>, sourcePaths: seq<string>)
    returns (msgs: seq<Message>, reusedBytes: int, freshBytes: int, ghost library: map<int, seq<BlockHash>>,
      ghost series: seq<seq<Operation>>)
    requires size >= 2 && maxData > 0 && |targetPaths| == |targets| && |sourcePaths| == |sources|
    requires signature == Signature(strong, size, targets, 0)
    requires forall i :: 0 <= i < |sources| ==> Separates(strong, size, targets, sources[i])
    ensures RsyncPatchFrom(Env(msgs, targets, size), sources, 0, 0)
    ensures forall weak :: Bucket(library, weak) == WithWeak(signature, weak)
    ensures msgs == AllSeries(series) && |series| == |sources|
    ensures AllPlanned(strong, size, maxData, targets, library, targetPaths, sources, sourcePaths, series)
    ensures Counted(targets, size, msgs, reusedBytes, freshBytes)
    ensures reusedBytes + freshBytes == |Flatten(sources)|
  {
    var lib := NewBlockLibrary(signature);
    library, series := lib, [];
    var pathToIndex := IndexPaths(targetPaths);
    var buffer := new byte[size * 2 + maxData];
    msgs, reusedBytes, freshBytes := [], 0, 0;
    ghost var starts: seq<nat> := [0];
    NothingWritten(Env(msgs, targets, size), sources);
    for i := 0 to |sources|
      invariant |series| == i && WrittenSo(Env(msgs, targets, size), sources, starts, series, reusedBytes, freshBytes)
      invariant AllPlanned(strong, size, maxData, targets, library, targetPaths, sources, sourcePaths, series)
    {
      var after, reused, shipped, ops := WriteFile(strong, size, maxData, lib, pathToIndex, buffer, targets,
        targetPaths, msgs, i, sources, sourcePaths[i]);
      WrittenOn(Env(msgs, targets, size), sources, starts, series, reusedBytes, freshBytes, after, ops, reused,
        shipped);
      msgs, reusedBytes, freshBytes := after, reusedBytes + reused, freshBytes + shipped;
      OneMorePlanned(strong, size, maxData, targets, library, targetPaths, sources, sourcePaths, series, ops);
      starts, series := starts + [|msgs|], series + [ops];
    }
    WrittenAll(Env(msgs, targets, size), sources, starts, series, reusedBytes, freshBytes);
  }
}
