/** The patcher: one pass over the patch's messages that can save a checkpoint, stop, die, and be resumed. */
module Patcher {
  import opened Common
  import opened WsyncOps
  import opened BsdiffPatch
  import opened EntryWriters
  import opened Bowls
  import OB = OverlayBowl
  import Whole = WsyncComputeDiff

  datatype Kind = RsyncKind | BsdiffKind

  /** The messages of a patch, after the containers. */
  datatype Message =
    | Header(fileIndex: nat, kind: Kind)
    | SyncOp(op: Operation)
    | HeyYouDidIt
    | BsdiffHeader(targetIndex: nat)
    | Ctrl(ctrl: Control)

  /** The patch, the contents of the target pool, and the block size. */
  datatype Env = Env(msgs: seq<Message>, targets: seq<Bytes>, size: nat)

  // ----- what the messages mean

  /** The bytes the rest of a series stands for, and where the messages go on behind it. */
  datatype Tail = Tail(bytes: Bytes, next: nat)

  function Behind(piece: Bytes, rest: Option<Tail>): Option<Tail> {
    if rest.None? then None else Some(Tail(piece + rest.value.bytes, rest.value.next))
  }

  ghost function RsyncTail(env: Env, pos: nat): Option<Tail>
    decreases |env.msgs| - pos
  {
    if pos >= |env.msgs| then None
    else match env.msgs[pos]
    case HeyYouDidIt => Some(Tail([], pos + 1))
    case SyncOp(op) =>
      if ValidOp(env.targets, env.size, op) then Behind(OpBytes(env.targets, env.size, op), RsyncTail(env, pos + 1))
        else None
    case _ => None
  }

  ghost function BsdiffTail(env: Env, old_: Bytes, oldOffset: int, pos: nat): Option<Tail>
    decreases |env.msgs| - pos
  {
    if pos >= |env.msgs| || !env.msgs[pos].Ctrl? then None
    else if env.msgs[pos].ctrl.eof then
      if pos + 1 < |env.msgs| && env.msgs[pos + 1].HeyYouDidIt? then Some(Tail([], pos + 2)) else None
    else
      var applied := ApplyControl(old_, oldOffset, env.msgs[pos].ctrl);
      if applied.None? then None else Behind(applied.value.piece, BsdiffTail(env, old_, applied.value.next, pos + 1))
  }

  /** A message of a well-formed rsync series is its end marker, or an operation that goes before the rest. */
  lemma RsyncTailCases(env: Env, pos: nat)
    requires RsyncTail(env, pos).Some?
    ensures pos < |env.msgs|
    ensures env.msgs[pos].HeyYouDidIt? ==> RsyncTail(env, pos) == Some(Tail([], pos + 1))
    ensures !env.msgs[pos].HeyYouDidIt? ==>
      && env.msgs[pos].SyncOp? && ValidOp(env.targets, env.size, env.msgs[pos].op) && RsyncTail(env, pos + 1).Some?
      && RsyncTail(env, pos) == Behind(OpBytes(env.targets, env.size, env.msgs[pos].op), RsyncTail(env, pos + 1))
  {
  }

  /** One file's series. An rsync series has at least one operation. */
  ghost function FileTail(env: Env, i: nat, pos: nat): Option<Tail> {
    if pos + 1 >= |env.msgs| || !env.msgs[pos].Header? || env.msgs[pos].fileIndex != i then None
    else if env.msgs[pos].kind.RsyncKind? then
      if env.msgs[pos + 1].HeyYouDidIt? then None else RsyncTail(env, pos + 1)
    else if env.msgs[pos + 1].BsdiffHeader? && env.msgs[pos + 1].targetIndex < |env.targets| then
      BsdiffTail(env, env.targets[env.msgs[pos + 1].targetIndex], 0, pos + 2)
    else None
  }

  /** From pos on the patch holds the series of the source files from i on, and they mean these contents. */
  ghost predicate PatchFrom(env: Env, contents: seq<Bytes>, i: nat, pos: nat)
    requires i <= |contents|
    decreases |contents| - i
  {
    i < |contents| ==>
      var tail := FileTail(env, i, pos);
      tail.Some? && tail.value.bytes == contents[i] && PatchFrom(env, contents, i + 1, tail.value.next)
  }

  predicate Position(n: nat) { true }

  /** PatchFrom, to be looked into only where a Position is named. */
  ghost predicate Follows(env: Env, contents: seq<Bytes>, i: nat, pos: nat) {
    forall n: nat :: Position(n) && n == pos ==> i <= |contents| && PatchFrom(env, contents, i, n)
  }

  // ----- where checkpoints are taken

  /** The header of the series that message p is in. */
  function SeriesStart(msgs: seq<Message>, p: nat): (h: nat)
    ensures h <= p
  {
    if p == 0 || p >= |msgs| || msgs[p].Header? then p else SeriesStart(msgs, p - 1)
  }

  /** The series with its header at h starts with a full-file operation. */
  ghost predicate Transposed(env: Env, contents: seq<Bytes>, h: nat) {
    && env.size > 0 && h + 1 < |env.msgs| && env.msgs[h].Header? && env.msgs[h].fileIndex < |contents|
    && env.msgs[h + 1].SyncOp? && env.msgs[h + 1].op.BlockRange?
    && 0 <= env.msgs[h + 1].op.fileIndex < |env.targets|
    && var op := env.msgs[h + 1].op;
       Whole.IsFullFileOp(op, |env.targets[op.fileIndex]|, |contents[env.msgs[h].fileIndex]|, env.size)
  }

  /**
   * A checkpoint can be taken in front of every control message, and in front of every message of an rsync series
   * behind its first operation, unless that is a full-file operation.
   */
  ghost predicate SavePlace(env: Env, contents: seq<Bytes>, p: nat) {
    && p < |env.msgs|
    && (env.msgs[p].Ctrl?
        || (p > 0 && (env.msgs[p].SyncOp? || env.msgs[p].HeyYouDidIt?) && env.msgs[p - 1].SyncOp?
            && !Transposed(env, contents, SeriesStart(env.msgs, p))))
  }

  ghost predicate InSeries(env: Env, i: nat, p: nat) {
    p < |env.msgs| && var m := env.msgs[SeriesStart(env.msgs, p)]; m.Header? && m.fileIndex == i
  }

  /** A place in the series of file i where a checkpoint can be taken; to be looked into only where it is a Position. */
  ghost predicate AtPlace(env: Env, contents: seq<Bytes>, i: nat, p: nat) {
    forall n: nat :: Position(n) && n == p ==> SavePlace(env, contents, n) && InSeries(env, i, n)
  }

  /** The first place behind an rsync header is behind the first operation. */
  lemma FirstRsyncPlace(env: Env, contents: seq<Bytes>, i: nat, h: nat, p: nat)
    requires h + 1 < |env.msgs| && env.msgs[h] == Header(i, RsyncKind) && env.msgs[h + 1].SyncOp?
    requires p == h + 2 && !Transposed(env, contents, h) && RsyncTail(env, p).Some?
    ensures AtPlace(env, contents, i, p)
  {
    assert SeriesStart(env.msgs, h) == h;
    assert SeriesStart(env.msgs, h + 1) == h;
    assert SeriesStart(env.msgs, h + 2) == h;
  }

  lemma NextRsyncPlace(env: Env, contents: seq<Bytes>, i: nat, p: nat, next: nat)
    requires AtPlace(env, contents, i, p) && p < |env.msgs| && env.msgs[p].SyncOp? && RsyncTail(env, next).Some?
    requires next == p + 1
    ensures AtPlace(env, contents, i, next)
  {
    assert Position(p);
    assert SeriesStart(env.msgs, p + 1) == SeriesStart(env.msgs, p);
  }

  lemma FirstBsdiffPlace(env: Env, contents: seq<Bytes>, i: nat, h: nat, old_: Bytes, p: nat)
    requires h + 1 < |env.msgs| && env.msgs[h] == Header(i, BsdiffKind) && env.msgs[h + 1].BsdiffHeader?
    requires p == h + 2 && BsdiffTail(env, old_, 0, p).Some?
    ensures AtPlace(env, contents, i, p)
  {
    assert SeriesStart(env.msgs, h) == h;
    assert SeriesStart(env.msgs, h + 1) == h;
    assert SeriesStart(env.msgs, h + 2) == h;
  }

  lemma NextBsdiffPlace(env: Env, contents: seq<Bytes>, i: nat, p: nat, old_: Bytes, oldOffset: int, next: nat)
    requires AtPlace(env, contents, i, p) && p < |env.msgs| && env.msgs[p].Ctrl?
      && BsdiffTail(env, old_, oldOffset, next).Some?
    requires next == p + 1
    ensures AtPlace(env, contents, i, next)
  {
    assert Position(p);
    assert SeriesStart(env.msgs, p + 1) == SeriesStart(env.msgs, p);
  }

  /** None of the places [from, to) is one where a checkpoint is taken. */
  ghost predicate NoPlaces(env: Env, contents: seq<Bytes>, from: nat, end: nat) {
    forall p :: from <= p < end ==> !SavePlace(env, contents, p)
  }

  /** Nor is any in a transposed series. */
  lemma {:induction false} TransposedPlaces(env: Env, contents: seq<Bytes>, h: nat, p: nat)
    requires Transposed(env, contents, h) && h < p && SeriesStart(env.msgs, p) == h && RsyncTail(env, p).Some?
    ensures RsyncTail(env, p).value.next >= p && NoPlaces(env, contents, p, RsyncTail(env, p).value.next)
    decreases |env.msgs| - p
  {
    if env.msgs[p].SyncOp? {
      assert SeriesStart(env.msgs, p + 1) == h;
      TransposedPlaces(env, contents, h, p + 1);
    }
  }

  // ----- checkpoints

  datatype Series =
    | RsyncSeries(writer: WriterCheckpoint)
    | BsdiffSeries(writer: WriterCheckpoint, oldOffset: int, targetIndex: nat)

  datatype Checkpoint = Checkpoint(message: nat, fileIndex: nat, bowl: Option<OB.Checkpoint>, series: Series)

  ghost function SeriesTail(env: Env, c: Checkpoint): Option<Tail> {
    match c.series
    case RsyncSeries(_) => RsyncTail(env, c.message)
    case BsdiffSeries(_, oldOffset, targetIndex) =>
      if targetIndex < |env.targets| then BsdiffTail(env, env.targets[targetIndex], oldOffset, c.message) else None
  }

  /** With head written, what remains of file i's series is what remains of its content. */
  ghost predicate GoesOn(env: Env, contents: seq<Bytes>, i: nat, tail: Option<Tail>, head: Bytes)
    requires i < |contents|
  {
    tail.Some? && head + tail.value.bytes == contents[i] && Follows(env, contents, i + 1, tail.value.next)
  }

  /** A series that makes all of file i. */
  ghost predicate Makes(env: Env, contents: seq<Bytes>, i: nat, tail: Option<Tail>)
    requires i < |contents|
  {
    tail.Some? && tail.value.bytes == contents[i] && Follows(env, contents, i + 1, tail.value.next)
  }

  /** c fits the patch and the bowl it was saved from, whatever became of the file it is in the middle of. */
  ghost predicate CheckpointFits(env: Env, s: BowlState, contents: seq<Bytes>, c: Checkpoint) {
    && (s.InPlaceState? ==> c.bowl.Some?)
    && Started(Restored(s, c.bowl), env.targets, contents, c.fileIndex)
    && c.series.writer.offset <= |contents[c.fileIndex]|
    && GoesOn(env, contents, c.fileIndex, SeriesTail(env, c), contents[c.fileIndex][..c.series.writer.offset])
    && AtPlace(env, contents, c.fileIndex, c.message)
  }

  /** c can be resumed from with what is on disk. */
  ghost predicate CheckpointOk(env: Env, s: BowlState, contents: seq<Bytes>, threshold: nat, c: Checkpoint) {
    && CheckpointFits(env, s, contents, c)
    && StagedAt(s, c.fileIndex).Some?
    && KeptBy(BaseOf(s, c.fileIndex), threshold, StagedAt(s, c.fileIndex).value, Some(c.series.writer),
      contents[c.fileIndex])
  }

  /** What is known when a checkpoint is made is what resuming from it needs. */
  lemma HeadIsPrefix(env: Env, contents: seq<Bytes>, i: nat, tail: Option<Tail>, head: Bytes)
    requires i < |contents| && GoesOn(env, contents, i, tail, head)
    ensures head <= contents[i]
  {
    assert head + tail.value.bytes == contents[i];
  }

  function SavedSeries(writer: WriterCheckpoint, bsdiff: Option<(int, nat)>): (series: Series)
    ensures series.writer == writer
  {
    if bsdiff.None? then RsyncSeries(writer) else BsdiffSeries(writer, bsdiff.value.0, bsdiff.value.1)
  }

  lemma NewCheckpointFits(env: Env, s: BowlState, contents: seq<Bytes>, message: nat, i: nat,
      bowl: Option<OB.Checkpoint>, writer: WriterCheckpoint, bsdiff: Option<(int, nat)>, tail: Option<Tail>,
      written: Bytes)
    requires Started(s, env.targets, contents, i) && Restored(s, bowl) == s && (s.InPlaceState? ==> bowl.Some?)
    requires writer.offset == |written| && GoesOn(env, contents, i, tail, written)
      && AtPlace(env, contents, i, message)
    requires bsdiff.None? ==> tail == RsyncTail(env, message)
    requires bsdiff.Some? ==>
      bsdiff.value.1 < |env.targets| && tail == BsdiffTail(env, env.targets[bsdiff.value.1], bsdiff.value.0, message)
    ensures CheckpointFits(env, s, contents, Checkpoint(message, i, bowl, SavedSeries(writer, bsdiff)))
  {
    var c := Checkpoint(message, i, bowl, SavedSeries(writer, bsdiff));
    assert SeriesTail(env, c) == tail;
    assert contents[i][..|written|] == written;
  }

  /** The bowls differ in their lists at most. */
  ghost predicate SameButLists(s: BowlState, t: BowlState) {
    match s
    case FreshState(_, _) => t == s
    case InPlaceState(plan, _, _) =>
      t.InPlaceState? && t == s.(plan := plan.(transpositions := t.plan.transpositions,
        overlayFiles := t.plan.overlayFiles,
                                 moveFiles := t.plan.moveFiles))
  }

  /** A checkpoint brings its own lists. */
  lemma FitsAnyLists(env: Env, s: BowlState, t: BowlState, contents: seq<Bytes>, threshold: nat, c: Checkpoint)
    requires CheckpointFits(env, s, contents, c) && SameButLists(s, t)
    ensures CheckpointFits(env, t, contents, c)
    ensures CheckpointOk(env, s, contents, threshold, c) ==> CheckpointOk(env, t, contents, threshold, c)
  {
    assert Restored(s, c.bowl) == Restored(t, c.bowl);
  }

  /** Files from the checkpoint's own on may change on disk, its own only so that the checkpoint stays usable. */
  lemma OkAfterStore(env: Env, s: BowlState, contents: seq<Bytes>, threshold: nat, c: Checkpoint, k: nat, x: Staged)
    requires CheckpointFits(env, s, contents, c) && c.fileIndex <= k < |contents|
    requires k > c.fileIndex ==> CheckpointOk(env, s, contents, threshold, c)
    requires k == c.fileIndex ==> KeptBy(BaseOf(s, k), threshold, x, Some(c.series.writer), contents[k])
    ensures CheckpointOk(env, Stored(s, k, x), contents, threshold, c)
  {
    assert Restored(Stored(s, k, x), c.bowl) == Stored(Restored(s, c.bowl), k, x);
    StoreKeepsStarted(Restored(s, c.bowl), env.targets, contents, c.fileIndex, k, x);
  }

  lemma StoreFits(s: BowlState, contents: seq<Bytes>, k: nat, x: Staged)
    requires |Sources(s)| == |contents| && k < |contents| && Distinct(Sources(s))
    requires DiskFits(s, contents) && Fits(BaseOf(s, k), x, |contents[k]|)
    ensures DiskFits(Stored(s, k, x), contents)
  {
    forall i | 0 <= i < |contents| && StagedAt(Stored(s, k, x), i).Some?
      ensures Fits(BaseOf(Stored(s, k, x), i), StagedAt(Stored(s, k, x), i).value, |contents[i]|)
    {
      assert i != k ==> StagedAt(Stored(s, k, x), i) == StagedAt(s, i);
    }
  }

  /** One message applied: its piece is the next part of the content. */
  lemma GoesOnStep(env: Env, contents: seq<Bytes>, i: nat, piece: Bytes, rest: Option<Tail>, head: Bytes)
    requires i < |contents| && GoesOn(env, contents, i, Behind(piece, rest), head)
    ensures |head| + |piece| <= |contents[i]| && GoesOn(env, contents, i, rest, head + piece)
  {
    assert head + (piece + rest.value.bytes) == (head + piece) + rest.value.bytes;
  }

  /** Recording file i spoils no checkpoint of an earlier file, and takes no file on disk beyond its size. */
  lemma TransposeKeeps(env: Env, s: BowlState, after: BowlState, contents: seq<Bytes>, threshold: nat,
      sv: Option<Checkpoint>, t: OB.Transposition)
    requires t.sourceIndex < |contents| == |Sources(s)| && t.targetIndex < |env.targets| && Distinct(Sources(s))
    requires env.targets[t.targetIndex] == contents[t.sourceIndex] && Transposes(s, after, env.targets, t)
      && DiskFits(s, contents)
    requires sv.Some? ==> sv.value.fileIndex < t.sourceIndex && CheckpointOk(env, s, contents, threshold, sv.value)
    ensures DiskFits(after, contents) && (sv.Some? ==> CheckpointOk(env, after, contents, threshold, sv.value))
  {
    if s.FreshState? {
      StoreFits(s, contents, t.sourceIndex, Plain(env.targets[t.targetIndex]));
      if sv.Some? {
        OkAfterStore(env, s, contents, threshold, sv.value, t.sourceIndex, Plain(env.targets[t.targetIndex]));
      }
    } else {
      if sv.Some? {
        FitsAnyLists(env, s, after, contents, threshold, sv.value);
      }
      forall i | 0 <= i < |contents| && StagedAt(after, i).Some?
        ensures Fits(BaseOf(after, i), StagedAt(after, i).value, |contents[i]|) {
        assert StagedAt(after, i) == StagedAt(s, i);
      }
    }
  }

  lemma MarksKeepDisk(s: BowlState, after: BowlState, i: nat)
    requires i < |Sources(s)| && Marks(s, after, i)
    ensures Sources(after) == Sources(s)
    ensures forall j :: 0 <= j < |Sources(s)| ==>
      StagedAt(after, j) == StagedAt(s, j) && BaseOf(after, j) == BaseOf(s, j)
  {
  }

  lemma MarkKeeps(env: Env, s: BowlState, after: BowlState, contents: seq<Bytes>, threshold: nat,
      sv: Option<Checkpoint>, i: nat)
    requires i < |contents| == |Sources(s)| && Marks(s, after, i) && DiskFits(s, contents)
    requires sv.Some? ==> CheckpointOk(env, s, contents, threshold, sv.value)
    ensures DiskFits(after, contents) && (sv.Some? ==> CheckpointOk(env, after, contents, threshold, sv.value))
  {
    if sv.Some? {
      FitsAnyLists(env, s, after, contents, threshold, sv.value);
    }
    forall j | 0 <= j < |contents| && StagedAt(after, j).Some?
      ensures Fits(BaseOf(after, j), StagedAt(after, j).value, |contents[j]|) {
      assert StagedAt(after, j) == StagedAt(s, j);
    }
  }

  /**
   * A full-file operation at the start of a series makes the content, and what follows it
   * up to the end marker is empty.
   */
  lemma FullFileOp(env: Env, op: Operation, rest: Option<Tail>, content: Bytes)
    requires env.size > 0 && ValidOp(env.targets, env.size, op) && op.BlockRange?
    requires Whole.IsFullFileOp(op, |env.targets[op.fileIndex]|, |content|, env.size)
    requires rest.Some? && OpBytes(env.targets, env.size, op) + rest.value.bytes == content
    ensures env.targets[op.fileIndex] == content && rest.value.bytes == []
  {
    NumBlocksOffsets(|content|, env.size, op.blockSpan);
  }

  /** What happens before a message: a checkpoint is saved, the consumer says stop after that, or the process dies. */
  datatype Choice = Choice(save: bool, stop: bool, die: bool) {
    predicate Ends() {
      die || (save && stop)
    }
  }

  /** What happens in one run, by the position in the patch. */
  type Schedule = nat -> Choice

  /** A run that is left alone. */
  ghost predicate Calm(schedule: Schedule) {
    forall n :: !schedule(n).Ends()
  }

  datatype Outcome = Completed | Stopped | Killed | Failed(reason: string)

  // ----- which checkpoint a run ends with

  /** Where a run sets out. */
  function StartOf(c: Option<Checkpoint>): nat {
    if c.Some? then c.value.message else 0
  }

  /** The last of the places [from, to) where a checkpoint is asked for. */
  ghost function LastSave(env: Env, contents: seq<Bytes>, schedule: Schedule, from: nat, end: nat): Option<nat>
    decreases end
  {
    if end <= from then None
    else if SavePlace(env, contents, end - 1) && schedule(end - 1).save then Some(end - 1)
    else LastSave(env, contents, schedule, from, end - 1)
  }

  /** Passing [from, to), a run that held given before has come to hold sv: the checkpoint of the last place, if any. */
  ghost predicate Holds(env: Env, contents: seq<Bytes>, schedule: Schedule, given: Option<Checkpoint>,
      sv: Option<Checkpoint>, from: nat, end: nat)
  {
    match LastSave(env, contents, schedule, from, end)
    case Some(p) => sv.Some? && sv.value.message == p && InSeries(env, sv.value.fileIndex, p)
    case None => sv == given
  }

  ghost predicate NotEnded(env: Env, contents: seq<Bytes>, schedule: Schedule, from: nat, end: nat) {
    forall p :: from <= p < end && SavePlace(env, contents, p) ==> !schedule(p).Ends()
  }

  predicate Passing(n: int) { true }

  /** A run has gone on from from to at; to be looked into only where from is named as Passing. */
  ghost predicate WentOn(env: Env, contents: seq<Bytes>, schedule: Schedule, given: Option<Checkpoint>,
      sv: Option<Checkpoint>, from: nat, at: nat)
  {
    from <= at && forall n: nat :: Passing(n) && n == from ==>
      Holds(env, contents, schedule, given, sv, n, at) && NotEnded(env, contents, schedule, n, at)
  }

  /**
   * A run that set out at from has come to at: it has completed there, or it was stopped behind the checkpoint it took
   * there, or killed, and at no place before. What it holds is the checkpoint of the last place where one was asked
   * for.
   */
  ghost predicate CameTo(env: Env, contents: seq<Bytes>, schedule: Schedule, given: Option<Checkpoint>,
      sv: Option<Checkpoint>, from: nat, at: nat, outcome: Outcome)
  {
    from <= at && forall n: nat :: Passing(n) && n == from ==>
      && NotEnded(env, contents, schedule, n, at)
      && Holds(env, contents, schedule, given, sv, n, if outcome.Completed? then at else at + 1)
      && (outcome.Stopped? ==> SavePlace(env, contents, at) && schedule(at).save && schedule(at).stop)
      && (outcome.Killed? ==> schedule(at).die)
  }

  lemma WentNowhere(env: Env, contents: seq<Bytes>, schedule: Schedule, sv: Option<Checkpoint>, at: nat)
    ensures WentOn(env, contents, schedule, sv, sv, at, at)
  {
  }

  lemma {:induction false} NoSave(env: Env, contents: seq<Bytes>, schedule: Schedule, from: nat, end: nat)
    requires NoPlaces(env, contents, from, end)
    ensures LastSave(env, contents, schedule, from, end) == None
    decreases end
  {
    if from < end {
      NoSave(env, contents, schedule, from, end - 1);
    }
  }

  lemma WentByNoPlaces(env: Env, contents: seq<Bytes>, schedule: Schedule, sv: Option<Checkpoint>, from: nat, end: nat)
    requires from <= end && NoPlaces(env, contents, from, end)
    ensures WentOn(env, contents, schedule, sv, sv, from, end)
  {
    NoSave(env, contents, schedule, from, end);
  }

  lemma {:induction false} SavesJoin(env: Env, contents: seq<Bytes>, schedule: Schedule, from: nat, mid: nat, end: nat)
    requires from <= mid <= end
    ensures LastSave(env, contents, schedule, from, end) ==
      if LastSave(env, contents, schedule, mid, end).Some? then LastSave(env, contents, schedule, mid, end)
      else LastSave(env, contents, schedule, from, mid)
    decreases end
  {
    if mid < end {
      SavesJoin(env, contents, schedule, from, mid, end - 1);
    }
  }

  lemma WentFurther(env: Env, contents: seq<Bytes>, schedule: Schedule, given: Option<Checkpoint>,
      sv: Option<Checkpoint>, sv': Option<Checkpoint>, from: nat, mid: nat, at: nat)
    requires WentOn(env, contents, schedule, given, sv, from, mid) && WentOn(env, contents, schedule, sv, sv', mid, at)
    ensures WentOn(env, contents, schedule, given, sv', from, at)
  {
    assert Passing(from) && Passing(mid);
    SavesJoin(env, contents, schedule, from, mid, at);
  }

  lemma CameFurther(env: Env, contents: seq<Bytes>, schedule: Schedule, given: Option<Checkpoint>,
      sv: Option<Checkpoint>, sv': Option<Checkpoint>, from: nat, mid: nat, at: nat, outcome: Outcome)
    requires WentOn(env, contents, schedule, given, sv, from, mid)
    requires CameTo(env, contents, schedule, sv, sv', mid, at, outcome)
    ensures CameTo(env, contents, schedule, given, sv', from, at, outcome)
  {
    assert Passing(from) && Passing(mid);
    SavesJoin(env, contents, schedule, from, mid, if outcome.Completed? then at else at + 1);
  }

  lemma CompletedThere(env: Env, contents: seq<Bytes>, schedule: Schedule, given: Option<Checkpoint>,
      sv: Option<Checkpoint>, from: nat, at: nat)
    requires WentOn(env, contents, schedule, given, sv, from, at)
    ensures CameTo(env, contents, schedule, given, sv, from, at, Completed)
  {
    assert Passing(from);
  }

  lemma CompletedByNoPlaces(env: Env, contents: seq<Bytes>, schedule: Schedule, sv: Option<Checkpoint>, from: nat,
      at: nat)
    requires from <= at && NoPlaces(env, contents, from, at)
    ensures CameTo(env, contents, schedule, sv, sv, from, at, Completed)
  {
    WentByNoPlaces(env, contents, schedule, sv, from, at);
    CompletedThere(env, contents, schedule, sv, sv, from, at);
  }

  /** The last message is not one a checkpoint is taken in front of. */
  lemma CompletedBehind(env: Env, contents: seq<Bytes>, schedule: Schedule, given: Option<Checkpoint>,
      sv: Option<Checkpoint>, from: nat, last: nat, at: nat)
    requires WentOn(env, contents, schedule, given, sv, from, last) && at == last + 1 && !SavePlace(env, contents, last)
    ensures CameTo(env, contents, schedule, given, sv, from, at, Completed)
  {
    WentByNoPlaces(env, contents, schedule, sv, last, at);
    WentFurther(env, contents, schedule, given, sv, sv, from, last, at);
    CompletedThere(env, contents, schedule, given, sv, from, at);
  }

  /** The interlude at a place where a checkpoint can be taken. */
  lemma PlacePassed(env: Env, contents: seq<Bytes>, schedule: Schedule, given: Option<Checkpoint>,
      sv: Option<Checkpoint>, i: nat, at: nat, next: nat, ended: Option<Outcome>)
    requires AtPlace(env, contents, i, at) && next == at + 1
    requires if schedule(at).save then sv.Some? && sv.value.message == at && sv.value.fileIndex == i else sv == given
    requires if ended.None? then !schedule(at).Ends()
      else schedule(at).Ends() && ended.value == if schedule(at).die then Killed else Stopped
    ensures ended.None? ==> WentOn(env, contents, schedule, given, sv, at, next)
    ensures ended.Some? ==> CameTo(env, contents, schedule, given, sv, at, at, ended.value)
  {
    assert Position(at) && Passing(at);
    assert LastSave(env, contents, schedule, at, at) == None;
  }

  lemma WentThere(env: Env, contents: seq<Bytes>, schedule: Schedule, given: Option<Checkpoint>,
      sv: Option<Checkpoint>, from: nat, at: nat)
    requires CameTo(env, contents, schedule, given, sv, from, at, Completed)
    ensures WentOn(env, contents, schedule, given, sv, from, at)
  {
    assert Passing(from);
  }

  lemma StoppedThere(env: Env, contents: seq<Bytes>, schedule: Schedule, given: Option<Checkpoint>,
      sv: Option<Checkpoint>, from: nat, at: nat, outcome: Outcome)
    requires CameTo(env, contents, schedule, given, sv, from, at, outcome)
    ensures outcome.Stopped? ==> sv.Some? && sv.value.message == at
  {
    assert Passing(from);
  }

  /** The process dies where no checkpoint is taken, or where one was taken up. */
  lemma DiedThere(env: Env, contents: seq<Bytes>, schedule: Schedule, sv: Option<Checkpoint>, at: nat)
    requires schedule(at).die
    requires !SavePlace(env, contents, at)
      || (sv.Some? && sv.value.message == at && InSeries(env, sv.value.fileIndex, at))
    ensures CameTo(env, contents, schedule, sv, sv, at, at, Killed)
  {
    assert LastSave(env, contents, schedule, at, at) == None;
  }

  class SavingPatcher {
    const env: Env
    /** The sizes of the source files, from the source container. */
    const sizes: seq<nat>
    const bowl: AnyBowl
    const bufSize: nat
    const threshold: nat
    const schedule: Schedule
    var pos: nat
    /** What the save consumer was given last. */
    var saved: Option<Checkpoint>

    constructor (env: Env, sizes: seq<nat>, bowl: AnyBowl, bufSize: nat, threshold: nat, schedule: Schedule)
      ensures this.env == env && this.sizes == sizes && this.bowl == bowl && this.bufSize == bufSize
        && this.threshold == threshold
      ensures this.schedule == schedule && pos == 0 && saved == None
    {
      this.env, this.sizes, this.bowl, this.bufSize, this.threshold := env, sizes, bowl, bufSize, threshold;
      this.schedule := schedule;
      pos, saved := 0, None;
    }

    ghost predicate Apart(w: EntryWriter) {
      w.Repr() !! bowl.Footprint() && this !in w.Repr() && this !in bowl.Footprint()
    }

    // What is known of a bowl in state s, with sv the last checkpoint.

    ghost predicate Sound(s: BowlState, contents: seq<Bytes>) {
      && env.size > 0 && bufSize > 0 && |sizes| == |contents| == |Sources(s)|
      && (forall i :: 0 <= i < |sizes| ==> sizes[i] == |contents[i]|)
      && (bowl.Fresh? ==> bowl.whole.targets == env.targets)
      && DiskFits(s, contents)
    }

    /** The last checkpoint can be resumed from; while file i is being written that is up to its writer. */
    ghost predicate SavedSafe(s: BowlState, sv: Option<Checkpoint>, contents: seq<Bytes>, i: nat) {
      sv.Some? ==>
        && sv.value.fileIndex <= i && CheckpointFits(env, s, contents, sv.value)
        && (sv.value.fileIndex < i ==> CheckpointOk(env, s, contents, threshold, sv.value))
    }

    ghost predicate SavedOk(s: BowlState, sv: Option<Checkpoint>, contents: seq<Bytes>) {
      sv.Some? ==> CheckpointOk(env, s, contents, threshold, sv.value)
    }

    /** The writer checkpoint that file i's writer must not spoil. */
    function Kept(sv: Option<Checkpoint>, i: nat): Option<WriterCheckpoint> {
      if sv.Some? && sv.value.fileIndex == i then Some(sv.value.series.writer) else None
    }

    /** File i is being written. */
    ghost predicate Steady(s: BowlState, sv: Option<Checkpoint>, contents: seq<Bytes>, i: nat) {
      Sound(s, contents) && SavedSafe(s, sv, contents, i) && Started(s, env.targets, contents, i)
    }

    /** Its writer w is as far as what remains of its series, tail, says. */
    ghost predicate Going(s: BowlState, contents: seq<Bytes>, i: nat, w: EntryWriter, tail: Option<Tail>)
      requires i < |contents| == |Sources(s)|
      reads w.Repr()
    {
      && w.Valid(BaseOf(s, i), threshold, |contents[i]|)
      && GoesOn(env, contents, i, tail, w.Written())
    }

    ghost predicate Relaying(s: BowlState, sv: Option<Checkpoint>, contents: seq<Bytes>, i: nat, w: EntryWriter,
        tail: Option<Tail>)
      requires i < |contents| == |Sources(s)|
      reads w.Repr()
    {
      Going(s, contents, i, w, tail) && w.Keeps(BaseOf(s, i), threshold, Kept(sv, i), contents[i])
    }

    ghost predicate Interrupted(s: BowlState, sv: Option<Checkpoint>, contents: seq<Bytes>, outcome: Outcome) {
      (outcome.Stopped? || outcome.Killed?) && !Calm(schedule) && Sound(s, contents) && SavedOk(s, sv, contents)
    }

    /** How processing file i may end; a completed file is recorded as transposed or not. */
    ghost predicate Ended(s: BowlState, sv: Option<Checkpoint>, contents: seq<Bytes>, i: nat, at: nat,
        outcome: Outcome, transposed: bool) {
      || Interrupted(s, sv, contents, outcome)
      || (outcome.Completed? && Sound(s, contents) && SavedOk(s, sv, contents)
          && UpTo(s, env.targets, contents, i + 1) && Follows(env, contents, i + 1, at)
          && (s.InPlaceState? ==> (OB.IsTransposed(s.plan, i) <==> transposed))
          && (sv.Some? ==> sv.value.fileIndex <= i))
    }

    /**
     * Behind a message: the relay goes on with what remains of the series, or the file has ended; to be looked into
     * only where a Position is named.
     */
    ghost predicate Relayed(i: nat, w: EntryWriter, ended: Option<Outcome>, s: BowlState, contents: seq<Bytes>)
      requires i < |contents| == |Sources(s)|
      reads `pos, `saved, bowl.Footprint(), w.Repr()
    {
      forall n: nat :: Position(n) && n == pos ==>
        if ended.None? then bowl.State() == s && Relaying(s, saved, contents, i, w, RsyncTail(env, n))
        else Ended(bowl.State(), saved, contents, i, n, ended.value, false)
    }

    /** From at on, holding sv there, the run has gone on to where it is now, or ended there. */
    ghost predicate Turned(contents: seq<Bytes>, sv: Option<Checkpoint>, at: nat, ended: Option<Outcome>)
      reads `saved, `pos
    {
      if ended.None? then WentOn(env, contents, schedule, sv, saved, at, pos)
      else CameTo(env, contents, schedule, sv, saved, at, pos, ended.value)
    }

    /** GetWriter, and what is on disk for it. */
    method MarkForWriting(i: nat, ghost contents: seq<Bytes>) returns (base: Option<Bytes>, staged: Option<Staged>)
      requires Sound(bowl.State(), contents) && i < |contents|
      requires UpTo(bowl.State(), env.targets, contents, i) || Started(bowl.State(), env.targets, contents, i)
      modifies bowl.Repr()
      ensures Marks(old(bowl.State()), bowl.State(), i) && Started(bowl.State(), env.targets, contents, i)
      ensures |Sources(old(bowl.State()))| == |Sources(bowl.State())| == |contents|
      ensures base == BaseOf(old(bowl.State()), i) == BaseOf(bowl.State(), i)
        && staged == StagedAt(old(bowl.State()), i)
    {
      ghost var s := bowl.State();
      base := bowl.GetWriter(i);
      MarkStarts(s, bowl.State(), env.targets, contents, i);
      MarksKeepDisk(s, bowl.State(), i);
      staged := bowl.OnDisk(i);
    }

    /** Resume on a writer. A fresh one goes over what is there; an overlay writer goes behind the saved offset. */
    method MakeWriter(base: Option<Bytes>, staged: Option<Staged>, c: Option<WriterCheckpoint>, ghost size: nat,
        ghost content: Bytes)
      returns (w: EntryWriter)
      requires bufSize > 0 && (staged.Some? ==> Fits(base, staged.value, size))
      requires c.Some? ==> staged.Some? && KeptBy(base, threshold, staged.value, c, content)
      ensures fresh(w.Repr()) && w.Valid(base, threshold, size)
      ensures w.Written() == if c.Some? then content[..c.value.offset] else []
      ensures w.Keeps(base, threshold, c, content)
      ensures Apart(w) && bowl.State() == old(bowl.State())
    {
      ghost var head := if c.Some? then content[..c.value.offset] else [];
      if base.Some? {
        var o := new OverlayEntryWriter.Resume(base.value, bufSize, threshold, if staged.Some? then staged.value.msgs
          else [], c, head);
        w := InPlaceWriter(o);
      } else {
        var f := new FreshEntryWriter.Resume(if staged.Some? then staged.value.data else [], c);
        w := FreshWriter(f);
      }
    }

    /** What a message produced goes to the writer. */
    method Relay(i: nat, w: EntryWriter, piece: Bytes, ghost tail: Option<Tail>, ghost rest: Option<Tail>,
        ghost s: BowlState, ghost contents: seq<Bytes>)
      requires i < |contents| == |Sources(s)| && Apart(w) && Relaying(s, saved, contents, i, w, tail)
      requires rest.Some? && tail == Behind(piece, rest)
      modifies w.Repr()
      ensures Relaying(s, saved, contents, i, w, rest) && saved == old(saved) && pos == old(pos)
        && bowl.State() == old(bowl.State())
    {
      ghost var base, head := BaseOf(s, i), w.Written();
      GoesOnStep(env, contents, i, piece, rest, head);
      w.Write(piece, base, threshold, |contents[i]|, Kept(saved, i), contents[i]);
    }

    method ReadMessage() returns (msg: Option<Message>)
      modifies this`pos
      ensures if old(pos) < |env.msgs| then msg == Some(env.msgs[old(pos)]) && pos == old(pos) + 1
        else msg.None? && pos == old(pos)
    {
      if pos >= |env.msgs| {
        return None;
      }
      msg := Some(env.msgs[pos]);
      pos := pos + 1;
    }

    /** When the consumer wants a checkpoint and the source has one: save it. */
    method SaveCheckpoint(i: nat, w: EntryWriter, bsdiff: Option<(int, nat)>, ghost tail: Option<Tail>,
        ghost s: BowlState, ghost contents: seq<Bytes>)
      requires bowl.State() == s && Steady(s, saved, contents, i) && Going(s, contents, i, w, tail) && Apart(w)
      requires bsdiff.None? ==> tail == RsyncTail(env, pos)
      requires bsdiff.Some? ==>
        bsdiff.value.1 < |env.targets| && tail == BsdiffTail(env, env.targets[bsdiff.value.1], bsdiff.value.0, pos)
      requires AtPlace(env, contents, i, pos)
      modifies this`saved, w.Repr()
      ensures Steady(s, saved, contents, i) && Relaying(s, saved, contents, i, w, tail) && bowl.State() == s
      ensures saved.Some? && saved.value.message == pos && saved.value.fileIndex == i
    {
      var c := MakeCheckpoint(i, w, bsdiff, tail, s, contents);
      SafeNow(s, contents, i, c);
      saved := Some(c);
    }

    /** A checkpoint taken in file i is safe while that is being written. */
    lemma SafeNow(s: BowlState, contents: seq<Bytes>, i: nat, c: Checkpoint)
      requires CheckpointFits(env, s, contents, c) && c.fileIndex == i
      ensures SavedSafe(s, Some(c), contents, i) && Kept(Some(c), i) == Some(c.series.writer)
    {
    }

    method SaveBowl(i: nat, w: EntryWriter, ghost tail: Option<Tail>, ghost s: BowlState, ghost contents: seq<Bytes>)
      returns (c: Option<OB.Checkpoint>)
      requires bowl.State() == s && Started(s, env.targets, contents, i) && Going(s, contents, i, w, tail)
      ensures Restored(s, c) == s && (s.InPlaceState? ==> c.Some?)
      ensures bowl.State() == s && Going(s, contents, i, w, tail)
    {
      c := bowl.Save();
    }

    method SaveWriter(i: nat, w: EntryWriter, ghost tail: Option<Tail>, ghost s: BowlState, ghost contents: seq<Bytes>)
      returns (c: WriterCheckpoint)
      requires i < |contents| == |Sources(s)| && Going(s, contents, i, w, tail) && Apart(w)
      modifies w.Repr()
      ensures Going(s, contents, i, w, tail) && c.offset == |w.Written()| && bowl.State() == old(bowl.State())
      ensures w.Keeps(BaseOf(s, i), threshold, Some(c), contents[i])
    {
      HeadIsPrefix(env, contents, i, tail, w.Written());
      c := w.Save(BaseOf(s, i), threshold, |contents[i]|, contents[i]);
    }

    method MakeCheckpoint(i: nat, w: EntryWriter, bsdiff: Option<(int, nat)>, ghost tail: Option<Tail>,
        ghost s: BowlState, ghost contents: seq<Bytes>)
      returns (c: Checkpoint)
      requires bowl.State() == s && Steady(s, saved, contents, i) && Going(s, contents, i, w, tail) && Apart(w)
      requires bsdiff.None? ==> tail == RsyncTail(env, pos)
      requires bsdiff.Some? ==>
        bsdiff.value.1 < |env.targets| && tail == BsdiffTail(env, env.targets[bsdiff.value.1], bsdiff.value.0, pos)
      requires AtPlace(env, contents, i, pos)
      modifies w.Repr()
      ensures c.fileIndex == i && c.message == pos && CheckpointFits(env, s, contents, c)
        && Going(s, contents, i, w, tail)
      ensures w.Keeps(BaseOf(s, i), threshold, Some(c.series.writer), contents[i]) && bowl.State() == s
    {
      var bowlCheckpoint := SaveBowl(i, w, tail, s, contents);
      var writerCheckpoint := SaveWriter(i, w, tail, s, contents);
      c := Checkpoint(pos, i, bowlCheckpoint, SavedSeries(writerCheckpoint, bsdiff));
      NewCheckpointFits(env, s, contents, pos, i, bowlCheckpoint, writerCheckpoint, bsdiff, tail, w.Written());
    }

    /** What a writer leaves on disk, finished or not, is no obstacle to resuming. */
    method StoreLeft(i: nat, left: Staged, ghost s: BowlState, ghost contents: seq<Bytes>)
      requires bowl.State() == s && Steady(s, saved, contents, i)
      requires Fits(BaseOf(s, i), left, |contents[i]|)
        && KeptBy(BaseOf(s, i), threshold, left, Kept(saved, i), contents[i])
      modifies bowl.Repr()
      ensures bowl.State() == Stored(s, i, left) && Sound(bowl.State(), contents)
        && SavedOk(bowl.State(), saved, contents)
    {
      bowl.Store(i, left);
      StoreFits(s, contents, i, left);
      if saved.Some? {
        OkAfterStore(env, s, contents, threshold, saved.value, i, left);
      }
    }

    lemma AllWritten(i: nat, head: Bytes, next: nat, contents: seq<Bytes>)
      requires i < |contents| && GoesOn(env, contents, i, Some(Tail([], next)), head)
      ensures head == contents[i]
    {
      assert head + [] == head;
    }

    /** The writer is done and its file complete. */
    method Finish(i: nat, w: EntryWriter, ghost next: nat, ghost s: BowlState, ghost contents: seq<Bytes>)
      requires bowl.State() == s && Steady(s, saved, contents, i) && Apart(w)
      requires Relaying(s, saved, contents, i, w, Some(Tail([], next)))
      modifies bowl.Repr(), w.Repr()
      ensures Ended(bowl.State(), saved, contents, i, next, Completed, false)
    {
      var stale := *;
      AllWritten(i, w.Written(), next, contents);
      var disk := w.Finalize(BaseOf(s, i), threshold, |contents[i]|, Kept(saved, i), contents[i], stale);
      StoreRecords(s, env.targets, contents, i, disk);
      StoreLeft(i, disk, s, contents);
    }

    /**
     * The process stops or dies in the middle of file i: of what was written since the last
     * checkpoint anything may be left.
     */
    method Abandon(i: nat, w: EntryWriter, ghost tail: Option<Tail>, ghost s: BowlState, ghost contents: seq<Bytes>)
      requires bowl.State() == s && Steady(s, saved, contents, i) && Relaying(s, saved, contents, i, w, tail)
      modifies bowl.Repr()
      ensures Sound(bowl.State(), contents) && SavedOk(bowl.State(), saved, contents)
    {
      var left := Leftover(w, Kept(saved, i), sizes[i], BaseOf(s, i), contents[i]);
      StoreLeft(i, left, s, contents);
    }

    /** Whatever is behind the checkpoint's offsets may be lost or garbled. */
    method Leftover(w: EntryWriter, kept: Option<WriterCheckpoint>, size: nat, ghost base: Option<Bytes>,
        ghost content: Bytes)
      returns (left: Staged)
      requires w.Valid(base, threshold, size) && w.Keeps(base, threshold, kept, content)
      ensures Fits(base, left, size) && KeptBy(base, threshold, left, kept, content)
    {
      match w {
        case FreshWriter(f) =>
          var k: nat :| (if kept.Some? then kept.value.offset else 0) <= k <= |f.file.data|;
          var junk: Bytes :| k + |junk| <= size;
          left := Plain(f.file.data[..k] + junk);
        case InPlaceWriter(o) =>
          var k: nat :| (if kept.Some? then kept.value.data.value.overlayOffset else 0) <= k <= |o.overlay.messages|;
          var junk := *;
          left := Overlay(o.overlay.messages[..k] + junk);
          if kept.Some? {
            var n := kept.value.data.value.overlayOffset;
            assert (o.overlay.messages[..k] + junk)[..n] == o.overlay.messages[..n];
          }
      }
    }

    /**
     * What comes before each message: perhaps a checkpoint, perhaps a stop right behind it,
     * perhaps the end of the process.
     */
    method Interlude(i: nat, w: EntryWriter, bsdiff: Option<(int, nat)>, ghost tail: Option<Tail>, ghost s: BowlState,
        ghost contents: seq<Bytes>)
      returns (ended: Option<Outcome>)
      requires bowl.State() == s && Steady(s, saved, contents, i) && Relaying(s, saved, contents, i, w, tail)
      requires Apart(w) && AtPlace(env, contents, i, pos)
      requires bsdiff.None? ==> tail == RsyncTail(env, pos)
      requires bsdiff.Some? ==>
        bsdiff.value.1 < |env.targets| && tail == BsdiffTail(env, env.targets[bsdiff.value.1], bsdiff.value.0, pos)
      modifies this`saved, bowl.Repr(), w.Repr()
      ensures if schedule(pos).save then saved.Some? && saved.value.message == pos && saved.value.fileIndex == i
        else saved == old(saved)
      ensures if ended.None? then WentOn(env, contents, schedule, old(saved), saved, pos, pos + 1)
        else CameTo(env, contents, schedule, old(saved), saved, pos, pos, ended.value)
      ensures ended.None? ==>
        bowl.State() == s && Steady(s, saved, contents, i) && Relaying(s, saved, contents, i, w, tail)
      ensures ended.Some? ==> Interrupted(bowl.State(), saved, contents, ended.value)
      ensures pos == old(pos)
    {
      ghost var at, sv := pos, saved;
      ended := SaveOrEnd(i, w, bsdiff, tail, s, contents);
      PlacePassed(env, contents, schedule, sv, saved, i, at, at + 1, ended);
    }

    /** What the schedule says for this place. */
    method SaveOrEnd(i: nat, w: EntryWriter, bsdiff: Option<(int, nat)>, ghost tail: Option<Tail>, ghost s: BowlState,
        ghost contents: seq<Bytes>)
      returns (ended: Option<Outcome>)
      requires bowl.State() == s && Steady(s, saved, contents, i) && Relaying(s, saved, contents, i, w, tail)
      requires Apart(w) && AtPlace(env, contents, i, pos)
      requires bsdiff.None? ==> tail == RsyncTail(env, pos)
      requires bsdiff.Some? ==>
        bsdiff.value.1 < |env.targets| && tail == BsdiffTail(env, env.targets[bsdiff.value.1], bsdiff.value.0, pos)
      modifies this`saved, bowl.Repr(), w.Repr()
      ensures if schedule(pos).save then saved.Some? && saved.value.message == pos && saved.value.fileIndex == i
        else saved == old(saved)
      ensures if ended.None? then !schedule(pos).Ends()
        else schedule(pos).Ends() && ended.value == if schedule(pos).die then Killed else Stopped
      ensures ended.None? ==>
        bowl.State() == s && Steady(s, saved, contents, i) && Relaying(s, saved, contents, i, w, tail)
      ensures pos == old(pos) && (ended.Some? ==> Interrupted(bowl.State(), saved, contents, ended.value))
    {
      var choice := schedule(pos);
      if choice.save {
        SaveCheckpoint(i, w, bsdiff, tail, s, contents);
      }
      if choice.Ends() {
        Abandon(i, w, tail, s, contents);
        return Some(if choice.die then Killed else Stopped);
      }
      ended := None;
    }

    /** The loop that relays the rest of an rsync series, from any message of it on. */
    method RelayRsync(i: nat, w: EntryWriter, ghost s: BowlState, ghost contents: seq<Bytes>) returns (outcome: Outcome)
      requires bowl.State() == s && Steady(s, saved, contents, i)
        && Relaying(s, saved, contents, i, w, RsyncTail(env, pos))
      requires Apart(w) && AtPlace(env, contents, i, pos)
      modifies this`pos, this`saved, bowl.Repr(), w.Repr()
      ensures Ended(bowl.State(), saved, contents, i, pos, outcome, false)
      ensures CameTo(env, contents, schedule, old(saved), saved, old(pos), pos, outcome)
    {
      var ended: Option<Outcome> := None;
      ghost var pos0, saved0 := pos, saved;
      WentNowhere(env, contents, schedule, saved, pos);
      while ended.None?
        invariant ended.None? ==> AtPlace(env, contents, i, pos)
        invariant Turned(contents, saved0, pos0, ended)
        invariant Relayed(i, w, ended, s, contents) && (ended.None? ==> Steady(s, saved, contents, i))
        decreases ended.None?, |env.msgs| - pos
      {
        ghost var mid, sv := pos, saved;
        ended := RsyncTurn(i, w, s, contents);
        GoesFurther(contents, saved0, sv, pos0, mid, ended);
      }
      assert Position(pos);
      outcome := ended.value;
    }

    method RsyncTurn(i: nat, w: EntryWriter, ghost s: BowlState, ghost contents: seq<Bytes>)
      returns (ended: Option<Outcome>)
      requires Steady(s, saved, contents, i) && Relayed(i, w, None, s, contents)
      requires Apart(w) && AtPlace(env, contents, i, pos)
      modifies this`pos, this`saved, bowl.Repr(), w.Repr()
      ensures Relayed(i, w, ended, s, contents) && Turned(contents, old(saved), old(pos), ended)
      ensures ended.None? ==>
        Steady(s, saved, contents, i) && AtPlace(env, contents, i, pos) && old(pos) < pos <= |env.msgs|
    {
      ghost var tail, at, sv := RsyncTail(env, pos), pos, saved;
      assert Position(pos);
      RsyncTailCases(env, pos);
      ended := Interlude(i, w, None, tail, s, contents);
      if ended.None? {
        ended := NextRsyncMessage(i, w, tail, s, contents);
        RsyncMoved(i, contents, at, sv, ended);
      }
    }

    /** A loop goes on by a turn. */
    lemma GoesFurther(contents: seq<Bytes>, saved0: Option<Checkpoint>, sv: Option<Checkpoint>, pos0: nat, mid: nat,
        ended: Option<Outcome>)
      requires WentOn(env, contents, schedule, saved0, sv, pos0, mid)
      requires Turned(contents, sv, mid, ended)
      ensures Turned(contents, saved0, pos0, ended)
    {
      if ended.None? {
        WentFurther(env, contents, schedule, saved0, sv, saved, pos0, mid, pos);
      } else {
        CameFurther(env, contents, schedule, saved0, sv, saved, pos0, mid, pos, ended.value);
      }
    }

    method NextRsyncMessage(i: nat, w: EntryWriter, ghost tail: Option<Tail>, ghost s: BowlState,
        ghost contents: seq<Bytes>)
      returns (ended: Option<Outcome>)
      requires bowl.State() == s && Steady(s, saved, contents, i) && Apart(w)
        && Relaying(s, saved, contents, i, w, tail)
      requires tail == RsyncTail(env, pos) && pos < |env.msgs|
      modifies this`pos, bowl.Repr(), w.Repr()
      ensures saved == old(saved) && pos == old(pos) + 1 && Relayed(i, w, ended, s, contents)
      ensures if ended.None? then env.msgs[old(pos)].SyncOp? && RsyncTail(env, pos).Some?
        else env.msgs[old(pos)].HeyYouDidIt? && ended.value.Completed?
    {
      var msg := ReadMessage();
      if msg.None? {
        assert false;
        return Some(Failed("unexpected end of patch"));
      }
      ended := RsyncMessage(i, w, msg.value, tail, s, contents);
    }

    /** Behind a message of an rsync series the run is at the next one, or done with the series. */
    lemma RsyncMoved(i: nat, contents: seq<Bytes>, from: nat, sv: Option<Checkpoint>, ended: Option<Outcome>)
      requires 0 < pos <= |env.msgs| && AtPlace(env, contents, i, pos - 1)
      requires WentOn(env, contents, schedule, sv, saved, from, pos)
      requires if ended.None? then env.msgs[pos - 1].SyncOp? && RsyncTail(env, pos).Some?
        else env.msgs[pos - 1].HeyYouDidIt? && ended.value.Completed?
      ensures Turned(contents, sv, from, ended) && (ended.None? ==> AtPlace(env, contents, i, pos))
    {
      if ended.None? {
        NextRsyncPlace(env, contents, i, pos - 1, pos);
      } else {
        CompletedThere(env, contents, schedule, sv, saved, from, pos);
      }
    }

    method RsyncMessage(i: nat, w: EntryWriter, msg: Message, ghost tail: Option<Tail>, ghost s: BowlState,
        ghost contents: seq<Bytes>)
      returns (ended: Option<Outcome>)
      requires bowl.State() == s && Steady(s, saved, contents, i) && Apart(w)
        && Relaying(s, saved, contents, i, w, tail)
      requires 0 < pos <= |env.msgs| && msg == env.msgs[pos - 1] && tail == RsyncTail(env, pos - 1)
      modifies bowl.Repr(), w.Repr()
      ensures saved == old(saved) && pos == old(pos) && Relayed(i, w, ended, s, contents)
      ensures if ended.None? then msg.SyncOp? && RsyncTail(env, pos).Some?
        else msg.HeyYouDidIt? && ended.value.Completed?
    {
      RsyncTailCases(env, pos - 1);
      if msg.HeyYouDidIt? {
        Finish(i, w, pos, s, contents);
        return Some(Completed);
      }
      if !msg.SyncOp? {
        return Some(Failed("unknown sync op type"));
      }
      RelayOp(i, w, msg.op, tail, RsyncTail(env, pos), s, contents);
      ended := None;
    }

    method RelayOp(i: nat, w: EntryWriter, op: Operation, ghost tail: Option<Tail>, ghost rest: Option<Tail>,
        ghost s: BowlState, ghost contents: seq<Bytes>)
      requires i < |contents| == |Sources(s)| && Apart(w) && Relaying(s, saved, contents, i, w, tail)
      requires env.size > 0 && ValidOp(env.targets, env.size, op) && rest.Some?
        && tail == Behind(OpBytes(env.targets, env.size, op), rest)
      modifies w.Repr()
      ensures Relaying(s, saved, contents, i, w, rest) && saved == old(saved) && pos == old(pos)
        && bowl.State() == old(bowl.State())
    {
      var piece := ApplySingle(env.targets, env.size, op, []);
      assert piece == OpBytes(env.targets, env.size, op);
      Relay(i, w, piece, tail, rest, s, contents);
    }

    /** Where processing file i starts: behind its header, or from the last checkpoint. */
    ghost predicate Ready(s: BowlState, sv: Option<Checkpoint>, contents: seq<Bytes>, i: nat, at: nat, resumed: bool) {
      && i < |contents| && Sound(s, contents) && SavedOk(s, sv, contents)
      && if resumed then sv.Some? && sv.value.fileIndex == i && sv.value.message == at
        && Restored(s, sv.value.bowl) == s
         else UpTo(s, env.targets, contents, i) && (sv.Some? ==> sv.value.fileIndex < i)
    }

    /** The file is listed, and what it is written over and what is left of it looked up. */
    method BeginWriting(i: nat, resumed: bool, ghost contents: seq<Bytes>)
      returns (base: Option<Bytes>, staged: Option<Staged>, c: Option<WriterCheckpoint>)
      requires Ready(bowl.State(), saved, contents, i, pos, resumed)
      modifies bowl.Repr()
      ensures Steady(bowl.State(), saved, contents, i) && base == BaseOf(bowl.State(), i)
      ensures c == Kept(saved, i) == if resumed then Some(saved.value.series.writer) else None
      ensures staged.Some? ==> Fits(base, staged.value, |contents[i]|)
      ensures c.Some? ==> staged.Some? && KeptBy(base, threshold, staged.value, c, contents[i])
    {
      ghost var s := bowl.State();
      c := if resumed then Some(saved.value.series.writer) else None;
      base, staged := MarkForWriting(i, contents);
      MarkKeeps(env, s, bowl.State(), contents, threshold, saved, i);
    }

    /** The writer is opened and the bookkeeping is as the relay loops need it. */
    method StartWriting(i: nat, resumed: bool, ghost tail: Option<Tail>, ghost contents: seq<Bytes>)
      returns (w: EntryWriter)
      requires Ready(bowl.State(), saved, contents, i, pos, resumed)
      requires if resumed then tail == SeriesTail(env, saved.value) else Makes(env, contents, i, tail)
      modifies bowl.Repr()
      ensures fresh(w.Repr()) && Apart(w) && Steady(bowl.State(), saved, contents, i)
      ensures Relaying(bowl.State(), saved, contents, i, w, tail)
    {
      var base, staged, c := BeginWriting(i, resumed, contents);
      w := MakeWriter(base, staged, c, |contents[i]|, contents[i]);
      assert !resumed ==> [] + tail.value.bytes == tail.value.bytes;
      assert GoesOn(env, contents, i, tail, w.Written());
    }

    /** A file whose series starts with a full-file operation is transposed, and the rest of its series skipped. */
    method TransposeFile(i: nat, target: nat, ghost tail: Tail, ghost contents: seq<Bytes>) returns (outcome: Outcome)
      requires Ready(bowl.State(), saved, contents, i, pos, false)
      requires target < |env.targets| && env.targets[target] == contents[i]
      requires bowl.InPlace? ==> target < |bowl.overlay.targetFiles|
      requires RsyncTail(env, pos) == Some(tail) && Follows(env, contents, i + 1, tail.next)
      requires pos <= tail.next && NoPlaces(env, contents, pos, tail.next) && !SavePlace(env, contents, pos)
      modifies this`pos, bowl.Repr()
      ensures Ended(bowl.State(), saved, contents, i, pos, outcome, true)
      ensures saved == old(saved) && CameTo(env, contents, schedule, old(saved), saved, old(pos), pos, outcome)
    {
      if schedule(pos).die {
        AbandonTransposition(i, target, contents);
        DiedThere(env, contents, schedule, saved, pos);
        return Killed;
      }
      ghost var s, sv, at := bowl.State(), saved, pos;
      var t := OB.Transposition(target, i);
      bowl.Transpose(t, env.targets);
      TransposeRecords(s, bowl.State(), env.targets, contents, t);
      TransposeKeeps(env, s, bowl.State(), contents, threshold, sv, t);
      ReadUntilEndMarker(tail);
      CompletedByNoPlaces(env, contents, schedule, saved, at, pos);
      outcome := Completed;
    }

    /** The process dies in the middle of a transposition: a fresh bowl may be left with a part of the file. */
    method AbandonTransposition(i: nat, target: nat, ghost contents: seq<Bytes>)
      requires Ready(bowl.State(), saved, contents, i, pos, false) && target < |env.targets|
        && env.targets[target] == contents[i]
      modifies bowl.Repr()
      ensures Sound(bowl.State(), contents) && SavedOk(bowl.State(), saved, contents)
    {
      if bowl.Fresh? {
        ghost var s := bowl.State();
        var k: nat :| k <= |env.targets[target]|;
        var left := Plain(env.targets[target][..k]);
        bowl.Store(i, left);
        StoreFits(s, contents, i, left);
        if saved.Some? {
          OkAfterStore(env, s, contents, threshold, saved.value, i, left);
        }
      }
    }

    method ReadUntilEndMarker(ghost tail: Tail)
      requires exists bytes :: RsyncTail(env, pos) == Some(Tail(bytes, tail.next))
      modifies this`pos
      ensures pos == tail.next
    {
      var done := false;
      while !done
        invariant if done then pos == tail.next else exists bytes :: RsyncTail(env, pos) == Some(Tail(bytes, tail.next))
        decreases !done, |env.msgs| - pos
      {
        done := env.msgs[pos].HeyYouDidIt?;
        if !done {
          assert RsyncTail(env, pos + 1) == Some(Tail(RsyncTail(env, pos + 1).value.bytes, tail.next));
        }
        pos := pos + 1;
      }
    }

    method ProcessRsync(i: nat, resumed: bool, ghost contents: seq<Bytes>) returns (outcome: Outcome)
      requires Ready(bowl.State(), saved, contents, i, pos, resumed)
      requires resumed ==> saved.value.series.RsyncSeries?
      requires !resumed ==> Makes(env, contents, i, RsyncTail(env, pos)) && !env.msgs[pos].HeyYouDidIt?
      requires !resumed ==> pos > 0 && env.msgs[pos - 1] == Header(i, RsyncKind)
      requires bowl.InPlace? ==> |bowl.overlay.targetFiles| == |env.targets|
      modifies this`pos, this`saved, bowl.Repr()
      ensures Ended(bowl.State(), saved, contents, i, pos, outcome,
        !resumed && Transposed(env, contents, old(pos) - 1))
      ensures CameTo(env, contents, schedule, old(saved), saved, old(pos), pos, outcome)
    {
      if resumed {
        var w := StartWriting(i, resumed, RsyncTail(env, pos), contents);
        outcome := RelayRsync(i, w, bowl.State(), contents);
        return;
      }
      var msg := env.msgs[pos];
      if !msg.SyncOp? {
        return Failed("unknown sync op type");
      }
      var op := msg.op;
      ghost var rest := RsyncTail(env, pos + 1);
      if op.BlockRange? && Whole.IsFullFileOp(op, |env.targets[op.fileIndex]|, sizes[i], env.size) {
        FullFileOp(env, op, rest, contents[i]);
        pos := pos + 1;
        ghost var mid := pos;
        SkipsFirst(contents, i, mid - 2, mid - 1, mid);
        TransposedPlaces(env, contents, mid - 2, mid);
        outcome := TransposeFile(i, op.fileIndex, rest.value, contents);
        CameFurther(env, contents, schedule, saved, saved, saved, old(pos), mid, pos, outcome);
      } else {
        outcome := WriteFirst(i, op, contents);
      }
    }

    /** No checkpoint is taken in front of the first operation. */
    lemma SkipsFirst(contents: seq<Bytes>, i: nat, h: nat, at: nat, next: nat)
      requires at == h + 1 < |env.msgs| && env.msgs[h] == Header(i, RsyncKind) && env.msgs[at].SyncOp? && next == at + 1
      ensures WentOn(env, contents, schedule, saved, saved, at, next)
      ensures SeriesStart(env.msgs, h + 1) == h
      ensures next < |env.msgs| && !env.msgs[next].Header? ==> SeriesStart(env.msgs, next) == h
    {
      WentByNoPlaces(env, contents, schedule, saved, at, next);
    }

    /**
     * Not a full-file operation: the writer is opened, and this first operation relayed, before the loop takes over.
     */
    method WriteFirst(i: nat, op: Operation, ghost contents: seq<Bytes>) returns (outcome: Outcome)
      requires Ready(bowl.State(), saved, contents, i, pos, false)
      requires Makes(env, contents, i, RsyncTail(env, pos)) && env.msgs[pos] == SyncOp(op)
      requires pos > 0 && env.msgs[pos - 1] == Header(i, RsyncKind) && !Transposed(env, contents, pos - 1)
      modifies this`pos, this`saved, bowl.Repr()
      ensures Ended(bowl.State(), saved, contents, i, pos, outcome, false)
      ensures CameTo(env, contents, schedule, old(saved), saved, old(pos), pos, outcome)
    {
      ghost var tail, at, mid, sv := RsyncTail(env, pos), pos, pos + 1, saved;
      pos := pos + 1;
      SkipsFirst(contents, i, at - 1, at, mid);
      var w := WriteOp(i, op, tail, contents);
      FirstRsyncPlace(env, contents, i, at - 1, mid);
      outcome := RelayRsync(i, w, bowl.State(), contents);
      CameFurther(env, contents, schedule, sv, sv, saved, at, mid, pos, outcome);
    }

    /** A new writer, with the first operation's bytes. */
    method WriteOp(i: nat, op: Operation, ghost tail: Option<Tail>, ghost contents: seq<Bytes>) returns (w: EntryWriter)
      requires Ready(bowl.State(), saved, contents, i, pos, false) && Makes(env, contents, i, tail)
      requires 0 < pos <= |env.msgs| && env.msgs[pos - 1] == SyncOp(op) && tail == RsyncTail(env, pos - 1)
      modifies bowl.Repr()
      ensures fresh(w.Repr()) && Apart(w) && Steady(bowl.State(), saved, contents, i)
      ensures Relaying(bowl.State(), saved, contents, i, w, RsyncTail(env, pos))
      ensures RsyncTail(env, pos).Some?
    {
      w := StartWriting(i, false, tail, contents);
      var ended := RsyncMessage(i, w, SyncOp(op), tail, bowl.State(), contents);
    }

    // ----- bsdiff series

    method ProcessBsdiff(i: nat, resumed: bool, ghost tail: Option<Tail>, ghost contents: seq<Bytes>)
      returns (outcome: Outcome)
      requires Ready(bowl.State(), saved, contents, i, pos, resumed)
      requires resumed ==> saved.value.series.BsdiffSeries? && tail == SeriesTail(env, saved.value)
      requires !resumed ==> Makes(env, contents, i, tail) && BsdiffStart(pos, tail)
      requires !resumed ==> pos > 0 && env.msgs[pos - 1] == Header(i, BsdiffKind)
      modifies this`pos, this`saved, bowl.Repr()
      ensures Ended(bowl.State(), saved, contents, i, pos, outcome, false)
      ensures CameTo(env, contents, schedule, old(saved), saved, old(pos), pos, outcome)
    {
      var oldOffset, targetIndex;
      ghost var at, mid, sv := pos, pos, saved;
      WentNowhere(env, contents, schedule, saved, pos);
      if resumed {
        oldOffset, targetIndex := saved.value.series.oldOffset, saved.value.series.targetIndex;
      } else {
        var msg := ReadMessage();
        if msg.None? || !msg.value.BsdiffHeader? {
          assert false;
          return Failed("unexpected message");
        }
        oldOffset, targetIndex := 0, msg.value.targetIndex;
        mid := pos;
        WentByNoPlaces(env, contents, schedule, saved, at, pos);
        FirstBsdiffPlace(env, contents, i, at - 1, env.targets[targetIndex], pos);
      }
      var w := StartWriting(i, resumed, tail, contents);
      outcome := RelayBsdiff(i, w, targetIndex, oldOffset, tail, bowl.State(), contents);
      CameFurther(env, contents, schedule, sv, sv, saved, at, mid, pos, outcome);
    }

    ghost predicate BsdiffStart(at: nat, tail: Option<Tail>) {
      && at < |env.msgs| && env.msgs[at].BsdiffHeader? && env.msgs[at].targetIndex < |env.targets|
      && tail == BsdiffTail(env, env.targets[env.msgs[at].targetIndex], 0, at + 1)
    }

    /** The loop that applies control messages, from any of them on; the old offset goes into every checkpoint. */
    method RelayBsdiff(i: nat, w: EntryWriter, targetIndex: nat, oldOffset0: int, ghost tail0: Option<Tail>,
        ghost s: BowlState, ghost contents: seq<Bytes>)
      returns (outcome: Outcome)
      requires bowl.State() == s && Steady(s, saved, contents, i) && Relaying(s, saved, contents, i, w, tail0)
        && Apart(w)
      requires targetIndex < |env.targets| && tail0 == BsdiffTail(env, env.targets[targetIndex], oldOffset0, pos)
      requires AtPlace(env, contents, i, pos)
      modifies this`pos, this`saved, bowl.Repr(), w.Repr()
      ensures Ended(bowl.State(), saved, contents, i, pos, outcome, false)
      ensures CameTo(env, contents, schedule, old(saved), saved, old(pos), pos, outcome)
    {
      var ended: Option<Outcome>, oldOffset := None, oldOffset0;
      ghost var pos0, saved0 := pos, saved;
      WentNowhere(env, contents, schedule, saved, pos);
      while ended.None?
        invariant ended.None? ==> AtPlace(env, contents, i, pos)
        invariant Turned(contents, saved0, pos0, ended)
        invariant ended.None? ==> bowl.State() == s && Steady(s, saved, contents, i)
        invariant ended.None? ==> Relaying(s, saved, contents, i, w,
          BsdiffTail(env, env.targets[targetIndex], oldOffset, pos))
        invariant ended.Some? ==> Ended(bowl.State(), saved, contents, i, pos, ended.value, false)
        decreases ended.None?, |env.msgs| - pos
      {
        ghost var mid, sv := pos, saved;
        ended, oldOffset := BsdiffTurn(i, w, targetIndex, oldOffset, s, contents);
        GoesFurther(contents, saved0, sv, pos0, mid, ended);
      }
      outcome := ended.value;
    }

    method BsdiffTurn(i: nat, w: EntryWriter, targetIndex: nat, oldOffset0: int, ghost s: BowlState,
        ghost contents: seq<Bytes>)
      returns (ended: Option<Outcome>, oldOffset: int)
      requires bowl.State() == s && Steady(s, saved, contents, i) && Apart(w) && targetIndex < |env.targets|
      requires Relaying(s, saved, contents, i, w, BsdiffTail(env, env.targets[targetIndex], oldOffset0, pos))
      requires AtPlace(env, contents, i, pos)
      modifies this`pos, this`saved, bowl.Repr(), w.Repr()
      ensures ended.None? ==> bowl.State() == s && Steady(s, saved, contents, i) && old(pos) < pos <= |env.msgs|
      ensures ended.None? ==> AtPlace(env, contents, i, pos) && Relaying(s, saved, contents, i, w,
        BsdiffTail(env, env.targets[targetIndex], oldOffset, pos))
      ensures ended.Some? ==> Ended(bowl.State(), saved, contents, i, pos, ended.value, false)
      ensures Turned(contents, old(saved), old(pos), ended)
    {
      oldOffset := oldOffset0;
      ghost var tail, at, sv := BsdiffTail(env, env.targets[targetIndex], oldOffset, pos), pos, saved;
      ended := Interlude(i, w, Some((oldOffset, targetIndex)), tail, s, contents);
      if ended.None? {
        ended, oldOffset := NextBsdiffMessage(i, w, env.targets[targetIndex], oldOffset, tail, s, contents);
        if ended.Some? {
          CompletedBehind(env, contents, schedule, sv, saved, at, at + 1, pos);
        }
      }
    }

    method NextBsdiffMessage(i: nat, w: EntryWriter, old_: Bytes, oldOffset0: int, ghost tail: Option<Tail>,
        ghost s: BowlState, ghost contents: seq<Bytes>)
      returns (ended: Option<Outcome>, oldOffset: int)
      requires bowl.State() == s && Steady(s, saved, contents, i) && Apart(w)
        && Relaying(s, saved, contents, i, w, tail)
      requires tail == BsdiffTail(env, old_, oldOffset0, pos) && AtPlace(env, contents, i, pos)
      modifies this`pos, bowl.Repr(), w.Repr()
      ensures saved == old(saved) && (ended.None? ==> pos == old(pos) + 1 <= |env.msgs|)
      ensures ended.None? ==> AtPlace(env, contents, i, pos) && bowl.State() == s && Relaying(s, saved, contents, i, w,
        BsdiffTail(env, old_, oldOffset, pos))
      ensures ended.Some? ==> ended.value.Completed? && pos == old(pos) + 2 && !SavePlace(env, contents, old(pos) + 1)
      ensures ended.Some? ==> Ended(bowl.State(), saved, contents, i, pos, ended.value, false)
    {
      assert pos < |env.msgs| && env.msgs[pos].Ctrl?;
      var msg := ReadMessage();
      if msg.None? || !msg.value.Ctrl? {
        assert false;
        return Some(Failed("unexpected end of patch")), oldOffset0;
      }
      ended, oldOffset := BsdiffMessage(i, w, old_, oldOffset0, msg.value.ctrl, tail, s, contents);
      if ended.None? {
        NextBsdiffPlace(env, contents, i, pos - 1, old_, oldOffset, pos);
      }
    }

    method BsdiffMessage(i: nat, w: EntryWriter, old_: Bytes, oldOffset0: int, ctrl: Control, ghost tail: Option<Tail>,
        ghost s: BowlState, ghost contents: seq<Bytes>)
      returns (ended: Option<Outcome>, oldOffset: int)
      requires bowl.State() == s && Steady(s, saved, contents, i) && Apart(w)
      requires 0 < pos <= |env.msgs| && env.msgs[pos - 1] == Ctrl(ctrl)
      requires Relaying(s, saved, contents, i, w, tail) && tail == BsdiffTail(env, old_, oldOffset0, pos - 1)
      modifies this`pos, bowl.Repr(), w.Repr()
      ensures saved == old(saved)
      ensures ended.None? ==>
        pos == old(pos) && bowl.State() == s
        && Relaying(s, saved, contents, i, w, BsdiffTail(env, old_, oldOffset, pos))
        && BsdiffTail(env, old_, oldOffset, pos).Some?
      ensures ended.Some? ==> ended.value.Completed? && Ended(bowl.State(), saved, contents, i, pos, ended.value, false)
      ensures ended.Some? ==> pos == old(pos) + 1 <= |env.msgs| && env.msgs[old(pos)].HeyYouDidIt?
    {
      if ctrl.eof {
        ended := EndBsdiff(i, w, s, contents);
        return ended, oldOffset0;
      }
      var applied := ApplyControl(old_, oldOffset0, ctrl);
      if applied.None? {
        assert false;
        return Some(Failed("corrupted patch")), oldOffset0;
      }
      oldOffset := applied.value.next;
      Relay(i, w, applied.value.piece, tail, BsdiffTail(env, old_, oldOffset, pos), s, contents);
      ended := None;
    }

    /** What has been written has the size the container says. */
    method SizeIsRight(i: nat, w: EntryWriter, ghost next: nat, ghost s: BowlState, ghost contents: seq<Bytes>)
      returns (right: bool)
      requires Steady(s, saved, contents, i) && Relaying(s, saved, contents, i, w, Some(Tail([], next)))
      ensures right
    {
      AllWritten(i, w.Written(), next, contents);
      right := w.Tell() == sizes[i];
    }

    /** Behind the last control message: the sentinel, and the size check. */
    method EndBsdiff(i: nat, w: EntryWriter, ghost s: BowlState, ghost contents: seq<Bytes>)
      returns (ended: Option<Outcome>)
      requires bowl.State() == s && Steady(s, saved, contents, i) && Apart(w)
      requires pos < |env.msgs| && env.msgs[pos].HeyYouDidIt?
        && Relaying(s, saved, contents, i, w, Some(Tail([], pos + 1)))
      modifies this`pos, bowl.Repr(), w.Repr()
      ensures ended.Some? && ended.value.Completed? && Ended(bowl.State(), saved, contents, i, pos, ended.value, false)
      ensures saved == old(saved) && pos == old(pos) + 1
    {
      ghost var next := pos + 1;
      var op := ReadMessage();
      if op != Some(HeyYouDidIt) {
        assert false;
        return Some(Failed("corrupt patch: expected sentinel SyncOp after bsdiff series"));
      }
      var right := SizeIsRight(i, w, next, s, contents);
      if !right {
        assert false;
        return Some(Failed("corrupted patch: wrong size after patching"));
      }
      Finish(i, w, next, s, contents);
      ended := Some(Completed);
    }

    // ----- the whole patch

    method ProcessFile(i: nat, resumed: bool, ghost contents: seq<Bytes>) returns (outcome: Outcome)
      requires Ready(bowl.State(), saved, contents, i, pos, resumed) && (!resumed ==> Follows(env, contents, i, pos))
      modifies this`pos, this`saved, bowl.Repr()
      ensures Ended(bowl.State(), saved, contents, i, pos, outcome, !resumed && Transposed(env, contents, old(pos)))
      ensures CameTo(env, contents, schedule, old(saved), saved, old(pos), pos, outcome)
    {
      if resumed {
        if saved.value.series.RsyncSeries? {
          outcome := ProcessRsync(i, true, contents);
        } else {
          outcome := ProcessBsdiff(i, true, SeriesTail(env, saved.value), contents);
        }
        return;
      }
      ghost var tail, at, sv := FileTail(env, i, pos), pos, saved;
      assert Position(pos);
      var msg := ReadMessage();
      if msg.None? || !msg.value.Header? {
        assert false;
        return Failed("unexpected message");
      }
      if msg.value.fileIndex != i {
        assert false;
        return Failed("corrupted patch or internal error");
      }
      ghost var mid := at + 1;
      WentByNoPlaces(env, contents, schedule, sv, at, mid);
      if msg.value.kind.RsyncKind? {
        outcome := ProcessRsync(i, false, contents);
      } else {
        outcome := ProcessBsdiff(i, false, tail, contents);
      }
      CameFurther(env, contents, schedule, sv, sv, saved, at, mid, pos, outcome);
    }

    /**
     * Resume: from the start or from a checkpoint. It completes with every source file dealt with, or ends early
     * with a last checkpoint from which another run can go on; a run that is left alone completes.
     */
    method Resume(c: Option<Checkpoint>, ghost contents: seq<Bytes>) returns (outcome: Outcome)
      requires Sound(bowl.State(), contents) && pos == 0 && saved == None
      requires if c.Some? then CheckpointOk(env, bowl.State(), contents, threshold, c.value)
               else UpTo(bowl.State(), env.targets, contents, 0) && PatchFrom(env, contents, 0, 0)
      modifies this`pos, this`saved, bowl.Repr()
      ensures !outcome.Failed? && Sound(bowl.State(), contents) && SavedOk(bowl.State(), saved, contents)
      ensures outcome.Completed? ==> UpTo(bowl.State(), env.targets, contents, |contents|)
      ensures Calm(schedule) ==> outcome.Completed?
      ensures outcome.Stopped? ==> saved.Some? && saved.value.message == pos
      ensures CameTo(env, contents, schedule, c, saved, StartOf(c), pos, outcome)
    {
      var i, resumed := 0, c.Some?;
      if resumed {
        i := TakeUp(c.value, contents);
      }
      ghost var at := pos;
      outcome := ProcessFiles(i, resumed, contents);
      StoppedThere(env, contents, schedule, c, saved, at, pos, outcome);
    }

    /** The loop over the files. */
    method ProcessFiles(from: nat, resumed0: bool, ghost contents: seq<Bytes>) returns (outcome: Outcome)
      requires AtFile(bowl.State(), saved, contents, from, pos, resumed0)
      modifies this`pos, this`saved, bowl.Repr()
      ensures Interrupted(bowl.State(), saved, contents, outcome)
        || (outcome.Completed? && AtFile(bowl.State(), saved, contents, |sizes|, pos, false))
      ensures CameTo(env, contents, schedule, old(saved), saved, old(pos), pos, outcome)
    {
      var i, resumed := from, resumed0;
      outcome := Completed;
      ghost var pos0, saved0 := pos, saved;
      WentNowhere(env, contents, schedule, saved, pos);
      CompletedThere(env, contents, schedule, saved, saved, pos, pos);
      while i < |sizes| && outcome.Completed?
        invariant outcome.Completed? ==> AtFile(bowl.State(), saved, contents, i, pos, resumed)
        invariant !outcome.Completed? ==> Interrupted(bowl.State(), saved, contents, outcome)
        invariant CameTo(env, contents, schedule, saved0, saved, pos0, pos, outcome)
        decreases |sizes| - i, outcome.Completed?
      {
        ghost var mid, sv := pos, saved;
        WentThere(env, contents, schedule, saved0, saved, pos0, pos);
        outcome := NextFile(i, resumed, contents);
        CameFurther(env, contents, schedule, saved0, sv, saved, pos0, mid, pos, outcome);
        i, resumed := i + 1, false;
      }
    }

    /** The process may also die between two files. */
    method NextFile(i: nat, resumed: bool, ghost contents: seq<Bytes>) returns (outcome: Outcome)
      requires i < |sizes| && AtFile(bowl.State(), saved, contents, i, pos, resumed)
      modifies this`pos, this`saved, bowl.Repr()
      ensures if outcome.Completed? then AtFile(bowl.State(), saved, contents, i + 1, pos, false)
              else Interrupted(bowl.State(), saved, contents, outcome)
      ensures outcome.Completed? && bowl.InPlace? ==>
        (OB.IsTransposed(bowl.State().plan, i) <==> !resumed && Transposed(env, contents, old(pos)))
      ensures CameTo(env, contents, schedule, old(saved), saved, old(pos), pos, outcome)
    {
      if schedule(pos).die {
        NoPlaceBetween(contents, i, resumed);
        DiedThere(env, contents, schedule, saved, pos);
        return Killed;
      }
      ghost var transposed := !resumed && Transposed(env, contents, pos);
      outcome := ProcessFile(i, resumed, contents);
      OnToNext(bowl.State(), saved, contents, i, pos, outcome, transposed);
    }

    /** Between two files no checkpoint is taken; a run that is resumed is at its checkpoint. */
    lemma NoPlaceBetween(contents: seq<Bytes>, i: nat, resumed: bool)
      requires i < |sizes| && AtFile(bowl.State(), saved, contents, i, pos, resumed)
      ensures !SavePlace(env, contents, pos)
        || (saved.Some? && saved.value.message == pos && InSeries(env, saved.value.fileIndex, pos))
    {
      assert Position(pos);
    }

    lemma OnToNext(s: BowlState, sv: Option<Checkpoint>, contents: seq<Bytes>, i: nat, at: nat, outcome: Outcome,
        transposed: bool)
      requires Ended(s, sv, contents, i, at, outcome, transposed)
      ensures if outcome.Completed? then AtFile(s, sv, contents, i + 1, at, false)
        else Interrupted(s, sv, contents, outcome)
    {
    }

    /** The files before i are done, and the patch goes on with file i, or in the middle of it. */
    ghost predicate AtFile(s: BowlState, sv: Option<Checkpoint>, contents: seq<Bytes>, i: nat, at: nat, resumed: bool) {
      if resumed then Ready(s, sv, contents, i, at, true)
      else
        && Sound(s, contents) && SavedOk(s, sv, contents) && UpTo(s, env.targets, contents, i)
          && Follows(env, contents, i, at)
        && (sv.Some? ==> sv.value.fileIndex < i)
    }

    /** Back to where a checkpoint was saved. */
    method TakeUp(c: Checkpoint, ghost contents: seq<Bytes>) returns (i: nat)
      requires Sound(bowl.State(), contents) && CheckpointOk(env, bowl.State(), contents, threshold, c)
      modifies this`pos, this`saved, bowl.Repr()
      ensures Ready(bowl.State(), saved, contents, i, pos, true) && saved == Some(c) && pos == c.message
    {
      ghost var s := bowl.State();
      pos, saved, i := c.message, Some(c), c.fileIndex;
      bowl.Resume(c.bowl);
      FitsAnyLists(env, s, bowl.State(), contents, threshold, c);
      ListsFit(s, bowl.State(), contents);
    }

    lemma ListsFit(s: BowlState, t: BowlState, contents: seq<Bytes>)
      requires Sound(s, contents) && SameButLists(s, t)
      ensures Sound(t, contents)
    {
      forall i | 0 <= i < |contents| && StagedAt(t, i).Some?
        ensures Fits(BaseOf(t, i), StagedAt(t, i).value, |contents[i]|) {
        assert StagedAt(t, i) == StagedAt(s, i);
      }
    }
  }
}
