/** What a patcher sees of a bowl: the plain one that fills a new folder, and the one that patches a folder in place. */
module Bowls {
  import opened Common
  import opened BowlFolder
  import opened EntryWriters
  import OB = OverlayBowl

  class FreshBowl {
    /** The contents of the target pool. */
    const targets: seq<Bytes>
    const sourceFiles: seq<Path>
    var output: map<Path, Staged>

    constructor (targets: seq<Bytes>, sourceFiles: seq<Path>, output: map<Path, Staged>)
      ensures this.targets == targets && this.sourceFiles == sourceFiles && this.output == output
    {
      this.targets, this.sourceFiles, this.output := targets, sourceFiles, output;
    }

    /** Copy time, right now. */
    method Transpose(t: OB.Transposition)
      requires t.sourceIndex < |sourceFiles| && t.targetIndex < |targets|
      modifies this
      ensures output == old(output)[sourceFiles[t.sourceIndex] := Plain(targets[t.targetIndex])]
    {
      output := output[sourceFiles[t.sourceIndex] := Plain(targets[t.targetIndex])];
    }
  }

  /** Everything about a bowl that patching can change or depends on. */
  datatype BowlState =
    | FreshState(sourceFiles: seq<Path>, disk: map<Path, Staged>)
    | InPlaceState(plan: OB.Plan, files: FileSystem, disk: map<Path, Staged>)

  function Sources(s: BowlState): seq<Path> {
    if s.FreshState? then s.sourceFiles else s.plan.sourceFiles
  }

  function StagedAt(s: BowlState, i: nat): Option<Staged>
    requires i < |Sources(s)|
  {
    if Sources(s)[i] in s.disk then Some(s.disk[Sources(s)[i]]) else None
  }

  function BaseOf(s: BowlState, i: nat): Option<Bytes>
    requires i < |Sources(s)|
  {
    if s.InPlaceState? && Sources(s)[i] in s.plan.targetFiles && Sources(s)[i] in s.files
      then Some(s.files[Sources(s)[i]]) else None
  }

  function Stored(s: BowlState, i: nat, x: Staged): BowlState
    requires i < |Sources(s)|
  {
    s.(disk := s.disk[Sources(s)[i] := x])
  }

  /** s with the lists of a bowl checkpoint; a fresh bowl has none. */
  function Restored(s: BowlState, c: Option<OB.Checkpoint>): BowlState {
    if s.FreshState? || c.None? then s
    else s.(plan := s.plan.(transpositions := c.value.transpositions, overlayFiles := c.value.overlayFiles,
      moveFiles := c.value.moveFiles))
  }

  // ----- how far a bowl is

  ghost predicate Sane(s: BowlState, targets: seq<Bytes>, contents: seq<Bytes>) {
    && |Sources(s)| == |contents| && Distinct(Sources(s))
    && (s.InPlaceState? ==>
      OB.ValidPlan(s.plan) && OB.Clean(s.plan, s.files) && |s.plan.targetFiles| == |targets|
      && forall k :: 0 <= k < |targets| ==> s.files[s.plan.targetFiles[k]] == targets[k])
  }

  /** Source file i is dealt with. */
  ghost predicate RecordedAt(s: BowlState, contents: seq<Bytes>, i: nat)
    requires i < |contents| == |Sources(s)| && (s.InPlaceState? ==> OB.ValidPlan(s.plan) && OB.Clean(s.plan, s.files))
  {
    match s
    case FreshState(_, _) => StagedAt(s, i) == Some(Plain(contents[i]))
    case InPlaceState(plan, files, disk) => OB.CarriesAt(plan, files, disk, contents, i)
  }

  /** Nothing is recorded about source file i. */
  ghost predicate Untouched(s: BowlState, i: nat) {
    s.InPlaceState? ==> !OB.IsTransposed(s.plan, i) && i !in s.plan.overlayFiles && i !in s.plan.moveFiles
  }

  /** A writer was asked for source file i. */
  ghost predicate MarkedAt(s: BowlState, i: nat)
    requires i < |Sources(s)|
  {
    s.InPlaceState? ==>
      && !OB.IsTransposed(s.plan, i)
      && (i in s.plan.overlayFiles <==> BaseOf(s, i).Some?) && (i in s.plan.moveFiles <==> BaseOf(s, i).None?)
  }

  /** The files before i are dealt with, those from i on are not. */
  ghost predicate UpTo(s: BowlState, targets: seq<Bytes>, contents: seq<Bytes>, i: nat) {
    && Sane(s, targets, contents) && i <= |contents|
    && (forall j :: 0 <= j < i ==> RecordedAt(s, contents, j))
    && (forall j :: i <= j < |contents| ==> Untouched(s, j))
  }

  /** The same, and i is being written. */
  ghost predicate Started(s: BowlState, targets: seq<Bytes>, contents: seq<Bytes>, i: nat) {
    && Sane(s, targets, contents) && i < |contents|
    && (forall j :: 0 <= j < i ==> RecordedAt(s, contents, j))
    && MarkedAt(s, i)
    && (forall j :: i < j < |contents| ==> Untouched(s, j))
  }

  /** No file on disk is longer than it is to become; a writer does not truncate. */
  ghost predicate DiskFits(s: BowlState, contents: seq<Bytes>)
    requires |Sources(s)| == |contents|
  {
    forall i :: 0 <= i < |contents| && StagedAt(s, i).Some? ==> Fits(BaseOf(s, i), StagedAt(s, i).value, |contents[i]|)
  }

  ghost predicate Fits(base: Option<Bytes>, x: Staged, size: nat) {
    if base.Some? then x.Overlay? else x.Plain? && |x.data| <= size
  }

  // ----- steps

  ghost predicate Transposes(before: BowlState, after: BowlState, targets: seq<Bytes>, t: OB.Transposition)
    requires t.sourceIndex < |Sources(before)| && t.targetIndex < |targets|
  {
    match before
    case FreshState(_, _) => after == Stored(before, t.sourceIndex, Plain(targets[t.targetIndex]))
    case InPlaceState(plan, _, _) =>
      && after.InPlaceState? && after == before.(plan := plan.(transpositions := after.plan.transpositions))
        && OB.ValidPlan(after.plan)
      && forall x :: x in after.plan.transpositions <==>
        x == t || (x in plan.transpositions && x.sourceIndex != t.sourceIndex)
  }

  ghost predicate Marks(before: BowlState, after: BowlState, i: nat)
    requires i < |Sources(before)|
  {
    match before
    case FreshState(_, _) => after == before
    case InPlaceState(plan, _, _) =>
      && after.InPlaceState? && OB.ValidPlan(after.plan)
      && after == before.(plan := plan.(overlayFiles := after.plan.overlayFiles, moveFiles := after.plan.moveFiles))
      && (forall x :: x in after.plan.overlayFiles <==> x in plan.overlayFiles || (x == i && BaseOf(before, i).Some?))
      && (forall x :: x in after.plan.moveFiles <==> x in plan.moveFiles || (x == i && BaseOf(before, i).None?))
  }

  lemma TransposeRecords(s: BowlState, after: BowlState, targets: seq<Bytes>, contents: seq<Bytes>, t: OB.Transposition)
    requires UpTo(s, targets, contents, t.sourceIndex) && t.sourceIndex < |contents| && t.targetIndex < |targets|
    requires targets[t.targetIndex] == contents[t.sourceIndex] && Transposes(s, after, targets, t)
    ensures UpTo(after, targets, contents, t.sourceIndex + 1)
  {
    var i := t.sourceIndex;
    forall j | 0 <= j <= i ensures RecordedAt(after, contents, j) {
      if j < i {
        assert RecordedAt(s, contents, j);
      } else {
        assert Untouched(s, i);
      }
    }
    forall j | i < j < |contents| ensures Untouched(after, j) {
      assert Untouched(s, j);
    }
  }

  lemma MarkStarts(s: BowlState, after: BowlState, targets: seq<Bytes>, contents: seq<Bytes>, i: nat)
    requires (UpTo(s, targets, contents, i) && i < |contents|) || Started(s, targets, contents, i)
    requires Marks(s, after, i)
    ensures Started(after, targets, contents, i)
  {
    forall j | 0 <= j < i ensures RecordedAt(after, contents, j) {
      assert RecordedAt(s, contents, j);
    }
    assert MarkedAt(s, i) || Untouched(s, i);
    forall j | i < j < |contents| ensures Untouched(after, j) {
      assert Untouched(s, j);
    }
  }

  /** Storing what a finished writer leaves deals with the file. */
  lemma StoreRecords(s: BowlState, targets: seq<Bytes>, contents: seq<Bytes>, i: nat, x: Staged)
    requires Started(s, targets, contents, i) && Finished(BaseOf(s, i), x, contents[i])
    ensures UpTo(Stored(s, i, x), targets, contents, i + 1)
  {
    forall j | 0 <= j < i ensures RecordedAt(Stored(s, i, x), contents, j) {
      assert RecordedAt(s, contents, j);
    }
    forall j | i < j < |contents| ensures Untouched(Stored(s, i, x), j) {
      assert Untouched(s, j);
    }
  }

  /** Storing anything for i leaves the files before it dealt with. */
  lemma StoreKeepsStarted(s: BowlState, targets: seq<Bytes>, contents: seq<Bytes>, i: nat, k: nat, x: Staged)
    requires Started(s, targets, contents, i) && i <= k < |contents|
    ensures Started(Stored(s, k, x), targets, contents, i)
  {
    forall j | 0 <= j < i ensures RecordedAt(Stored(s, k, x), contents, j) {
      assert RecordedAt(s, contents, j);
    }
    forall j | i < j < |contents| ensures Untouched(Stored(s, k, x), j) {
      assert Untouched(s, j);
    }
  }

  /** When all files are dealt with, a fresh bowl holds the contents and a commit in place will. */
  lemma AllRecorded(s: BowlState, targets: seq<Bytes>, contents: seq<Bytes>)
    requires UpTo(s, targets, contents, |contents|)
    ensures s.FreshState? ==> forall i :: 0 <= i < |contents| ==> StagedAt(s, i) == Some(Plain(contents[i]))
    ensures s.InPlaceState? ==> OB.Carries(s.plan, s.files, s.disk, contents)
  {
    if s.FreshState? {
      forall i | 0 <= i < |contents| ensures StagedAt(s, i) == Some(Plain(contents[i])) {
        assert RecordedAt(s, contents, i);
      }
    } else {
      forall i | 0 <= i < |contents| ensures OB.CarriesAt(s.plan, s.files, s.disk, contents, i) {
        assert RecordedAt(s, contents, i);
      }
    }
  }

  // ----- either bowl

  datatype AnyBowl = Fresh(whole: FreshBowl) | InPlace(overlay: OB.Bowl) {
    ghost function Repr(): set<object> {
      match this
      case Fresh(b) => {b}
      case InPlace(b) => {b}
    }

    ghost function Footprint(): set<object> {
      match this
      case Fresh(b) => {b}
      case InPlace(b) => {b, b.output}
    }

    ghost function State(): BowlState
      reads Footprint()
    {
      match this
      case Fresh(b) => FreshState(b.sourceFiles, b.output)
      case InPlace(b) => InPlaceState(b.ThePlan(), b.output.files, b.stage)
    }

    function OnDisk(i: nat): Option<Staged>
      reads Footprint()
      requires i < |Sources(State())|
    {
      match this
      case Fresh(b) => if b.sourceFiles[i] in b.output then Some(b.output[b.sourceFiles[i]]) else None
      case InPlace(b) => if b.sourceFiles[i] in b.stage then Some(b.stage[b.sourceFiles[i]]) else None
    }

    method Transpose(t: OB.Transposition, ghost targets: seq<Bytes>)
      requires t.sourceIndex < |Sources(State())| && t.targetIndex < |targets|
      requires if Fresh? then whole.targets == targets
        else OB.ValidPlan(State().plan) && t.targetIndex < |overlay.targetFiles|
      modifies Repr()
      ensures Transposes(old(State()), State(), targets, t)
    {
      match this {
        case Fresh(b) => b.Transpose(t);
        case InPlace(b) => b.Transpose(t);
      }
    }

    method GetWriter(i: nat) returns (base: Option<Bytes>)
      requires i < |Sources(State())|
      requires InPlace? ==> OB.ValidPlan(State().plan) && OB.Clean(State().plan, State().files)
      modifies Repr()
      ensures Marks(old(State()), State(), i) && base == BaseOf(old(State()), i)
    {
      match this {
        case Fresh(b) => base := None;
        case InPlace(b) => base := b.GetWriter(i);
      }
    }

    method Save() returns (c: Option<OB.Checkpoint>)
      ensures Restored(State(), c) == State() && (InPlace? ==> c.Some?)
    {
      match this {
        case Fresh(b) => c := None;
        case InPlace(b) =>
          var lists := b.Save();
          c := Some(lists);
      }
    }

    method Resume(c: Option<OB.Checkpoint>)
      modifies Repr()
      ensures State() == Restored(old(State()), c)
    {
      match this {
        case Fresh(b) =>
        case InPlace(b) =>
          if c.Some? {
            b.Resume(c.value);
          }
      }
    }

    /** The file of source i on disk becomes x. */
    method Store(i: nat, x: Staged)
      requires i < |Sources(State())|
      modifies Repr()
      ensures State() == Stored(old(State()), i, x)
    {
      match this {
        case Fresh(b) => b.output := b.output[b.sourceFiles[i] := x];
        case InPlace(b) => b.stage := b.stage[b.sourceFiles[i] := x];
      }
    }
  }
}
