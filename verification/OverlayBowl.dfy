/** A bowl that patches a folder in place: changes are recorded while patching and take effect at Commit. */
module OverlayBowl {
  import opened Common
  import opened BowlFolder
  import opened BowlTransposition
  import opened EntryWriters
  import opened OverlayCodec

  /** The source (new) file is to be the target (old) file as it is. */
  datatype Transposition = Transposition(targetIndex: nat, sourceIndex: nat)

  datatype Checkpoint = Checkpoint(transpositions: seq<Transposition>, overlayFiles: seq<nat>, moveFiles: seq<nat>)

  predicate DistinctSources(ts: seq<Transposition>) {
    forall i, j :: 0 <= i < j < |ts| ==> ts[i].sourceIndex != ts[j].sourceIndex
  }

  /** now is before with the staged files of these paths moved in. */
  ghost predicate MovedIn(before: FileSystem, now: FileSystem, paths: set<Path>, stage: map<Path, Staged>) {
    forall q :: Lookup(now, q) == if q in paths && q in stage && stage[q].Plain? then Some(stage[q].data)
      else Lookup(before, q)
  }

  /** now is before with the staged overlays of these paths applied. */
  ghost predicate OverlaysApplied(before: FileSystem, now: FileSystem, paths: set<Path>, stage: map<Path, Staged>) {
    forall q :: Lookup(now, q) ==
      (if q in paths && q in before && q in stage && stage[q].Overlay? then ApplyOverlay(before[q], stage[q].msgs)
        else Lookup(before, q))
  }

  // ----- what a bowl has recorded

  datatype Plan = Plan(targetFiles: seq<Path>, sourceFiles: seq<Path>, transpositions: seq<Transposition>,
      overlayFiles: seq<nat>, moveFiles: seq<nat>)

  ghost predicate ValidPlan(plan: Plan) {
    && Distinct(plan.overlayFiles) && Distinct(plan.moveFiles) && DistinctSources(plan.transpositions)
    && Within(plan.overlayFiles, |plan.sourceFiles|) && Within(plan.moveFiles, |plan.sourceFiles|)
    && (forall k :: 0 <= k < |plan.transpositions| ==> InRange(plan, plan.transpositions[k]))
  }

  predicate Within(indices: seq<nat>, n: nat) {
    forall k :: 0 <= k < |indices| ==> indices[k] < n
  }

  predicate InRange(plan: Plan, t: Transposition) {
    t.sourceIndex < |plan.sourceFiles| && t.targetIndex < |plan.targetFiles|
  }

  function Pairs(plan: Plan): (ps: seq<PathTranspo>)
    requires ValidPlan(plan)
  {
    seq(|plan.transpositions|, k requires 0 <= k < |plan.transpositions| =>
      PathTranspo(plan.targetFiles[plan.transpositions[k].targetIndex],
        plan.sourceFiles[plan.transpositions[k].sourceIndex]))
  }

  function PathsOf(sourceFiles: seq<Path>, indices: seq<nat>): set<Path>
    requires Within(indices, |sourceFiles|)
  {
    set k | 0 <= k < |indices| :: sourceFiles[indices[k]]
  }

  /** What the containers and the folder must be like. */
  ghost predicate Clean(plan: Plan, files: FileSystem) {
    && Distinct(plan.sourceFiles) && Distinct(plan.targetFiles)
    && (forall p :: p in plan.targetFiles ==> p in files)
    && (forall p, n: nat :: p in plan.sourceFiles && n >= 1 ==> Unused(plan, files, SafePath(p, n)))
  }

  ghost predicate Unused(plan: Plan, files: FileSystem, p: Path) {
    p !in files && p !in plan.sourceFiles && p !in plan.targetFiles
  }

  predicate IsTransposed(plan: Plan, i: nat) {
    exists t :: t in plan.transpositions && t.sourceIndex == i
  }

  /**
   * Every source file is transposed, overlaid or moved, and only one of them, and what was
   * recorded for it makes its content.
   */
  ghost predicate Carries(plan: Plan, files: FileSystem, stage: map<Path, Staged>, contents: seq<Bytes>)
    requires ValidPlan(plan) && Clean(plan, files)
  {
    |contents| == |plan.sourceFiles| && forall i :: 0 <= i < |contents| ==> CarriesAt(plan, files, stage, contents, i)
  }

  ghost predicate CarriesAt(plan: Plan, files: FileSystem, stage: map<Path, Staged>, contents: seq<Bytes>, i: nat)
    requires ValidPlan(plan) && Clean(plan, files) && i < |contents| == |plan.sourceFiles|
  {
    && (IsTransposed(plan, i) || i in plan.overlayFiles || i in plan.moveFiles)
    && (forall t :: t in plan.transpositions && t.sourceIndex == i ==> TransposedRight(plan, files, contents, t))
    && (i in plan.overlayFiles ==> i !in plan.moveFiles && OverlaidRight(plan, files, stage, contents, i))
    && (i in plan.moveFiles ==> MovedRight(plan, stage, contents, i))
  }

  ghost predicate TransposedRight(plan: Plan, files: FileSystem, contents: seq<Bytes>, t: Transposition)
    requires Clean(plan, files) && t.sourceIndex < |plan.sourceFiles| == |contents|
      && t.targetIndex < |plan.targetFiles|
  {
    && t.sourceIndex !in plan.overlayFiles && t.sourceIndex !in plan.moveFiles
    && files[plan.targetFiles[t.targetIndex]] == contents[t.sourceIndex]
  }

  ghost predicate OverlaidRight(plan: Plan, files: FileSystem, stage: map<Path, Staged>, contents: seq<Bytes>, i: nat)
    requires Clean(plan, files) && i < |plan.sourceFiles| == |contents|
  {
    var p := plan.sourceFiles[i];
    p in plan.targetFiles && p in stage && stage[p].Overlay?
      && ApplyOverlay(files[p], stage[p].msgs) == Some(contents[i])
  }

  ghost predicate MovedRight(plan: Plan, stage: map<Path, Staged>, contents: seq<Bytes>, i: nat)
    requires i < |plan.sourceFiles| == |contents|
  {
    var p := plan.sourceFiles[i];
    p !in plan.targetFiles && p in stage && stage[p] == Plain(contents[i])
  }

  // ----- what the phases of a commit add up to

  lemma PairAt(plan: Plan, q: Path) returns (t: Transposition)
    requires ValidPlan(plan) && DistinctOutputs(Pairs(plan)) && q in Assigned(Pairs(plan))
    ensures t in plan.transpositions && q == plan.sourceFiles[t.sourceIndex]
      && Assigned(Pairs(plan))[q] == plan.targetFiles[t.targetIndex]
  {
    var k :| 0 <= k < |Pairs(plan)| && Pairs(plan)[k].outputPath == q;
    t := plan.transpositions[k];
  }

  lemma TranspositionsReady(plan: Plan, files: FileSystem)
    requires ValidPlan(plan) && Clean(plan, files)
    ensures DistinctOutputs(Pairs(plan))
    ensures forall i :: 0 <= i < |Pairs(plan)| ==> Pairs(plan)[i].targetPath in files
    ensures forall i, n: nat :: 0 <= i < |Pairs(plan)| && n >= 1 ==> SafePath(Pairs(plan)[i].outputPath, n) !in files
    ensures TempNamesUnused(Assigned(Pairs(plan)), Targets(Pairs(plan)))
  {
    var ps := Pairs(plan);
    forall k | 0 <= k < |ps| ensures ps[k].outputPath in plan.sourceFiles && ps[k].targetPath in plan.targetFiles {
      assert plan.transpositions[k] in plan.transpositions;
    }
    forall i, n: nat | 0 <= i < |ps| && n >= 1 ensures SafePath(ps[i].outputPath, n) !in files {
      assert Unused(plan, files, SafePath(ps[i].outputPath, n));
    }
    forall q, n: nat | q in Assigned(ps) && n >= 1 ensures SafePath(q, n) !in Assigned(ps)
      && SafePath(q, n) !in Targets(ps) {
      assert Unused(plan, files, SafePath(q, n));
    }
  }

  /** now is what the transpositions make of files. */
  ghost predicate Transposed(plan: Plan, files: FileSystem, now: FileSystem)
    requires ValidPlan(plan) && DistinctOutputs(Pairs(plan))
  {
    Applied(files, now, Assigned(Pairs(plan)), Targets(Pairs(plan)), PathsOf(plan.sourceFiles, plan.overlayFiles))
  }

  lemma TransposedAt(plan: Plan, files: FileSystem, now: FileSystem, q: Path)
    requires ValidPlan(plan) && DistinctOutputs(Pairs(plan)) && Transposed(plan, files, now)
    ensures Lookup(now, q) ==
      AfterAll(files, Assigned(Pairs(plan)), Targets(Pairs(plan)), PathsOf(plan.sourceFiles, plan.overlayFiles), q)
  {
  }

  /** A transposed file has its content. */
  lemma TransposedMeets(plan: Plan, files: FileSystem, stage: map<Path, Staged>, contents: seq<Bytes>, now: FileSystem,
      k: int)
    requires ValidPlan(plan) && Clean(plan, files) && Carries(plan, files, stage, contents)
      && DistinctOutputs(Pairs(plan))
    requires Transposed(plan, files, now) && 0 <= k < |plan.transpositions|
    ensures var i := plan.transpositions[k].sourceIndex; Lookup(now, plan.sourceFiles[i]) == Some(contents[i])
  {
    var ps, t := Pairs(plan), plan.transpositions[k];
    assert ps[k].outputPath in Assigned(ps) && Assigned(ps)[ps[k].outputPath] == ps[k].targetPath
      && ps[k].targetPath in Targets(ps);
    assert t in plan.transpositions && CarriesAt(plan, files, stage, contents, t.sourceIndex);
    TransposedAt(plan, files, now, ps[k].outputPath);
  }

  /** What an overlay applies to is still there. */
  lemma OverlaidIsKept(plan: Plan, files: FileSystem, stage: map<Path, Staged>, contents: seq<Bytes>, now: FileSystem,
      i: nat)
    requires ValidPlan(plan) && Clean(plan, files) && Carries(plan, files, stage, contents)
      && DistinctOutputs(Pairs(plan))
    requires Transposed(plan, files, now) && i in plan.overlayFiles
    ensures i < |plan.sourceFiles| && Lookup(now, plan.sourceFiles[i]) == Lookup(files, plan.sourceFiles[i])
  {
    forall t | t in plan.transpositions ensures t.sourceIndex != i {
      assert CarriesAt(plan, files, stage, contents, t.sourceIndex);
    }
    NotAssigned(plan, i);
    assert plan.sourceFiles[i] in PathsOf(plan.sourceFiles, plan.overlayFiles);
    TransposedAt(plan, files, now, plan.sourceFiles[i]);
  }

  lemma NotAssigned(plan: Plan, i: nat)
    requires ValidPlan(plan) && Distinct(plan.sourceFiles) && DistinctOutputs(Pairs(plan)) && i < |plan.sourceFiles|
    requires forall t :: t in plan.transpositions ==> t.sourceIndex != i
    ensures plan.sourceFiles[i] !in Assigned(Pairs(plan))
  {
    forall k | 0 <= k < |Pairs(plan)| ensures Pairs(plan)[k].outputPath != plan.sourceFiles[i] {
      assert plan.transpositions[k] in plan.transpositions;
    }
  }

  lemma OthersAreKept(plan: Plan, files: FileSystem, now: FileSystem, q: Path)
    requires ValidPlan(plan) && DistinctOutputs(Pairs(plan)) && Transposed(plan, files, now)
    requires q !in plan.sourceFiles && q !in plan.targetFiles
    ensures Lookup(now, q) == Lookup(files, q)
  {
    if q in Assigned(Pairs(plan)) {
      var t := PairAt(plan, q);
      assert false;
    }
    forall k | 0 <= k < |Pairs(plan)| ensures Pairs(plan)[k].targetPath in plan.targetFiles {
    }
    TransposedAt(plan, files, now, q);
  }

  /** What the moves and the overlays rely on is there when their turn comes. */
  lemma StageReady(plan: Plan, files: FileSystem, stage: map<Path, Staged>, contents: seq<Bytes>,
      transposed: FileSystem, moved: FileSystem)
    requires ValidPlan(plan) && Clean(plan, files) && Carries(plan, files, stage, contents)
      && DistinctOutputs(Pairs(plan))
    requires Transposed(plan, files, transposed) && MovedIn(transposed, moved,
      PathsOf(plan.sourceFiles, plan.moveFiles), stage)
    ensures OverlaysReady(plan, moved, stage - PathsOf(plan.sourceFiles, plan.moveFiles))
  {
    forall i | i in plan.overlayFiles
      ensures OverlayReady(plan, moved, stage - PathsOf(plan.sourceFiles, plan.moveFiles), i)
    {
      OverlaidIsKept(plan, files, stage, contents, transposed, i);
      assert CarriesAt(plan, files, stage, contents, i);
      OnlyOnce(plan, i);
      assert Lookup(moved, plan.sourceFiles[i]) == Lookup(transposed, plan.sourceFiles[i]);
    }
  }

  ghost predicate MovesReady(plan: Plan, stage: map<Path, Staged>) {
    forall i :: i in plan.moveFiles && i < |plan.sourceFiles| ==>
      plan.sourceFiles[i] in stage && stage[plan.sourceFiles[i]].Plain?
  }

  ghost predicate OverlaysReady(plan: Plan, files: FileSystem, stage: map<Path, Staged>) {
    forall i :: i in plan.overlayFiles ==> OverlayReady(plan, files, stage, i)
  }

  ghost predicate OverlayReady(plan: Plan, files: FileSystem, stage: map<Path, Staged>, i: nat) {
    && i < |plan.sourceFiles|
    && var p := plan.sourceFiles[i];
       p in stage && stage[p].Overlay? && p in files && ApplyOverlay(files[p], stage[p].msgs).Some?
  }

  /** All phases together. */
  lemma PhasesMeet(plan: Plan, files: FileSystem, stage: map<Path, Staged>, contents: seq<Bytes>,
      transposed: FileSystem, moved: FileSystem, overlaid: FileSystem)
    requires ValidPlan(plan) && Clean(plan, files) && Carries(plan, files, stage, contents)
      && DistinctOutputs(Pairs(plan))
    requires Transposed(plan, files, transposed)
    requires MovedIn(transposed, moved, PathsOf(plan.sourceFiles, plan.moveFiles), stage)
    requires OverlaysApplied(moved, overlaid, PathsOf(plan.sourceFiles, plan.overlayFiles),
      stage - PathsOf(plan.sourceFiles, plan.moveFiles))
    ensures forall i :: 0 <= i < |contents| ==> Lookup(overlaid, plan.sourceFiles[i]) == Some(contents[i])
    ensures forall q :: q !in plan.sourceFiles && q !in plan.targetFiles ==> Lookup(overlaid, q) == Lookup(files, q)
  {
    forall i | 0 <= i < |contents| ensures Lookup(overlaid, plan.sourceFiles[i]) == Some(contents[i]) {
      assert CarriesAt(plan, files, stage, contents, i);
      if IsTransposed(plan, i) {
        var t :| t in plan.transpositions && t.sourceIndex == i;
        var k :| 0 <= k < |plan.transpositions| && plan.transpositions[k] == t;
        TransposedMeets(plan, files, stage, contents, transposed, k);
      } else if i in plan.overlayFiles {
        OverlaidIsKept(plan, files, stage, contents, transposed, i);
      }
      OnlyOnce(plan, i);
      assert Lookup(moved, plan.sourceFiles[i]) == (if i in plan.moveFiles then Some(contents[i])
        else Lookup(transposed, plan.sourceFiles[i]));
    }
    forall q | q !in plan.sourceFiles && q !in plan.targetFiles ensures Lookup(overlaid, q) == Lookup(files, q) {
      OthersAreKept(plan, files, transposed, q);
    }
  }

  lemma PathsSnoc(sourceFiles: seq<Path>, indices: seq<nat>, k: nat)
    requires Distinct(sourceFiles) && Distinct(indices) && Within(indices, |sourceFiles|) && k < |indices|
    ensures sourceFiles[indices[k]] !in PathsOf(sourceFiles, indices[..k])
    ensures PathsOf(sourceFiles, indices[..k + 1]) == PathsOf(sourceFiles, indices[..k]) + {sourceFiles[indices[k]]}
  {
    assert indices[..k + 1] == indices[..k] + [indices[k]];
    assert indices[..k + 1][k] == indices[k];
    forall j | 0 <= j < k ensures indices[..k + 1][j] == indices[..k][j] {
    }
  }

  lemma MovedInStep(before: FileSystem, prev: FileSystem, now: FileSystem, paths: set<Path>, stage: map<Path, Staged>,
      p: Path)
    requires MovedIn(before, prev, paths, stage) && p in stage && stage[p].Plain? && now == prev[p := stage[p].data]
    ensures MovedIn(before, now, paths + {p}, stage)
  {
    assert forall q :: Lookup(now, q) == if q == p then Some(stage[p].data) else Lookup(prev, q);
  }

  lemma RemoveOneMore(stage: map<Path, Staged>, paths: set<Path>, p: Path)
    ensures (stage - paths) - {p} == stage - (paths + {p})
  {
  }

  lemma OnlyOnce(plan: Plan, i: nat)
    requires ValidPlan(plan) && Distinct(plan.sourceFiles) && i < |plan.sourceFiles|
    ensures plan.sourceFiles[i] in PathsOf(plan.sourceFiles, plan.overlayFiles) <==> i in plan.overlayFiles
    ensures plan.sourceFiles[i] in PathsOf(plan.sourceFiles, plan.moveFiles) <==> i in plan.moveFiles
  {
  }

  class Bowl {
    const targetFiles: seq<Path>
    const sourceFiles: seq<Path>
    /** The paths of the source's directories and symlinks. */
    const sourceOthers: set<Path>
    const output: Folder
    var stage: map<Path, Staged>
    var transpositions: seq<Transposition>
    var overlayFiles: seq<nat>
    var moveFiles: seq<nat>

    constructor (targetFiles: seq<Path>, sourceFiles: seq<Path>, sourceOthers: set<Path>, output: Folder,
        stage: map<Path, Staged>)
      ensures this.targetFiles == targetFiles && this.sourceFiles == sourceFiles && this.sourceOthers == sourceOthers
      ensures this.output == output && this.stage == stage
      ensures Valid() && transpositions == [] && overlayFiles == [] && moveFiles == []
    {
      this.targetFiles, this.sourceFiles, this.sourceOthers, this.output := targetFiles, sourceFiles, sourceOthers,
        output;
      this.stage, transpositions, overlayFiles, moveFiles := stage, [], [], [];
    }

    function ThePlan(): Plan
      reads this`transpositions, this`overlayFiles, this`moveFiles
    {
      Plan(targetFiles, sourceFiles, transpositions, overlayFiles, moveFiles)
    }

    ghost predicate Valid()
      reads this`transpositions, this`overlayFiles, this`moveFiles
    {
      ValidPlan(ThePlan())
    }

    // ----- while patching

    method MarkOverlay(i: nat)
      requires Valid() && i < |sourceFiles|
      modifies this`overlayFiles
      ensures Valid() && forall x :: x in overlayFiles <==> x in old(overlayFiles) || x == i
      ensures i in old(overlayFiles) ==> overlayFiles == old(overlayFiles)
    {
      if i !in overlayFiles {
        overlayFiles := overlayFiles + [i];
      }
    }

    method MarkMove(i: nat)
      requires Valid() && i < |sourceFiles|
      modifies this`moveFiles
      ensures Valid() && forall x :: x in moveFiles <==> x in old(moveFiles) || x == i
      ensures i in old(moveFiles) ==> moveFiles == old(moveFiles)
    {
      if i !in moveFiles {
        moveFiles := moveFiles + [i];
      }
    }

    /** After a resume the source file may have a transposition already; it is replaced. */
    method Transpose(t: Transposition)
      requires Valid() && t.sourceIndex < |sourceFiles| && t.targetIndex < |targetFiles|
      modifies this`transpositions
      ensures Valid()
      ensures forall x :: x in transpositions <==>
        x == t || (x in old(transpositions) && x.sourceIndex != t.sourceIndex)
    {
      ghost var before := transpositions;
      for i := 0 to |transpositions|
        invariant transpositions == before
        invariant forall j :: 0 <= j < i ==> transpositions[j].sourceIndex != t.sourceIndex
      {
        if transpositions[i].sourceIndex == t.sourceIndex {
          transpositions := transpositions[i := t];
          forall x ensures x in transpositions <==> x == t || (x in before && x.sourceIndex != t.sourceIndex) {
            assert transpositions[i] == t;
            if x in before && x.sourceIndex != t.sourceIndex {
              var j :| 0 <= j < |before| && before[j] == x;
              assert transpositions[j] == x;
            }
          }
          return;
        }
      }
      transpositions := transpositions + [t];
    }

    /** What a writer for source file i works from: the old file when there is one, which makes it an overlay. */
    method GetWriter(i: nat) returns (base: Option<Bytes>)
      requires Valid() && i < |sourceFiles| && forall p :: p in targetFiles ==> p in output.files
      modifies this`overlayFiles, this`moveFiles
      ensures Valid() && base == if sourceFiles[i] in targetFiles then Some(output.files[sourceFiles[i]]) else None
      ensures forall x :: x in overlayFiles <==> x in old(overlayFiles) || (x == i && base.Some?)
      ensures forall x :: x in moveFiles <==> x in old(moveFiles) || (x == i && base.None?)
    {
      if sourceFiles[i] in targetFiles {
        MarkOverlay(i);
        return Some(output.files[sourceFiles[i]]);
      }
      MarkMove(i);
      base := None;
    }

    method Save() returns (c: Checkpoint)
      ensures c == Checkpoint(transpositions, overlayFiles, moveFiles)
    {
      c := Checkpoint(transpositions, overlayFiles, moveFiles);
    }

    method Resume(c: Checkpoint)
      modifies this`transpositions, this`overlayFiles, this`moveFiles
      ensures Checkpoint(transpositions, overlayFiles, moveFiles) == c
    {
      transpositions, overlayFiles, moveFiles := c.transpositions, c.overlayFiles, c.moveFiles;
    }

    // ----- the phases of Commit

    method ApplyMoves()
      requires Valid() && Distinct(sourceFiles)
      requires MovesReady(ThePlan(), stage)
      modifies this`stage, output
      ensures MovedIn(old(output.files), output.files, PathsOf(sourceFiles, moveFiles), old(stage))
      ensures stage == old(stage) - PathsOf(sourceFiles, moveFiles)
    {
      ghost var before := output.files;
      for k := 0 to |moveFiles|
        invariant MovedIn(before, output.files, PathsOf(sourceFiles, moveFiles[..k]), old(stage))
        invariant stage == old(stage) - PathsOf(sourceFiles, moveFiles[..k])
      {
        var p := sourceFiles[moveFiles[k]];
        assert moveFiles[k] in moveFiles;
        PathsSnoc(sourceFiles, moveFiles, k);
        ghost var prev := output.files;
        output.Write(p, stage[p].data);
        ghost var paths := PathsOf(sourceFiles, moveFiles[..k]);
        RemoveOneMore(old(stage), paths, p);
        stage := stage - {p};
        MovedInStep(before, prev, output.files, paths, old(stage), p);
      }
      assert moveFiles[..|moveFiles|] == moveFiles;
    }

    method ApplyOverlays()
      requires Valid() && Distinct(sourceFiles)
      requires OverlaysReady(ThePlan(), output.files, stage)
      modifies output
      ensures OverlaysApplied(old(output.files), output.files, PathsOf(sourceFiles, overlayFiles), stage)
    {
      ghost var before := output.files;
      for k := 0 to |overlayFiles|
        invariant OverlaysApplied(before, output.files, PathsOf(sourceFiles, overlayFiles[..k]), stage)
      {
        var p := sourceFiles[overlayFiles[k]];
        assert OverlayReady(ThePlan(), before, stage, overlayFiles[k]);
        PathsSnoc(sourceFiles, overlayFiles, k);
        assert Lookup(output.files, p) == Lookup(before, p);
        var r := Patch(stage[p].msgs, Open(output.files[p], 0));
        output.Write(p, Truncate(r.value));
      }
      assert overlayFiles[..|overlayFiles|] == overlayFiles;
    }

    predicate IsGhost(p: Path) {
      p in targetFiles && p !in sourceFiles && p !in sourceOthers
    }

    /** The target files that the source has no more. */
    method DetectGhosts() returns (ghosts: seq<Path>)
      ensures forall p :: p in ghosts <==> IsGhost(p)
    {
      var sourceFileMap: map<Path, bool> := map[];
      for i := 0 to |sourceFiles|
        invariant forall p :: p in sourceFileMap <==> p in sourceFiles[..i]
      {
        sourceFileMap := sourceFileMap[sourceFiles[i] := true];
      }
      assert sourceFiles[..|sourceFiles|] == sourceFiles;
      ghosts := [];
      for i := 0 to |targetFiles|
        invariant forall p :: p in ghosts <==> p in targetFiles[..i] && p !in sourceFiles && p !in sourceOthers
      {
        if targetFiles[i] !in sourceFileMap && targetFiles[i] !in sourceOthers {
          ghosts := ghosts + [targetFiles[i]];
        }
      }
      assert targetFiles[..|targetFiles|] == targetFiles;
    }

    method DeleteGhosts()
      modifies output
      ensures forall q :: Lookup(output.files, q) == if IsGhost(q) then None else Lookup(old(output.files), q)
    {
      var ghosts := DetectGhosts();
      for k := 0 to |ghosts|
        invariant forall q :: Lookup(output.files, q) == if q in ghosts[..k] then None else Lookup(old(output.files), q)
      {
        assert ghosts[..k + 1] == ghosts[..k] + [ghosts[k]];
        if ghosts[k] in output.files {
          output.Remove(ghosts[k]);
        }
      }
      assert ghosts[..|ghosts|] == ghosts;
    }

    /**
     * Commit is a simultaneous assignment: every source file ends with its content, the files only the target
     * had are gone, and nothing else changes.
     */
    method Commit(ghost contents: seq<Bytes>)
      requires Valid() && Clean(ThePlan(), output.files) && Carries(ThePlan(), output.files, stage, contents)
      requires forall p :: p in targetFiles ==> p !in sourceOthers
      modifies this`stage, output
      ensures forall i :: 0 <= i < |sourceFiles| ==> Lookup(output.files, sourceFiles[i]) == Some(contents[i])
      ensures forall q :: q !in sourceFiles ==> Lookup(output.files, q) == if q in targetFiles then None
        else Lookup(old(output.files), q)
    {
      ghost var files, plan, staged := output.files, ThePlan(), stage;
      TranspositionsReady(plan, files);
      ApplyTranspositions(output, Pairs(ThePlan()), PathsOf(sourceFiles, overlayFiles));
      ghost var transposed := output.files;
      assert MovesReady(plan, staged) by {
        forall i | i in moveFiles ensures i < |sourceFiles| && MovedRight(plan, staged, contents, i) {
          assert CarriesAt(plan, files, staged, contents, i);
        }
      }
      ApplyMoves();
      ghost var moved := output.files;
      StageReady(plan, files, staged, contents, transposed, moved);
      ApplyOverlays();
      PhasesMeet(plan, files, staged, contents, transposed, moved, output.files);
      DeleteGhosts();
    }
  }
}
