/**
 * Whole patching sessions: any number of runs, each stopped, killed or completed, each
 * resumed from the last checkpoint.
 */
module PatchRuns {
  import opened Common
  import opened BowlFolder
  import opened EntryWriters
  import opened Bowls
  import opened Patcher
  import OB = OverlayBowl

  /** The patch makes these contents, which have the sizes the source container says. */
  ghost predicate Makes(env: Env, sizes: seq<nat>, contents: seq<Bytes>) {
    && env.size > 0 && |sizes| == |contents| && PatchFrom(env, contents, 0, 0)
    && forall i :: 0 <= i < |sizes| ==> sizes[i] == |contents[i]|
  }

  function EmptyPlan(targetFiles: seq<Path>, sourceFiles: seq<Path>): OB.Plan {
    OB.Plan(targetFiles, sourceFiles, [], [], [])
  }

  /** The folder holds the target files, and its paths are as a commit needs them. */
  ghost predicate Installed(env: Env, targetFiles: seq<Path>, sourceFiles: seq<Path>, sourceOthers: set<Path>,
      files: FileSystem) {
    && OB.Clean(EmptyPlan(targetFiles, sourceFiles), files)
    && |targetFiles| == |env.targets|
    && (forall k :: 0 <= k < |targetFiles| ==> files[targetFiles[k]] == env.targets[k])
    && forall p :: p in targetFiles ==> p !in sourceOthers
  }

  /** One run in place, from the last checkpoint if any: it commits, or leaves what another run can go on from. */
  method RunInPlace(env: Env, sizes: seq<nat>, targetFiles: seq<Path>, sourceFiles: seq<Path>, sourceOthers: set<Path>,
      dir: Folder, disk0: map<Path, Staged>, bufSize: nat, threshold: nat, run: Schedule, saved0: Option<Checkpoint>,
      ghost contents: seq<Bytes>)
    returns (done: bool, disk: map<Path, Staged>, saved: Option<Checkpoint>, ghost at: nat, ghost outcome: Outcome)
    requires Makes(env, sizes, contents) && |sourceFiles| == |contents| && bufSize > 0
    requires Installed(env, targetFiles, sourceFiles, sourceOthers, dir.files)
    requires DiskFits(InPlaceState(EmptyPlan(targetFiles, sourceFiles), dir.files, disk0), contents)
    requires saved0.Some? ==> CheckpointOk(env, InPlaceState(EmptyPlan(targetFiles, sourceFiles), dir.files, disk0),
      contents, threshold, saved0.value)
    modifies dir
    ensures Calm(run) ==> done
    ensures (done <==> outcome.Completed?) && CameTo(env, contents, run, saved0, saved, StartOf(saved0), at, outcome)
    ensures !done ==> dir.files == old(dir.files)
    ensures !done ==> DiskFits(InPlaceState(EmptyPlan(targetFiles, sourceFiles), dir.files, disk), contents)
    ensures !done && saved.Some? ==> CheckpointOk(env,
      InPlaceState(EmptyPlan(targetFiles, sourceFiles), dir.files, disk), contents, threshold, saved.value)
    ensures done ==> forall i :: 0 <= i < |contents| ==> Lookup(dir.files, sourceFiles[i]) == Some(contents[i])
    ensures done ==> forall q :: q !in sourceFiles ==>
      Lookup(dir.files, q) == if q in targetFiles then None else Lookup(old(dir.files), q)
  {
    ghost var plan := EmptyPlan(targetFiles, sourceFiles);
    var bowl := new OB.Bowl(targetFiles, sourceFiles, sourceOthers, dir, disk0);
    var patcher := new SavingPatcher(env, sizes, InPlace(bowl), bufSize, threshold, run);
    assert bowl.ThePlan() == plan;
    var ended := patcher.Resume(saved0, contents);
    disk, saved, at, outcome := bowl.stage, patcher.saved, patcher.pos, ended;
    done := ended.Completed?;
    if done {
      AllRecorded(patcher.bowl.State(), env.targets, contents);
      bowl.Commit(contents);
      return;
    }
    patcher.ListsFit(patcher.bowl.State(), InPlaceState(plan, dir.files, disk), contents);
    if saved.Some? {
      FitsAnyLists(env, patcher.bowl.State(), InPlaceState(plan, dir.files, disk), contents, threshold, saved.value);
    }
  }

  /**
   * Patching in place, from whatever earlier attempts left in the staging folder. However often and wherever
   * the runs are interrupted, once one completes and commits, every source file has the content the patch
   * means, files only the target had are gone, and nothing else changed; until then the folder is as it was.
   * One run that is left alone is enough.
   */
  method PatchInPlace(env: Env, sizes: seq<nat>, targetFiles: seq<Path>, sourceFiles: seq<Path>,
      sourceOthers: set<Path>, dir: Folder, stage: map<Path, Staged>, bufSize: nat, threshold: nat,
      runs: seq<Schedule>, ghost contents: seq<Bytes>)
    returns (done: bool)
    requires Makes(env, sizes, contents) && |sourceFiles| == |contents| && bufSize > 0
    requires Installed(env, targetFiles, sourceFiles, sourceOthers, dir.files)
    requires DiskFits(InPlaceState(EmptyPlan(targetFiles, sourceFiles), dir.files, stage), contents)
    modifies dir
    ensures (exists n :: 0 <= n < |runs| && Calm(runs[n])) ==> done
    ensures !done ==> dir.files == old(dir.files)
    ensures done ==> forall i :: 0 <= i < |contents| ==> Lookup(dir.files, sourceFiles[i]) == Some(contents[i])
    ensures done ==> forall q :: q !in sourceFiles ==>
      Lookup(dir.files, q) == if q in targetFiles then None else Lookup(old(dir.files), q)
  {
    var disk := stage;
    var saved: Option<Checkpoint> := None;
    for n := 0 to |runs|
      invariant dir.files == old(dir.files) && forall m :: 0 <= m < n ==> !Calm(runs[m])
      invariant DiskFits(InPlaceState(EmptyPlan(targetFiles, sourceFiles), dir.files, disk), contents)
      invariant saved.Some? ==> CheckpointOk(env, InPlaceState(EmptyPlan(targetFiles, sourceFiles), dir.files, disk),
        contents, threshold, saved.value)
    {
      ghost var at, outcome;
      done, disk, saved, at, outcome := RunInPlace(env, sizes, targetFiles, sourceFiles, sourceOthers, dir, disk,
        bufSize, threshold, runs[n], saved, contents);
      if done {
        return;
      }
    }
    done := false;
  }

  /** Patching into a separate folder, whatever it holds: the same contents, under the same interruptions. */
  method PatchFresh(env: Env, sizes: seq<nat>, sourceFiles: seq<Path>, disk: map<Path, Staged>, bufSize: nat,
      threshold: nat, runs: seq<Schedule>, ghost contents: seq<Bytes>)
    returns (done: bool, output: map<Path, Staged>)
    requires Makes(env, sizes, contents) && |sourceFiles| == |contents| && bufSize > 0 && Distinct(sourceFiles)
    requires DiskFits(FreshState(sourceFiles, disk), contents)
    ensures (exists n :: 0 <= n < |runs| && Calm(runs[n])) ==> done
    ensures done ==> forall i :: 0 <= i < |contents| ==>
      sourceFiles[i] in output && output[sourceFiles[i]] == Plain(contents[i])
  {
    output := disk;
    var saved: Option<Checkpoint> := None;
    for n := 0 to |runs|
      invariant forall m :: 0 <= m < n ==> !Calm(runs[m])
      invariant DiskFits(FreshState(sourceFiles, output), contents)
      invariant saved.Some? ==> CheckpointOk(env, FreshState(sourceFiles, output), contents, threshold, saved.value)
    {
      var bowl := new FreshBowl(env.targets, sourceFiles, output);
      var patcher := new SavingPatcher(env, sizes, Fresh(bowl), bufSize, threshold, runs[n]);
      var outcome := patcher.Resume(saved, contents);
      output, saved := bowl.output, patcher.saved;
      if outcome.Completed? {
        AllRecorded(patcher.bowl.State(), env.targets, contents);
        forall i | 0 <= i < |contents|
          ensures sourceFiles[i] in output && output[sourceFiles[i]] == Plain(contents[i])
        {
          assert StagedAt(patcher.bowl.State(), i) == Some(Plain(contents[i]));
        }
        return true, output;
      }
    }
    done := false;
  }
}
