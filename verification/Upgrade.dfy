/**
 * Everything together: sign the old files, diff the new ones against the signature, perhaps rewrite the patch, and
 * apply it in place or to a new folder.
 */
module Upgrade {
  import opened Common
  import opened WsyncOps
  import opened WsyncDiff
  import opened SuffixSearch
  import opened BowlFolder
  import opened Bowls
  import opened EntryWriters
  import opened Patcher
  import opened PatchStream
  import opened PatchRuns
  import BsdiffDiff
  import Rediff
  import S = Signature

  /** Whoever diffs has the new files, and of the old ones their stored signature. */
  method Diff(strong: StrongHash, size: nat, maxData: nat, targets: seq<Bytes>, targetPaths: seq<Path>,
      sources: seq<Bytes>, sourcePaths: seq<Path>)
    returns (msgs: seq<Message>)
    requires size >= 2 && maxData > 0 && |targetPaths| == |targets| && |sourcePaths| == |sources|
    requires forall i :: 0 <= i < |sources| ==> Separates(strong, size, targets, sources[i])
    ensures RsyncPatchFrom(Env(msgs, targets, size), sources, 0, 0)
  {
    var hashes := S.ComputeSignature(strong, size, targets);
    var read := S.ReadSignature(Sizes(targets), size, S.Raws(hashes));
    S.SignatureRoundTrip(strong, size, targets, read);
    var reusedBytes, freshBytes;
    ghost var library, series;
    msgs, reusedBytes, freshBytes, library, series := WritePatch(strong, size, maxData, targets, read, targetPaths,
      sources, sourcePaths);
  }

  /**
   * Diff, rediff and patch in place. Once a run completes, as one that is left alone does, the folder holds exactly
   * the new files and what no container knows of; until then nothing has changed.
   */
  method UpgradeFolder(strong: StrongHash, size: nat, maxData: nat, targets: seq<Bytes>, targetPaths: seq<Path>,
      sources: seq<Bytes>, sourcePaths: seq<Path>, sourceOthers: set<Path>, asked: nat, sorter: Bytes -> seq<int>,
      rediffSizeLimit: nat, forceMapAll: bool, dir: Folder, stage: map<Path, Staged>, bufSize: nat, threshold: nat,
      runs: seq<Schedule>)
    returns (done: Result<bool>)
    requires size >= 2 && maxData > 0 && bufSize > 0 && SortsSuffixes(sorter) && |sources| == |sourcePaths|
    requires forall i :: 0 <= i < |sources| ==> Separates(strong, size, targets, sources[i])
    requires Installed(Env([], targets, size), targetPaths, sourcePaths, sourceOthers, dir.files)
    requires DiskFits(InPlaceState(EmptyPlan(targetPaths, sourcePaths), dir.files, stage), sources)
    modifies dir
    ensures done.Err? ==>
      exists i, t :: 0 <= i < |sources| && 0 <= t < |targets| && TooShort(sources[i], targets[t], asked)
    ensures done.Ok? && (exists n :: 0 <= n < |runs| && Calm(runs[n])) ==> done.value
    ensures done.Err? || !done.value ==> dir.files == old(dir.files)
    ensures done.Ok? && done.value ==> forall i :: 0 <= i < |sources| ==>
      Lookup(dir.files, sourcePaths[i]) == Some(sources[i])
    ensures done.Ok? && done.value ==> forall q :: q !in sourcePaths ==>
      Lookup(dir.files, q) == if q in targetPaths then None else Lookup(old(dir.files), q)
  {
    var msgs := Diff(strong, size, maxData, targets, targetPaths, sources, sourcePaths);
    var env := Env(msgs, targets, size);
    var cx := new Rediff.Context(size, targetPaths, Sizes(targets), sourcePaths, Sizes(sources), rediffSizeLimit,
      forceMapAll);
    ghost var starts := cx.AnalyzePatch(env, sources);
    var optimized, series, olds := cx.Optimize(env, sources, asked, sorter);
    if optimized.Err? {
      ghost var i :| i in cx.diffMappings && !cx.Diffable(env, sources, asked, i, cx.diffMappings[i]);
      assert TooShort(sources[i], targets[cx.diffMappings[i].targetIndex], asked);
      return Err(optimized.reason);
    }
    var complete := PatchInPlace(env.(msgs := optimized.value), Sizes(sources), targetPaths, sourcePaths, sourceOthers,
      dir, stage, bufSize, threshold, runs, sources);
    done := Ok(complete);
  }

  /**
   * A new file that bsdiff cannot be asked to make from this old one: not empty, but shorter
   * than the number of partitions.
   */
  predicate TooShort(source: Bytes, target: Bytes, asked: nat) {
    0 < |source| < BsdiffDiff.Partitions(asked, |target|)
  }

  /** Without the rediff, nothing is refused. */
  method UpgradeDirectly(strong: StrongHash, size: nat, maxData: nat, targets: seq<Bytes>, targetPaths: seq<Path>,
      sources: seq<Bytes>, sourcePaths: seq<Path>, sourceOthers: set<Path>, dir: Folder, stage: map<Path, Staged>,
      bufSize: nat, threshold: nat, runs: seq<Schedule>)
    returns (done: bool)
    requires size >= 2 && maxData > 0 && bufSize > 0 && |sources| == |sourcePaths|
    requires forall i :: 0 <= i < |sources| ==> Separates(strong, size, targets, sources[i])
    requires Installed(Env([], targets, size), targetPaths, sourcePaths, sourceOthers, dir.files)
    requires DiskFits(InPlaceState(EmptyPlan(targetPaths, sourcePaths), dir.files, stage), sources)
    modifies dir
    ensures (exists n :: 0 <= n < |runs| && Calm(runs[n])) ==> done
    ensures !done ==> dir.files == old(dir.files)
    ensures done ==> forall i :: 0 <= i < |sources| ==> Lookup(dir.files, sourcePaths[i]) == Some(sources[i])
    ensures done ==> forall q :: q !in sourcePaths ==>
      Lookup(dir.files, q) == if q in targetPaths then None else Lookup(old(dir.files), q)
  {
    var msgs := Diff(strong, size, maxData, targets, targetPaths, sources, sourcePaths);
    RsyncPatchIsPatch(Env(msgs, targets, size), sources, 0, 0);
    done := PatchInPlace(Env(msgs, targets, size), Sizes(sources), targetPaths, sourcePaths, sourceOthers, dir, stage,
      bufSize, threshold, runs, sources);
  }

  /** The new files can also be made in a folder of their own, with the old ones left as they are. */
  method BuildFolder(strong: StrongHash, size: nat, maxData: nat, targets: seq<Bytes>, targetPaths: seq<Path>,
      sources: seq<Bytes>, sourcePaths: seq<Path>, disk: map<Path, Staged>, bufSize: nat, threshold: nat,
      runs: seq<Schedule>)
    returns (done: bool, output: map<Path, Staged>)
    requires size >= 2 && maxData > 0 && bufSize > 0 && |targets| == |targetPaths| && |sources| == |sourcePaths|
    requires forall i :: 0 <= i < |sources| ==> Separates(strong, size, targets, sources[i])
    requires Distinct(sourcePaths) && DiskFits(FreshState(sourcePaths, disk), sources)
    ensures (exists n :: 0 <= n < |runs| && Calm(runs[n])) ==> done
    ensures done ==> forall i :: 0 <= i < |sources| ==>
      sourcePaths[i] in output && output[sourcePaths[i]] == Plain(sources[i])
  {
    var msgs := Diff(strong, size, maxData, targets, targetPaths, sources, sourcePaths);
    RsyncPatchIsPatch(Env(msgs, targets, size), sources, 0, 0);
    done, output := PatchFresh(Env(msgs, targets, size), Sizes(sources), sourcePaths, disk, bufSize, threshold, runs,
      sources);
  }
}
