/** The in-place renames, swaps and duplications of an overlay commit. */
module BowlTransposition {
  import opened Common
  import opened BowlFolder

  /** One file to appear at outputPath with what is at targetPath. */
  datatype PathTranspo = PathTranspo(targetPath: Path, outputPath: Path)

  datatype Behavior = Move | Copy

  // ----- temporary names

  function Digit(d: nat): char
    requires d < 10
  {
    ['0', '1', '2', '3', '4', '5', '6', '7', '8', '9'][d]
  }

  function Decimal(n: nat): (s: string)
    ensures s != [] && forall i :: 0 <= i < |s| ==> s[i] != '-'
  {
    if n < 10 then [Digit(n)] else Decimal(n / 10) + [Digit(n % 10)]
  }

  lemma {:induction false} DecimalInjective(a: nat, b: nat)
    requires Decimal(a) == Decimal(b)
    ensures a == b
  {
    assert Decimal(a)[|Decimal(a)| - 1] == Digit(a % 10) && Decimal(b)[|Decimal(b)| - 1] == Digit(b % 10);
    if a >= 10 && b >= 10 {
      assert Decimal(a)[..|Decimal(a)| - 1] == Decimal(a / 10) && Decimal(b)[..|Decimal(b)| - 1] == Decimal(b / 10);
      DecimalInjective(a / 10, b / 10);
    }
  }

  const RENAME_INFIX := ".butler-rename-"

  function SafePath(path: Path, seed: nat): Path {
    path + RENAME_INFIX + Decimal(seed)
  }

  /** A temporary name ends in its seed, behind its last dash. */
  lemma SafePathTail(p: Path, a: nat)
    ensures var s, n := SafePath(p, a), |Decimal(a)|;
      && n < |s| && s[|s| - n - 1] == '-' && s[|s| - n..] == Decimal(a)
      && forall i :: |s| - n <= i < |s| ==> s[i] != '-'
  {
    var s, n := SafePath(p, a), |Decimal(a)|;
    forall i | |s| - n <= i < |s| ensures s[i] == Decimal(a)[i - (|s| - n)] {
    }
  }

  /** Temporary names made with different seeds differ, whatever the paths. */
  lemma SafePathsDiffer(p: Path, a: nat, q: Path, b: nat)
    ensures SafePath(p, a) == SafePath(q, b) ==> a == b
  {
    SafePathTail(p, a);
    SafePathTail(q, b);
    if SafePath(p, a) == SafePath(q, b) {
      DecimalInjective(a, b);
    }
  }

  // ----- groups by target

  predicate InGroup(group: seq<PathTranspo>, q: Path) {
    exists i :: 0 <= i < |group| && group[i].outputPath == q
  }

  predicate DistinctOutputs(ts: seq<PathTranspo>) {
    forall i, j :: 0 <= i < j < |ts| ==> ts[i].outputPath != ts[j].outputPath
  }

  predicate AllFrom(group: seq<PathTranspo>, target: Path) {
    forall i :: 0 <= i < |group| ==> group[i].targetPath == target
  }

  /**
   * What one group leaves at q: its outputs hold the target's content, and the target is
   * gone unless something keeps it.
   */
  ghost function AfterGroup(files: FileSystem, target: Path, group: seq<PathTranspo>, behavior: Behavior,
      q: Path): Option<Bytes>
    requires target in files
  {
    if InGroup(group, q) then Some(files[target])
    else if q == target && behavior.Move? then None
    else Lookup(files, q)
  }

  method MoveOrCopy(dir: Folder, target: Path, output: Path, behavior: Behavior)
    requires target in dir.files && target != output
    modifies dir
    ensures forall q :: Lookup(dir.files, q) == AfterGroup(old(dir.files), target, [PathTranspo(target, output)],
      behavior, q)
  {
    assert forall q :: InGroup([PathTranspo(target, output)], q) <==> q == output by {
      assert [PathTranspo(target, output)][0].outputPath == output;
    }
    if behavior.Copy? {
      dir.Copy(target, output);
    } else {
      dir.Move(target, output);
    }
  }

  /** The entry of the group that leaves its target where it is, if any. */
  method FindNoop(target: Path, group: seq<PathTranspo>) returns (noop: int)
    ensures -1 <= noop < |group| && (noop == -1 <==> !InGroup(group, target))
    ensures noop >= 0 ==> group[noop].outputPath == target
  {
    for i := 0 to |group|
      invariant forall j :: 0 <= j < i ==> group[j].outputPath != target
    {
      if group[i].outputPath == target {
        return i;
      }
    }
    noop := -1;
  }

  predicate Copied(group: seq<PathTranspo>, n: nat, skipped: int, q: Path)
    requires n <= |group|
  {
    exists j :: 0 <= j < n && j != skipped && group[j].outputPath == q
  }

  /** A file got duplicated: all copies first, then the first entry as the rename, unless one entry is a no-op. */
  method ApplyMultiple(dir: Folder, target: Path, group: seq<PathTranspo>, behavior: Behavior)
    requires target in dir.files && |group| > 0 && AllFrom(group, target) && DistinctOutputs(group)
    modifies dir
    ensures forall q :: Lookup(dir.files, q) == AfterGroup(old(dir.files), target, group, behavior, q)
  {
    var noop := FindNoop(target, group);
    var skipped := if noop == -1 then 0 else noop;
    ghost var before := dir.files;
    for i := 0 to |group|
      invariant target in dir.files && dir.files[target] == before[target]
      invariant forall q :: Lookup(dir.files, q) == if Copied(group, i, skipped, q) then Some(before[target])
        else Lookup(before, q)
    {
      forall q ensures Copied(group, i + 1, skipped, q) <==>
        Copied(group, i, skipped, q) || (i != skipped && q == group[i].outputPath) {
      }
      if i != skipped {
        assert InGroup(group, group[i].outputPath);
        ghost var prev := dir.files;
        dir.Copy(target, group[i].outputPath);
        assert forall q :: Lookup(dir.files, q) == if q == group[i].outputPath then Some(before[target])
          else Lookup(prev, q);
      }
    }
    forall q ensures InGroup(group, q) <==> Copied(group, |group|, skipped, q) || q == group[skipped].outputPath {
    }
    if noop == -1 {
      MoveOrCopy(dir, target, group[0].outputPath, behavior);
      assert [PathTranspo(target, group[0].outputPath)][0].outputPath == group[0].outputPath;
    }
  }

  method ApplyGroup(dir: Folder, target: Path, group: seq<PathTranspo>, behavior: Behavior)
    requires target in dir.files && |group| > 0 && AllFrom(group, target) && DistinctOutputs(group)
    modifies dir
    ensures forall q :: Lookup(dir.files, q) == AfterGroup(old(dir.files), target, group, behavior, q)
  {
    if |group| == 1 {
      if group[0].targetPath != group[0].outputPath {
        MoveOrCopy(dir, target, group[0].outputPath, behavior);
        assert group == [PathTranspo(target, group[0].outputPath)];
      }
    } else {
      ApplyMultiple(dir, target, group, behavior);
    }
  }

  // ----- the whole list

  /** Which target each output is to hold. */
  ghost function Assigned(ts: seq<PathTranspo>): map<Path, Path>
    requires DistinctOutputs(ts)
  {
    map i | 0 <= i < |ts| :: ts[i].outputPath := ts[i].targetPath
  }

  ghost function Targets(ts: seq<PathTranspo>): set<Path> {
    set i | 0 <= i < |ts| :: ts[i].targetPath
  }

  type Groups = map<Path, seq<PathTranspo>>

  /** The groups hold exactly the assignment, each target with its outputs. */
  ghost predicate Grouped(groups: Groups, a: map<Path, Path>) {
    && (forall t :: t in groups ==> |groups[t]| > 0 && AllFrom(groups[t], t) && DistinctOutputs(groups[t]))
    && (forall t, q :: t in groups && InGroup(groups[t], q) ==> q in a && a[q] == t)
    && (forall q :: q in a ==> a[q] in groups && InGroup(groups[a[q]], q))
  }

  method GroupByTarget(ts: seq<PathTranspo>) returns (groups: Groups)
    requires DistinctOutputs(ts)
    ensures Grouped(groups, Assigned(ts)) && groups.Keys == Targets(ts)
  {
    groups := map[];
    ghost var a, keys := Assigned(ts[..0]), Targets(ts[..0]);
    for k := 0 to |ts|
      invariant a == Assigned(ts[..k]) && keys == Targets(ts[..k])
      invariant Grouped(groups, a) && groups.Keys == keys
    {
      TakenNext(ts, k);
      groups := AddToGroup(groups, ts[k], a);
      a, keys := a[ts[k].outputPath := ts[k].targetPath], keys + {ts[k].targetPath};
    }
    assert ts[..|ts|] == ts;
  }

  method AddToGroup(groups: Groups, x: PathTranspo, ghost a: map<Path, Path>) returns (after: Groups)
    requires Grouped(groups, a) && x.outputPath !in a
    ensures Grouped(after, a[x.outputPath := x.targetPath]) && after.Keys == groups.Keys + {x.targetPath}
  {
    var t := x.targetPath;
    after := groups[t := (if t in groups then groups[t] else []) + [x]];
    GroupGrows(groups, a, x, after);
  }

  lemma TakenNext(ts: seq<PathTranspo>, k: nat)
    requires DistinctOutputs(ts) && k < |ts|
    ensures ts[k].outputPath !in Assigned(ts[..k])
    ensures Assigned(ts[..k + 1]) == Assigned(ts[..k])[ts[k].outputPath := ts[k].targetPath]
    ensures Targets(ts[..k + 1]) == Targets(ts[..k]) + {ts[k].targetPath}
  {
    assert ts[..k + 1] == ts[..k] + [ts[k]];
    AssignedSnoc(ts[..k], ts[k]);
    TargetsSnoc(ts[..k], ts[k]);
  }

  lemma InGroupSnoc(group: seq<PathTranspo>, x: PathTranspo)
    ensures forall q :: InGroup(group + [x], q) <==> InGroup(group, q) || q == x.outputPath
  {
    forall q ensures InGroup(group + [x], q) <==> InGroup(group, q) || q == x.outputPath {
      if InGroup(group, q) {
        var i :| 0 <= i < |group| && group[i].outputPath == q;
        assert (group + [x])[i].outputPath == q;
      }
      assert (group + [x])[|group|] == x;
    }
  }

  lemma AssignedSnoc(ts: seq<PathTranspo>, x: PathTranspo)
    requires DistinctOutputs(ts + [x]) && DistinctOutputs(ts)
    ensures x.outputPath !in Assigned(ts) && Assigned(ts + [x]) == Assigned(ts)[x.outputPath := x.targetPath]
  {
    assert (ts + [x])[|ts|] == x;
    assert forall i :: 0 <= i < |ts| ==> (ts + [x])[i] == ts[i];
  }

  lemma TargetsSnoc(ts: seq<PathTranspo>, x: PathTranspo)
    ensures Targets(ts + [x]) == Targets(ts) + {x.targetPath}
  {
    assert (ts + [x])[|ts|] == x;
    assert forall i :: 0 <= i < |ts| ==> (ts + [x])[i] == ts[i];
  }

  lemma GroupGrows(before: Groups, a: map<Path, Path>, x: PathTranspo, after: Groups)
    requires Grouped(before, a) && x.outputPath !in a
    requires after == before[x.targetPath := (if x.targetPath in before then before[x.targetPath] else []) + [x]]
    ensures Grouped(after, a[x.outputPath := x.targetPath])
  {
    var t := x.targetPath;
    var group := if t in before then before[t] else [];
    InGroupSnoc(group, x);
    forall i | 0 <= i < |group| ensures group[i].outputPath != x.outputPath {
      assert InGroup(group, group[i].outputPath);
    }
    var b := a[x.outputPath := t];
    forall q | q in b ensures b[q] in after && InGroup(after[b[q]], q) {
      if q != x.outputPath {
        assert InGroup(before[b[q]], q);
      }
    }
  }

  // ----- outputs that are also targets are renamed first

  /** `.butler-rename-N` names are taken neither by an output nor by a target. */
  ghost predicate TempNamesUnused(a: map<Path, Path>, keys: set<Path>) {
    forall q, n: nat :: q in a && n >= 1 ==> SafePath(q, n) !in a && SafePath(q, n) !in keys
  }

  ghost predicate IsTemp(cleanup: seq<PathTranspo>, q: Path) {
    exists k :: 0 <= k < |cleanup| && cleanup[k].targetPath == q
  }

  ghost predicate RenamedAt(a: map<Path, Path>, cur: map<Path, Path>, cleanup: seq<PathTranspo>, keys: set<Path>,
      k: int)
    requires 0 <= k < |cleanup|
  {
    var r := cleanup[k];
    && r.targetPath == SafePath(r.outputPath, k + 1)
    && r.outputPath in a && r.outputPath in keys && r.outputPath !in cur
    && r.targetPath in cur && cur[r.targetPath] == a[r.outputPath]
  }

  /** cur is a with the outputs of the cleanup list under their temporary names. */
  ghost predicate Renamed(a: map<Path, Path>, cur: map<Path, Path>, cleanup: seq<PathTranspo>, keys: set<Path>) {
    && (forall k :: 0 <= k < |cleanup| ==> RenamedAt(a, cur, cleanup, keys, k))
    && (forall q :: q in cur ==> (q in a && cur[q] == a[q]) || IsTemp(cleanup, q))
    && (forall q :: q in a ==> (q in cur && cur[q] == a[q]) || InGroup(cleanup, q))
    && DistinctOutputs(cleanup)
  }

  /** No output of the targets in done is a target, except a target that stays where it is. */
  ghost predicate Separated(cur: map<Path, Path>, keys: set<Path>, done: set<Path>) {
    forall q :: q in cur && cur[q] in done ==> q == cur[q] || q !in keys
  }

  /** Renaming one output. */
  lemma RenameOne(a: map<Path, Path>, cur: map<Path, Path>, cleanup: seq<PathTranspo>, keys: set<Path>, o: Path,
      safe: Path)
    requires TempNamesUnused(a, keys) && Renamed(a, cur, cleanup, keys) && o in cur && o in keys
      && safe == SafePath(o, |cleanup| + 1)
    ensures o in a && safe !in cur && safe !in keys
    ensures Renamed(a, (cur - {o})[safe := cur[o]], cleanup + [PathTranspo(safe, o)], keys)
  {
    forall k | 0 <= k < |cleanup|
      ensures cleanup[k].targetPath != safe && cleanup[k].targetPath !in keys && cleanup[k].outputPath != o
    {
      assert RenamedAt(a, cur, cleanup, keys, k);
      SafePathsDiffer(cleanup[k].outputPath, k + 1, o, |cleanup| + 1);
    }
    assert o in a;
    var cur2, more := (cur - {o})[safe := cur[o]], cleanup + [PathTranspo(safe, o)];
    forall k | 0 <= k < |more| ensures RenamedAt(a, cur2, more, keys, k) {
      if k < |cleanup| {
        assert RenamedAt(a, cur, cleanup, keys, k);
      }
    }
    InGroupSnoc(cleanup, PathTranspo(safe, o));
    forall q | IsTemp(cleanup, q) || q == safe ensures IsTemp(more, q) {
      if IsTemp(cleanup, q) {
        var k :| 0 <= k < |cleanup| && cleanup[k].targetPath == q;
        assert more[k].targetPath == q;
      } else {
        assert more[|cleanup|].targetPath == q;
      }
    }
  }

  lemma RenameInGroup(groups: Groups, cur: map<Path, Path>, t: Path, i: int, safe: Path)
    requires Grouped(groups, cur) && t in groups && 0 <= i < |groups[t]| && safe !in cur
    ensures groups[t][i].outputPath in cur && cur[groups[t][i].outputPath] == t
    ensures Grouped(groups[t := groups[t][i := PathTranspo(t, safe)]], (cur - {groups[t][i].outputPath})[safe := t])
  {
    var group, o := groups[t], groups[t][i].outputPath;
    var after := group[i := PathTranspo(t, safe)];
    assert InGroup(group, o);
    forall j | 0 <= j < |group| ensures group[j].outputPath != safe && (j != i ==> group[j].outputPath != o) {
      assert InGroup(group, group[j].outputPath);
    }
    forall q ensures InGroup(after, q) <==> (InGroup(group, q) && q != o) || q == safe {
      assert after[i].outputPath == safe;
      if InGroup(group, q) && q != o {
        var j :| 0 <= j < |group| && group[j].outputPath == q;
        assert after[j].outputPath == q;
      }
    }
  }

  /** The state of the rename loop once the targets in done have been looked at. */
  ghost predicate Renaming(groups: Groups, a: map<Path, Path>, cur: map<Path, Path>, cleanup: seq<PathTranspo>,
      keys: set<Path>, done: set<Path>) {
    groups.Keys == keys && Grouped(groups, cur) && Renamed(a, cur, cleanup, keys) && Separated(cur, keys, done)
  }

  lemma RenameKeeps(groups: Groups, a: map<Path, Path>, cur: map<Path, Path>, cleanup: seq<PathTranspo>,
      keys: set<Path>, done: set<Path>, t: Path, i: int, safe: Path)
    requires Renaming(groups, a, cur, cleanup, keys, done) && TempNamesUnused(a, keys)
    requires t in groups && t !in done && 0 <= i < |groups[t]| && groups[t][i].outputPath in keys
    requires safe == SafePath(groups[t][i].outputPath, |cleanup| + 1)
    ensures var o := groups[t][i].outputPath;
      Renaming(groups[t := groups[t][i := PathTranspo(t, safe)]], a, (cur - {o})[safe := t],
        cleanup + [PathTranspo(safe, o)], keys, done)
    ensures safe !in keys
  {
    var o := groups[t][i].outputPath;
    assert InGroup(groups[t], o);
    RenameOne(a, cur, cleanup, keys, o, safe);
    RenameInGroup(groups, cur, t, i, safe);
  }

  lemma DoneGrows<T>(all: set<T>, remaining: set<T>, t: T)
    requires remaining <= all && t in remaining
    ensures all - (remaining - {t}) == all - remaining + {t}
  {
  }

  /** The rename loop: an output that is a target gets a temporary name and an entry in the cleanup list. */
  method RenameClashes(groups0: Groups, ghost a: map<Path, Path>)
    returns (groups: Groups, cleanup: seq<PathTranspo>, ghost cur: map<Path, Path>)
    requires Grouped(groups0, a) && TempNamesUnused(a, groups0.Keys)
    ensures Renaming(groups, a, cur, cleanup, groups0.Keys, groups0.Keys)
  {
    groups, cleanup, cur := groups0, [], a;
    var remaining := groups.Keys;
    while remaining != {}
      invariant remaining <= groups0.Keys && Renaming(groups, a, cur, cleanup, groups0.Keys, groups0.Keys - remaining)
      decreases |remaining|
    {
      var t :| t in remaining;
      ghost var done := groups0.Keys - remaining;
      groups, cleanup, cur := RenameGroup(groups, cleanup, t, a, cur, done);
      DoneGrows(groups0.Keys, remaining, t);
      remaining := remaining - {t};
    }
  }

  method RenameGroup(groups0: Groups, cleanup0: seq<PathTranspo>, t: Path, ghost a: map<Path, Path>,
      ghost cur0: map<Path, Path>, ghost done: set<Path>)
    returns (groups: Groups, cleanup: seq<PathTranspo>, ghost cur: map<Path, Path>)
    requires t in groups0 && t !in done && TempNamesUnused(a, groups0.Keys)
    requires Renaming(groups0, a, cur0, cleanup0, groups0.Keys, done)
    ensures Renaming(groups, a, cur, cleanup, groups0.Keys, done + {t})
  {
    groups, cleanup, cur := groups0, cleanup0, cur0;
    for i := 0 to |groups0[t]|
      invariant Renaming(groups, a, cur, cleanup, groups0.Keys, done) && |groups[t]| == |groups0[t]|
      invariant forall j :: 0 <= j < i ==> groups[t][j].outputPath == t || groups[t][j].outputPath !in groups0
    {
      var o := groups[t][i].outputPath;
      if o != t && o in groups {
        var safe := SafePath(o, |cleanup| + 1);
        RenameKeeps(groups, a, cur, cleanup, groups0.Keys, done, t, i, safe);
        groups := groups[t := groups[t][i := PathTranspo(t, safe)]];
        cleanup := cleanup + [PathTranspo(safe, o)];
        cur := (cur - {o})[safe := t];
      }
    }
    forall q | q in cur && cur[q] == t ensures q == t || q !in groups0 {
      assert InGroup(groups[t], q);
    }
  }

  // ----- all groups, in any order

  ghost predicate Present(files: FileSystem, keys: set<Path>) {
    forall t :: t in keys ==> t in files
  }

  /**
   * What is at q once the targets in done have been dealt with: every output of theirs holds
   * what its target held at first.
   */
  ghost function AfterAll(files: FileSystem, a: map<Path, Path>, done: set<Path>, pending: set<Path>,
      q: Path): Option<Bytes> {
    if q in a && a[q] in done then Lookup(files, a[q])
    else if q in done && q !in pending then None
    else Lookup(files, q)
  }

  /** now is files with the targets in done dealt with. */
  ghost predicate Applied(files: FileSystem, now: FileSystem, a: map<Path, Path>, done: set<Path>, pending: set<Path>) {
    forall q :: Lookup(now, q) == AfterAll(files, a, done, pending, q)
  }

  lemma AppliedStep(files: FileSystem, before: FileSystem, after: FileSystem, groups: Groups, cur: map<Path, Path>,
      done: set<Path>, pending: set<Path>, t: Path)
    requires Grouped(groups, cur) && Separated(cur, groups.Keys, groups.Keys) && t in groups && t !in done
      && done <= groups.Keys
    requires Applied(files, before, cur, done, pending) && t in before
    requires forall q :: Lookup(after, q) == AfterGroup(before, t, groups[t], if t in pending then Copy else Move, q)
    ensures Applied(files, after, cur, done + {t}, pending)
  {
    assert Lookup(before, t) == Lookup(files, t);
    forall q ensures Lookup(after, q) == AfterAll(files, cur, done + {t}, pending, q) {
      assert Lookup(before, q) == AfterAll(files, cur, done, pending, q);
      assert InGroup(groups[t], q) <==> q in cur && cur[q] == t;
    }
  }

  /** The main loop. A target with a pending overlay is copied, never moved. */
  method ApplyGroups(dir: Folder, groups: Groups, pending: set<Path>, ghost cur: map<Path, Path>)
    requires Grouped(groups, cur) && Separated(cur, groups.Keys, groups.Keys) && Present(dir.files, groups.Keys)
    modifies dir
    ensures Applied(old(dir.files), dir.files, cur, groups.Keys, pending)
  {
    var remaining := groups.Keys;
    ghost var files, done := dir.files, {};
    while remaining != {}
      invariant remaining + done == groups.Keys && remaining * done == {}
      invariant Applied(files, dir.files, cur, done, pending)
      decreases |remaining|
    {
      var t :| t in remaining;
      ApplyOne(dir, groups, t, pending, files, cur, done);
      remaining, done := remaining - {t}, done + {t};
    }
  }

  method ApplyOne(dir: Folder, groups: Groups, t: Path, pending: set<Path>, ghost files: FileSystem,
      ghost cur: map<Path, Path>, ghost done: set<Path>)
    requires Grouped(groups, cur) && Separated(cur, groups.Keys, groups.Keys) && Present(files, groups.Keys)
    requires t in groups && t !in done && done <= groups.Keys && Applied(files, dir.files, cur, done, pending)
    modifies dir
    ensures Applied(files, dir.files, cur, done + {t}, pending)
  {
    ghost var before := dir.files;
    assert Lookup(before, t) == Lookup(files, t);
    var behavior := if t in pending then Copy else Move;
    ApplyGroup(dir, t, groups[t], behavior);
    AppliedStep(files, before, dir.files, groups, cur, done, pending, t);
  }

  // ----- back from the temporary names

  /** What is at q after these cleanup renames. */
  ghost function AfterCleanup(files: FileSystem, a: map<Path, Path>, before: FileSystem, cleanup: seq<PathTranspo>,
      q: Path): Option<Bytes> {
    if InGroup(cleanup, q) then (if q in a then Lookup(files, a[q]) else None)
    else if IsTemp(cleanup, q) then None
    else Lookup(before, q)
  }

  lemma IsTempSnoc(cleanup: seq<PathTranspo>, x: PathTranspo)
    ensures forall q :: IsTemp(cleanup + [x], q) <==> IsTemp(cleanup, q) || q == x.targetPath
  {
    forall q ensures IsTemp(cleanup + [x], q) <==> IsTemp(cleanup, q) || q == x.targetPath {
      if IsTemp(cleanup, q) {
        var i :| 0 <= i < |cleanup| && cleanup[i].targetPath == q;
        assert (cleanup + [x])[i].targetPath == q;
      }
      assert (cleanup + [x])[|cleanup|] == x;
    }
  }

  /** The k-th temporary name is neither an output nor a temporary name of an earlier rename. */
  lemma TempIsNew(a: map<Path, Path>, cur: map<Path, Path>, cleanup: seq<PathTranspo>, keys: set<Path>, k: int)
    requires Renamed(a, cur, cleanup, keys) && TempNamesUnused(a, keys) && 0 <= k < |cleanup|
    ensures !InGroup(cleanup[..k], cleanup[k].targetPath) && !IsTemp(cleanup[..k], cleanup[k].targetPath)
    ensures !InGroup(cleanup[..k + 1], cleanup[k].targetPath)
    ensures !InGroup(cleanup[..k], cleanup[k].outputPath) && !IsTemp(cleanup[..k], cleanup[k].outputPath)
    ensures cleanup[k].targetPath != cleanup[k].outputPath
  {
    assert RenamedAt(a, cur, cleanup, keys, k);
    forall j | 0 <= j < k
      ensures cleanup[j].outputPath != cleanup[k].targetPath && cleanup[j].targetPath != cleanup[k].targetPath
      ensures cleanup[j].outputPath != cleanup[k].outputPath && cleanup[j].targetPath != cleanup[k].outputPath
    {
      assert RenamedAt(a, cur, cleanup, keys, j);
      SafePathsDiffer(cleanup[j].outputPath, j + 1, cleanup[k].outputPath, k + 1);
    }
  }

  /** One more temporary name is gone, and its output has what its target held. */
  lemma CleanedStep(files: FileSystem, a: map<Path, Path>, before: FileSystem, prev: FileSystem, now: FileSystem,
      cleanup: seq<PathTranspo>, k: nat, q: Path)
    requires k < |cleanup| && cleanup[k].outputPath in a && !InGroup(cleanup[..k + 1], cleanup[k].targetPath)
    requires Lookup(prev, q) == AfterCleanup(files, a, before, cleanup[..k], q)
    requires Lookup(prev, cleanup[k].targetPath) == Lookup(files, a[cleanup[k].outputPath])
    requires cleanup[k].targetPath in prev && cleanup[k].targetPath != cleanup[k].outputPath
    requires now == prev[cleanup[k].outputPath := prev[cleanup[k].targetPath]] - {cleanup[k].targetPath}
    ensures Lookup(now, q) == AfterCleanup(files, a, before, cleanup[..k + 1], q)
  {
    assert cleanup[..k + 1] == cleanup[..k] + [cleanup[k]];
    InGroupSnoc(cleanup[..k], cleanup[k]);
    IsTempSnoc(cleanup[..k], cleanup[k]);
  }

  method Cleanup(dir: Folder, cleanup: seq<PathTranspo>, ghost files: FileSystem, ghost a: map<Path, Path>,
      ghost cur: map<Path, Path>, ghost keys: set<Path>, ghost pending: set<Path>)
    requires Renamed(a, cur, cleanup, keys) && TempNamesUnused(a, keys) && Present(files, keys)
    requires forall q :: q in a ==> a[q] in keys
    requires Applied(files, dir.files, cur, keys, pending)
    modifies dir
    ensures forall q :: Lookup(dir.files, q) == AfterCleanup(files, a, old(dir.files), cleanup, q)
  {
    ghost var before := dir.files;
    for k := 0 to |cleanup|
      invariant forall q :: Lookup(dir.files, q) == AfterCleanup(files, a, before, cleanup[..k], q)
    {
      ghost var r := cleanup[k];
      assert RenamedAt(a, cur, cleanup, keys, k);
      TempIsNew(a, cur, cleanup, keys, k);
      assert Lookup(dir.files, r.targetPath) == Lookup(before, r.targetPath) == Lookup(files, a[r.outputPath]);
      ghost var prev := dir.files;
      dir.Move(cleanup[k].targetPath, cleanup[k].outputPath);
      forall q ensures Lookup(dir.files, q) == AfterCleanup(files, a, before, cleanup[..k + 1], q) {
        CleanedStep(files, a, before, prev, dir.files, cleanup, k, q);
      }
    }
    assert cleanup[..|cleanup|] == cleanup;
  }

  /** Through temporary names or not, every output ends with what its target held. */
  lemma CleanupCompletes(files: FileSystem, before: FileSystem, after: FileSystem, a: map<Path, Path>,
      cur: map<Path, Path>, cleanup: seq<PathTranspo>, keys: set<Path>, pending: set<Path>)
    requires Renamed(a, cur, cleanup, keys) && TempNamesUnused(a, keys) && Present(files, keys)
      && (forall q :: q in a ==> a[q] in keys)
    requires forall q, n: nat :: q in a && n >= 1 ==> SafePath(q, n) !in files
    requires Applied(files, before, cur, keys, pending)
    requires forall q :: Lookup(after, q) == AfterCleanup(files, a, before, cleanup, q)
    ensures Applied(files, after, a, keys, pending)
  {
    forall k | 0 <= k < |cleanup| ensures cleanup[k].targetPath !in files && cleanup[k].targetPath !in a
      && cleanup[k].outputPath in a {
      assert RenamedAt(a, cur, cleanup, keys, k);
    }
    forall q ensures Lookup(after, q) == AfterAll(files, a, keys, pending, q) {
      assert Lookup(before, q) == AfterAll(files, cur, keys, pending, q);
    }
  }

  /** applyTranspositions: whatever order the groups are visited in, all assignments take place at once. */
  method ApplyTranspositions(dir: Folder, ts: seq<PathTranspo>, pending: set<Path>)
    requires DistinctOutputs(ts)
    requires forall i :: 0 <= i < |ts| ==> ts[i].targetPath in dir.files
    requires forall i, n: nat :: 0 <= i < |ts| && n >= 1 ==> SafePath(ts[i].outputPath, n) !in dir.files
    requires TempNamesUnused(Assigned(ts), Targets(ts))
    modifies dir
    ensures Applied(old(dir.files), dir.files, Assigned(ts), Targets(ts), pending)
  {
    ghost var files, a := dir.files, Assigned(ts);
    var groups0 := GroupByTarget(ts);
    var groups, cleanup, cur := RenameClashes(groups0, a);
    ApplyGroups(dir, groups, pending, cur);
    ghost var before := dir.files;
    Cleanup(dir, cleanup, files, a, cur, groups.Keys, pending);
    CleanupCompletes(files, before, dir.files, a, cur, cleanup, groups.Keys, pending);
  }
}
