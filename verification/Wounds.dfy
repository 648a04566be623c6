/** Wounds, and how they are joined into wider ones. */
module Wounds {
  import opened Common

  datatype Kind = FileWound | SymlinkWound | DirWound | ClosedFile

  datatype Wound = Wound(kind: Kind, index: nat, start: int, end: int) {
    function Size(): int {
      end - start
    }

    /** Not a wound: a sign that a part of a file was found in order. */
    predicate Healthy() {
      kind.ClosedFile?
    }
  }

  // ----- what the joining does, wound by wound

  /** What has been sent on, and the file wound that may still grow. */
  datatype Pending = Pending(sent: seq<Wound>, last: Option<Wound>)

  function Take(p: Pending, w: Wound, maxSize: int): Pending {
    if !w.kind.FileWound? then Pending(Flush(p) + [w], None)
    else if p.last.None? then Pending(p.sent, Some(w))
    else if Joins(p, w) then
      var wider := p.last.value.(end := w.end);
      if wider.Size() >= maxSize then Pending(p.sent + [wider], None) else Pending(p.sent, Some(wider))
    else Pending(Flush(p), Some(w))
  }

  predicate Joins(p: Pending, w: Wound) {
    w.kind.FileWound? && p.last.Some? && p.last.value.end <= w.start && p.last.value.start <= w.start
  }

  function Flush(p: Pending): seq<Wound> {
    if p.last.Some? then p.sent + [p.last.value] else p.sent
  }

  function Aggregated(ws: seq<Wound>, maxSize: int): Pending {
    if ws == [] then Pending([], None) else Take(Aggregated(ws[..|ws| - 1], maxSize), ws[|ws| - 1], maxSize)
  }

  /** AggregateWounds: the goroutine between the two channels. */
  method AggregateWounds(inWounds: seq<Wound>, maxSize: int) returns (outWounds: seq<Wound>)
    ensures outWounds == Flush(Aggregated(inWounds, maxSize)) && Marks(outWounds) == Marks(inWounds)
  {
    outWounds := [];
    var lastWound: Option<Wound> := None;
    for i := 0 to |inWounds|
      invariant Pending(outWounds, lastWound) == Aggregated(inWounds[..i], maxSize)
    {
      assert inWounds[..i + 1][..i] == inWounds[..i];
      var wound := inWounds[i];
      if wound.kind.FileWound? {
        if lastWound.None? {
          lastWound := Some(wound);
        } else if lastWound.value.end <= wound.start && wound.start >= lastWound.value.start {
          lastWound := Some(lastWound.value.(end := wound.end));
          if lastWound.value.end - lastWound.value.start >= maxSize {
            outWounds := outWounds + [lastWound.value];
            lastWound := None;
          }
        } else {
          outWounds := outWounds + [lastWound.value];
          lastWound := Some(wound);
        }
      } else {
        if lastWound.Some? {
          outWounds := outWounds + [lastWound.value];
          lastWound := None;
        }
        outWounds := outWounds + [wound];
      }
    }
    assert inWounds[..|inWounds|] == inWounds;
    if lastWound.Some? {
      outWounds := outWounds + [lastWound.value];
    }
    MarksAreRelayed(inWounds, maxSize);
  }

  // ----- what is no file wound

  /** The signs of health, and the wounds of directories and symlinks. */
  function Marks(ws: seq<Wound>): seq<Wound> {
    if ws == [] then []
    else Marks(ws[..|ws| - 1]) + if ws[|ws| - 1].kind.FileWound? then [] else [ws[|ws| - 1]]
  }

  lemma MarksSnoc(ws: seq<Wound>, w: Wound)
    ensures Marks(ws + [w]) == Marks(ws) + if w.kind.FileWound? then [] else [w]
  {
    assert (ws + [w])[..|ws|] == ws;
  }

  /** What is no file wound comes out just as it went in. */
  lemma {:induction false} MarksAreRelayed(ws: seq<Wound>, maxSize: int)
    ensures Marks(Flush(Aggregated(ws, maxSize))) == Marks(ws)
  {
    if ws != [] {
      var n := |ws| - 1;
      var p, w := Aggregated(ws[..n], maxSize), ws[n];
      MarksAreRelayed(ws[..n], maxSize);
      LastIsFileWound(ws[..n], maxSize);
      MarksSnoc(Flush(p), w);
      if p.last.Some? {
        MarksSnoc(p.sent, p.last.value);
      }
      if Joins(p, w) {
        MarksSnoc(p.sent, p.last.value.(end := w.end));
      }
      if p.last.None? {
        MarksSnoc(p.sent, w);
      }
    }
  }

  /** It keeps its place, too: what goes in before it comes out before it, and is not joined with what is behind it. */
  lemma {:induction false} AggregationSplitsAtMark(ws: seq<Wound>, i: nat, maxSize: int)
    requires i < |ws| && !ws[i].kind.FileWound?
    ensures Flush(Aggregated(ws, maxSize)) ==
      Flush(Aggregated(ws[..i], maxSize)) + [ws[i]] + Flush(Aggregated(ws[i + 1..], maxSize))
  {
    var front, back := ws[..i + 1], ws[i + 1..];
    AggregatedNext(ws, i, maxSize);
    var before := Flush(Aggregated(ws[..i], maxSize)) + [ws[i]];
    BehindMark(front, back, before, maxSize);
    assert front + back == ws;
    assert Flush(SentBefore(before, Aggregated(back, maxSize))) == before + Flush(Aggregated(back, maxSize));
  }

  function SentBefore(before: seq<Wound>, p: Pending): Pending {
    Pending(before + p.sent, p.last)
  }

  /** What has been sent before makes no difference. */
  lemma TakeBehind(before: seq<Wound>, p: Pending, w: Wound, maxSize: int)
    ensures Take(SentBefore(before, p), w, maxSize) == SentBefore(before, Take(p, w, maxSize))
  {
  }

  lemma AggregatedSnoc(ws: seq<Wound>, w: Wound, maxSize: int)
    ensures Aggregated(ws + [w], maxSize) == Take(Aggregated(ws, maxSize), w, maxSize)
  {
    assert (ws + [w])[..|ws|] == ws;
  }

  lemma BehindNext(front: seq<Wound>, rest: seq<Wound>, w: Wound, before: seq<Wound>, maxSize: int)
    requires Aggregated(front + rest, maxSize) == SentBefore(before, Aggregated(rest, maxSize))
    ensures Aggregated(front + (rest + [w]), maxSize) == SentBefore(before, Aggregated(rest + [w], maxSize))
  {
    assert front + (rest + [w]) == (front + rest) + [w];
    AggregatedSnoc(front + rest, w, maxSize);
    AggregatedSnoc(rest, w, maxSize);
    TakeBehind(before, Aggregated(rest, maxSize), w, maxSize);
  }

  /** While nothing waits, the aggregation starts anew. */
  lemma {:induction false} BehindMark(front: seq<Wound>, back: seq<Wound>, before: seq<Wound>, maxSize: int)
    requires Aggregated(front, maxSize) == Pending(before, None)
    ensures Aggregated(front + back, maxSize) == SentBefore(before, Aggregated(back, maxSize))
    decreases |back|
  {
    if back == [] {
      assert front + back == front;
    } else {
      var rest, w := back[..|back| - 1], back[|back| - 1];
      BehindMark(front, rest, before, maxSize);
      BehindNext(front, rest, w, before, maxSize);
      assert back == rest + [w];
    }
  }

  // ----- total size

  function TotalSize(ws: seq<Wound>): int {
    if ws == [] then 0 else TotalSize(ws[..|ws| - 1]) + if ws[|ws| - 1].kind.FileWound? then ws[|ws| - 1].Size() else 0
  }

  /** The bytes between wounds that were joined although they do not touch. */
  function Swallowed(ws: seq<Wound>, maxSize: int): int {
    if ws == [] then 0
    else
      var before, w := Aggregated(ws[..|ws| - 1], maxSize), ws[|ws| - 1];
      Swallowed(ws[..|ws| - 1], maxSize) + if Joins(before, w) then w.start - before.last.value.end else 0
  }

  lemma TotalSizeSnoc(ws: seq<Wound>, w: Wound)
    ensures TotalSize(ws + [w]) == TotalSize(ws) + if w.kind.FileWound? then w.Size() else 0
  {
    assert (ws + [w])[..|ws|] == ws;
  }

  lemma {:induction false} LastIsFileWound(ws: seq<Wound>, maxSize: int)
    ensures Aggregated(ws, maxSize).last.Some? ==> Aggregated(ws, maxSize).last.value.kind.FileWound?
  {
    if ws != [] {
      LastIsFileWound(ws[..|ws| - 1], maxSize);
    }
  }

  /** Aggregation adds exactly the gaps it swallows. */
  lemma {:induction false} SizeGrowsByGaps(ws: seq<Wound>, maxSize: int)
    ensures TotalSize(Flush(Aggregated(ws, maxSize))) == TotalSize(ws) + Swallowed(ws, maxSize)
  {
    if ws != [] {
      var n := |ws| - 1;
      SizeGrowsByGaps(ws[..n], maxSize);
      LastIsFileWound(ws[..n], maxSize);
      TakeGrowsByGap(Aggregated(ws[..n], maxSize), ws[n], maxSize);
    }
  }

  lemma TakeGrowsByGap(p: Pending, w: Wound, maxSize: int)
    requires p.last.Some? ==> p.last.value.kind.FileWound?
    ensures TotalSize(Flush(Take(p, w, maxSize))) == TotalSize(Flush(p)) + (if w.kind.FileWound? then w.Size() else 0)
      + if Joins(p, w) then w.start - p.last.value.end else 0
  {
    TotalSizeSnoc(Flush(p), w);
    TotalSizeSnoc(p.sent, w);
    if p.last.Some? {
      TotalSizeSnoc(p.sent, p.last.value);
      TotalSizeSnoc(p.sent, p.last.value.(end := w.end));
    }
  }

  /** Two neighbouring wounds of files with bytes between them that neither covers. */
  predicate GapAt(ws: seq<Wound>, i: int)
    requires 0 <= i < |ws|
  {
    i > 0 && ws[i - 1].kind.FileWound? && ws[i].kind.FileWound? && ws[i - 1].end < ws[i].start
  }

  /**
   * Where the wounds that come out as one with wound i begin: it goes on the group before it
   * unless that is full or behind it.
   */
  function GroupStart(ws: seq<Wound>, i: nat, maxSize: int): (g: nat)
    requires i < |ws|
    ensures g <= i
    decreases i, 0
  {
    if i > 0 && ws[i - 1].kind.FileWound? && ws[i].kind.FileWound? && !Full(ws, i - 1, maxSize)
      && GoesOn(ws, GroupStart(ws, i - 1, maxSize), i)
    then GroupStart(ws, i - 1, maxSize)
    else i
  }

  predicate GoesOn(ws: seq<Wound>, start: nat, i: nat)
    requires 0 < i < |ws| && start < i
  {
    ws[i - 1].end <= ws[i].start && ws[start].start <= ws[i].start
  }

  /** With wound i its group has reached the maximum. */
  predicate Full(ws: seq<Wound>, i: nat, maxSize: int)
    requires i < |ws|
    decreases i, 1
  {
    GroupStart(ws, i, maxSize) < i && ws[i].end - ws[GroupStart(ws, i, maxSize)].start >= maxSize
  }

  /** The wound that may still grow reaches from the start of the last wound's group to its end. */
  lemma {:induction false} PendingIsGroup(ws: seq<Wound>, n: nat, maxSize: int)
    requires n < |ws|
    ensures Aggregated(ws[..n + 1], maxSize).last ==
      if ws[n].kind.FileWound? && !Full(ws, n, maxSize) then Some(ws[GroupStart(ws, n, maxSize)].(end := ws[n].end))
        else None
    ensures ws[n].kind.FileWound? ==> ws[GroupStart(ws, n, maxSize)].kind.FileWound?
  {
    assert ws[..n + 1][..n] == ws[..n];
    if n > 0 {
      PendingIsGroup(ws, n - 1, maxSize);
    }
  }

  /** Taking wound i swallows bytes exactly when there is a gap before it and it goes on the group. */
  lemma SwallowsIff(ws: seq<Wound>, i: nat, maxSize: int)
    requires i < |ws|
    ensures SwallowsAt(ws, i, maxSize) <==> GapAt(ws, i) && GroupStart(ws, i, maxSize) < i
  {
    if i > 0 {
      PendingIsGroup(ws, i - 1, maxSize);
    }
  }

  /** So the total size is conserved if and only if no gap lies within a group. */
  lemma SizeConservedIff(ws: seq<Wound>, maxSize: int)
    ensures TotalSize(Flush(Aggregated(ws, maxSize))) == TotalSize(ws)
      <==> forall i :: 0 <= i < |ws| && GapAt(ws, i) ==> GroupStart(ws, i, maxSize) == i
  {
    SizeGrowsByGaps(ws, maxSize);
    NothingSwallowedIff(ws, maxSize);
    forall i | 0 <= i < |ws| ensures SwallowsAt(ws, i, maxSize) <==> GapAt(ws, i) && GroupStart(ws, i, maxSize) < i {
      SwallowsIff(ws, i, maxSize);
    }
  }

  /** The file wounds are no longer than the maximum all together. */
  ghost predicate WithinMaximum(ws: seq<Wound>, maxSize: int) {
    forall i, j :: 0 <= i < j < |ws| && ws[i].kind.FileWound? && ws[j].kind.FileWound? ==>
      ws[j].end - ws[i].start < maxSize
  }

  /**
   * While the maximum is not reached, it is conserved if and only if no neighbouring wounds have a gap between them.
   */
  lemma SizeConservedIffNoGap(ws: seq<Wound>, maxSize: int)
    requires (forall i :: 0 <= i < |ws| ==> ws[i].start <= ws[i].end) && WithinMaximum(ws, maxSize)
    ensures TotalSize(Flush(Aggregated(ws, maxSize))) == TotalSize(ws) <==> forall i :: 0 <= i < |ws| ==> !GapAt(ws, i)
  {
    SizeConservedIff(ws, maxSize);
    forall i | 0 <= i < |ws| && GapAt(ws, i) ensures GroupStart(ws, i, maxSize) < i {
      GapIsJoined(ws, i, maxSize);
    }
  }

  lemma GapIsJoined(ws: seq<Wound>, i: nat, maxSize: int)
    requires (forall i :: 0 <= i < |ws| ==> ws[i].start <= ws[i].end) && WithinMaximum(ws, maxSize)
    requires i < |ws| && GapAt(ws, i)
    ensures GroupStart(ws, i, maxSize) < i
  {
    var g := GroupStart(ws, i - 1, maxSize);
    GroupsAreForward(ws, i - 1, maxSize);
    if g < i - 1 {
      assert ws[i - 1].end - ws[g].start < maxSize;
    }
    assert GoesOn(ws, g, i);
  }

  lemma {:induction false} GroupsAreForward(ws: seq<Wound>, i: nat, maxSize: int)
    requires i < |ws| && forall k :: 0 <= k < |ws| ==> ws[k].start <= ws[k].end
    ensures ws[GroupStart(ws, i, maxSize)].start <= ws[i].end
    ensures ws[i].kind.FileWound? ==> ws[GroupStart(ws, i, maxSize)].kind.FileWound?
  {
    if i > 0 {
      GroupsAreForward(ws, i - 1, maxSize);
    }
  }

  lemma {:induction false} NothingSwallowedIff(ws: seq<Wound>, maxSize: int)
    ensures Swallowed(ws, maxSize) >= 0
    ensures Swallowed(ws, maxSize) == 0 <==> forall i :: 0 <= i < |ws| ==> !SwallowsAt(ws, i, maxSize)
  {
    if ws != [] {
      var n := |ws| - 1;
      NothingSwallowedIff(ws[..n], maxSize);
      forall i | 0 <= i < n ensures SwallowsAt(ws, i, maxSize) <==> SwallowsAt(ws[..n], i, maxSize) {
        assert ws[..n][..i] == ws[..i];
      }
      assert SwallowsAt(ws, n, maxSize) <==> Swallowed(ws, maxSize) > Swallowed(ws[..n], maxSize);
    }
  }

  /** Taking wound i swallows bytes that no wound covered. */
  ghost predicate SwallowsAt(ws: seq<Wound>, i: int, maxSize: int)
    requires 0 <= i < |ws|
  {
    var before := Aggregated(ws[..i], maxSize);
    Joins(before, ws[i]) && before.last.value.end < ws[i].start
  }

  /** Any two wounds with a gap between them come out as one that is wider than both together. */
  lemma GapIsSwallowed(a: Wound, b: Wound, maxSize: int)
    requires a.kind.FileWound? && b.kind.FileWound? && a.start <= a.end < b.start <= b.end && b.end - a.start < maxSize
    ensures Flush(Aggregated([a, b], maxSize)) == [a.(end := b.end)]
    ensures TotalSize(Flush(Aggregated([a, b], maxSize))) == TotalSize([a, b]) + (b.start - a.end)
  {
    assert [a, b][..1] == [a] && [a][..0] == [];
    assert Aggregated([a], maxSize) == Pending([], Some(a));
    assert Swallowed([a], maxSize) == 0;
    SizeGrowsByGaps([a, b], maxSize);
  }

  // ----- streams without gaps

  /** Each wound starts where the one before it ends, and none is larger than block. */
  ghost predicate Contiguous(ws: seq<Wound>, block: int) {
    && (forall i :: 0 <= i < |ws| ==> 0 <= ws[i].Size() <= block)
    && (forall i :: 0 <= i < |ws| - 1 ==> Touches(ws, i))
  }

  ghost predicate Touches(ws: seq<Wound>, i: int)
    requires 0 <= i < |ws| - 1
  {
    ws[i].end == ws[i + 1].start
  }

  /** Some file wound covers byte x of file f. */
  ghost predicate Covers(ws: seq<Wound>, f: nat, x: int) {
    exists i :: 0 <= i < |ws| && CoversAt(ws[i], f, x)
  }

  predicate CoversAt(w: Wound, f: nat, x: int) {
    w.kind.FileWound? && w.index == f && w.start <= x < w.end
  }

  lemma CoversSnoc(ws: seq<Wound>, w: Wound, f: nat, x: int)
    ensures Covers(ws + [w], f, x) <==> Covers(ws, f, x) || CoversAt(w, f, x)
  {
    if Covers(ws, f, x) {
      var i :| 0 <= i < |ws| && CoversAt(ws[i], f, x);
      assert CoversAt((ws + [w])[i], f, x);
    }
    assert (ws + [w])[|ws|] == w;
  }

  /** All wounds are about one file, as in the stream of a validated file. */
  ghost predicate OneFile(ws: seq<Wound>, f: nat) {
    forall i :: 0 <= i < |ws| ==> ws[i].index == f
  }

  lemma {:induction false} AggregationKeepsFile(ws: seq<Wound>, f: nat, maxSize: int)
    requires OneFile(ws, f)
    ensures OneFile(Flush(Aggregated(ws, maxSize)), f)
    ensures Aggregated(ws, maxSize).last.Some? ==> Aggregated(ws, maxSize).last.value.index == f
  {
    if ws != [] {
      AggregationKeepsFile(ws[..|ws| - 1], f, maxSize);
      var p := Aggregated(ws[..|ws| - 1], maxSize);
      assert forall i :: 0 <= i < |p.sent| ==> Flush(p)[i] == p.sent[i];
    }
  }

  /**
   * The file is not looked at: a wound of another file that starts where one ends is joined to it, and
   * its own file's bytes are lost.
   */
  lemma FilesAreMixed(a: Wound, b: Wound, maxSize: int)
    requires a.kind.FileWound? && b.kind.FileWound? && a.index != b.index
    requires a.start <= a.end <= b.start < b.end && b.end - a.start < maxSize
    ensures Flush(Aggregated([a, b], maxSize)) == [a.(end := b.end)]
    ensures Covers([a, b], b.index, b.start) && !Covers(Flush(Aggregated([a, b], maxSize)), b.index, b.start)
    ensures !Covers([a, b], a.index, b.start) && Covers(Flush(Aggregated([a, b], maxSize)), a.index, b.start)
  {
    assert [a, b][..1] == [a] && [a][..0] == [];
    assert Aggregated([a], maxSize) == Pending([], Some(a));
    assert CoversAt([a, b][1], b.index, b.start) && CoversAt([a.(end := b.end)][0], a.index, b.start);
  }

  lemma ContiguousFront(ws: seq<Wound>, block: int, n: nat)
    requires Contiguous(ws, block) && n <= |ws|
    ensures Contiguous(ws[..n], block)
  {
    forall i | 0 <= i < n - 1 ensures Touches(ws[..n], i) {
      assert Touches(ws, i);
    }
  }

  /** The growing wound ends where the last one taken ends. */
  lemma {:induction false} LastEnds(ws: seq<Wound>, block: int, maxSize: int)
    requires Contiguous(ws, block) && ws != []
    ensures var p := Aggregated(ws, maxSize); p.last.Some? ==>
      p.last.value.end == ws[|ws| - 1].end && p.last.value.Size() >= 0
  {
    var n := |ws| - 1;
    if n > 0 {
      ContiguousFront(ws, block, n);
      LastEnds(ws[..n], block, maxSize);
      assert Touches(ws, n - 1);
    }
  }

  /** Wounds go forward, each behind the one before it. */
  ghost predicate Forward(ws: seq<Wound>) {
    (forall i :: 0 <= i < |ws| ==> ws[i].start <= ws[i].end) && forall i :: 0 <= i < |ws| - 1 ==> EndsBefore(ws, i)
  }

  ghost predicate EndsBefore(ws: seq<Wound>, i: int)
    requires 0 <= i < |ws| - 1
  {
    ws[i].end <= ws[i + 1].start
  }

  /** Byte x lies between wound i and the next one. */
  ghost predicate Between(ws: seq<Wound>, i: int, x: int)
    requires 0 <= i < |ws| - 1
  {
    ws[i].end <= x < ws[i + 1].start
  }

  /** On a stream of one file, a byte not between two wounds is covered by the joined ones just if it was before. */
  lemma {:induction false} CoverageKeptAt(ws: seq<Wound>, n: nat, f: nat, maxSize: int, g: nat, x: int)
    requires n <= |ws| && OneFile(ws, f) && Forward(ws) && forall i :: 0 <= i < n - 1 ==> !Between(ws, i, x)
    ensures Covers(Flush(Aggregated(ws[..n], maxSize)), g, x) <==> Covers(ws[..n], g, x)
  {
    if n > 0 {
      CoverageKeptAt(ws, n - 1, f, maxSize, g, x);
      PendingBehind(ws, n - 1, maxSize, x);
      assert ws[..n] == ws[..n - 1] + [ws[n - 1]];
      TakeCovers(Aggregated(ws[..n - 1], maxSize), ws[n - 1], maxSize, g, x);
      CoversStep(ws[..n - 1], ws[n - 1], maxSize, g, x);
    }
  }

  lemma PendingBehind(ws: seq<Wound>, n: nat, maxSize: int, x: int)
    requires n < |ws| && Forward(ws) && (n > 0 ==> !Between(ws, n - 1, x))
    ensures var last := Aggregated(ws[..n], maxSize).last;
      last.Some? ==>
        && n > 0 && last.value.kind.FileWound? && last.value.index == ws[GroupStart(ws, n - 1, maxSize)].index
        && last.value.start <= last.value.end <= ws[n].start <= ws[n].end && !(last.value.end <= x < ws[n].start)
  {
    if n > 0 {
      PendingIsGroup(ws, n - 1, maxSize);
      GroupsAreForward(ws, n - 1, maxSize);
      assert EndsBefore(ws, n - 1);
    } else {
      assert ws[..0] == [];
    }
  }

  /** If a wound adds just its own bytes, what was right before it is right behind it. */
  lemma CoversStep(front: seq<Wound>, w: Wound, maxSize: int, f: nat, x: int)
    requires Covers(Flush(Aggregated(front, maxSize)), f, x) <==> Covers(front, f, x)
    requires var p := Aggregated(front, maxSize);
      Covers(Flush(Take(p, w, maxSize)), f, x) <==> Covers(Flush(p), f, x) || CoversAt(w, f, x)
    ensures Covers(Flush(Aggregated(front + [w], maxSize)), f, x) <==> Covers(front + [w], f, x)
  {
    assert (front + [w])[..|front|] == front;
    CoversSnoc(front, w, f, x);
  }

  /** A wound adds just its own bytes to the growing one, and those between the two. */
  lemma TakeCovers(p: Pending, w: Wound, maxSize: int, f: nat, x: int)
    requires p.last.Some? ==>
      && p.last.value.kind.FileWound? && p.last.value.index == w.index
      && p.last.value.start <= p.last.value.end <= w.start <= w.end && !(p.last.value.end <= x < w.start)
    ensures Covers(Flush(Take(p, w, maxSize)), f, x) <==> Covers(Flush(p), f, x) || CoversAt(w, f, x)
  {
    CoversSnoc(Flush(p), w, f, x);
    CoversSnoc(p.sent, w, f, x);
    if p.last.Some? {
      CoversSnoc(p.sent, p.last.value, f, x);
      CoversSnoc(p.sent, p.last.value.(end := w.end), f, x);
    }
  }

  /** The joined wounds cover what the single ones do, and have their total size. */
  ghost predicate Exact(out: seq<Wound>, ws: seq<Wound>) {
    (forall f, x :: Covers(out, f, x) <==> Covers(ws, f, x)) && TotalSize(out) == TotalSize(ws)
  }

  /**
   * On a stream of one file without gaps the joined wounds cover exactly what the single ones did,
   * and the total size is the same.
   */
  lemma AggregationIsExact(ws: seq<Wound>, f: nat, block: int, maxSize: int)
    requires Contiguous(ws, block) && OneFile(ws, f)
    ensures Exact(Flush(Aggregated(ws, maxSize)), ws)
  {
    NoGaps(ws, block);
    SizeConservedIff(ws, maxSize);
    forall g, x ensures Covers(Flush(Aggregated(ws, maxSize)), g, x) <==> Covers(ws, g, x) {
      NothingBetween(ws, block, x);
      CoverageKeptAt(ws, |ws|, f, maxSize, g, x);
      assert ws[..|ws|] == ws;
    }
  }

  lemma NoGaps(ws: seq<Wound>, block: int)
    requires Contiguous(ws, block)
    ensures forall i :: 0 <= i < |ws| ==> !GapAt(ws, i)
  {
    forall i | 0 <= i < |ws| ensures !GapAt(ws, i) {
      assert i > 0 ==> Touches(ws, i - 1);
    }
  }

  lemma NothingBetween(ws: seq<Wound>, block: int, x: int)
    requires Contiguous(ws, block)
    ensures Forward(ws) && forall i :: 0 <= i < |ws| - 1 ==> !Between(ws, i, x)
  {
    forall i | 0 <= i < |ws| ensures ws[i].start <= ws[i].end {
      assert ws[i].Size() >= 0;
    }
    forall i | 0 <= i < |ws| - 1 ensures EndsBefore(ws, i) && !Between(ws, i, x) {
      assert Touches(ws, i);
    }
  }

  // ----- when coverage is conserved

  ghost predicate NoneEmpty(ws: seq<Wound>) {
    forall i :: 0 <= i < |ws| && ws[i].kind.FileWound? ==> ws[i].start < ws[i].end
  }

  /**
   * File wounds are not empty, and come file by file, each from front to back, as a validator that goes through the
   * files in turn gives them.
   */
  ghost predicate FileByFile(ws: seq<Wound>) {
    && NoneEmpty(ws)
    && forall i, j :: 0 <= i < j < |ws| && ws[i].kind.FileWound? && ws[j].kind.FileWound? ==>
      ws[i].index < ws[j].index || (ws[i].index == ws[j].index && ws[i].end <= ws[j].start)
  }

  /** If wound i is joined to the one before it, the two are of one file and touch. */
  predicate CleanAt(ws: seq<Wound>, i: nat, maxSize: int)
    requires i < |ws|
  {
    GroupStart(ws, i, maxSize) < i ==> ws[i - 1].index == ws[i].index && ws[i - 1].end == ws[i].start
  }

  /** Where all joins are clean, a group is of one file and goes forward. */
  lemma {:induction false} GroupIsOfOneFile(ws: seq<Wound>, i: nat, maxSize: int)
    requires i < |ws| && FileByFile(ws) && ws[i].kind.FileWound?
    requires forall k :: 0 <= k <= i ==> CleanAt(ws, k, maxSize)
    ensures var first := ws[GroupStart(ws, i, maxSize)];
      first.kind.FileWound? && first.index == ws[i].index && first.start < ws[i].end
  {
    if GroupStart(ws, i, maxSize) < i {
      assert CleanAt(ws, i, maxSize);
      GroupIsOfOneFile(ws, i - 1, maxSize);
    }
  }

  /** With clean joins only, nothing is gained or lost. */
  lemma {:induction false} CleanConserves(ws: seq<Wound>, n: nat, maxSize: int, f: nat, x: int)
    requires n <= |ws| && FileByFile(ws) && forall k :: 0 <= k < n ==> CleanAt(ws, k, maxSize)
    ensures Covers(Flush(Aggregated(ws[..n], maxSize)), f, x) <==> Covers(ws[..n], f, x)
  {
    if n > 0 {
      CleanConserves(ws, n - 1, maxSize, f, x);
      var before := Aggregated(ws[..n - 1], maxSize);
      if n > 1 && Joins(before, ws[n - 1]) {
        CleanPending(ws, n - 1, maxSize);
        TakeCovers(before, ws[n - 1], maxSize, f, x);
      } else {
        assert n == 1 ==> ws[..0] == [];
        TakeApart(before, ws[n - 1], maxSize, f, x);
      }
      assert ws[..n] == ws[..n - 1] + [ws[n - 1]];
      CoversStep(ws[..n - 1], ws[n - 1], maxSize, f, x);
    }
  }

  /** What a clean join joins. */
  lemma CleanPending(ws: seq<Wound>, n: nat, maxSize: int)
    requires 0 < n < |ws| && FileByFile(ws) && forall k :: 0 <= k <= n ==> CleanAt(ws, k, maxSize)
    requires Joins(Aggregated(ws[..n], maxSize), ws[n])
    ensures var last := Aggregated(ws[..n], maxSize).last.value;
      && last.kind.FileWound? && last.index == ws[n].index
      && last.start <= last.end == ws[n].start < ws[n].end
  {
    PendingIsGroup(ws, n - 1, maxSize);
    GroupIsOfOneFile(ws, n - 1, maxSize);
    assert CleanAt(ws, n, maxSize);
  }

  /** A wound that is not joined adds just its own bytes. */
  lemma TakeApart(p: Pending, w: Wound, maxSize: int, f: nat, x: int)
    requires !Joins(p, w)
    ensures Covers(Flush(Take(p, w, maxSize)), f, x) <==> Covers(Flush(p), f, x) || CoversAt(w, f, x)
  {
    CoversSnoc(Flush(p), w, f, x);
  }

  /** What is covered stays covered. */
  lemma TakeKeepsCovered(p: Pending, w: Wound, maxSize: int, f: nat, x: int)
    requires Covers(Flush(p), f, x) && (w.kind.FileWound? ==> w.start < w.end)
    ensures Covers(Flush(Take(p, w, maxSize)), f, x)
  {
    if Joins(p, w) {
      CoversSnoc(p.sent, p.last.value, f, x);
      CoversSnoc(p.sent, p.last.value.(end := w.end), f, x);
    } else {
      TakeApart(p, w, maxSize, f, x);
    }
  }

  lemma AggregatedNext(ws: seq<Wound>, n: nat, maxSize: int)
    requires n < |ws|
    ensures Aggregated(ws[..n + 1], maxSize) == Take(Aggregated(ws[..n], maxSize), ws[n], maxSize)
  {
    assert ws[..n + 1][..n] == ws[..n];
  }

  /** What has come out after n wounds, the one that may still grow included, covers byte x of file f. */
  ghost predicate CoveredAfter(ws: seq<Wound>, n: nat, maxSize: int, f: nat, x: int)
    requires n <= |ws|
  {
    Covers(Flush(Aggregated(ws[..n], maxSize)), f, x)
  }

  lemma NextStaysCovered(ws: seq<Wound>, n: nat, maxSize: int, f: nat, x: int)
    requires n < |ws| && CoveredAfter(ws, n, maxSize, f, x) && (ws[n].kind.FileWound? ==> ws[n].start < ws[n].end)
    ensures CoveredAfter(ws, n + 1, maxSize, f, x)
  {
    TakeKeepsCovered(Aggregated(ws[..n], maxSize), ws[n], maxSize, f, x);
    AggregatedNext(ws, n, maxSize);
  }

  lemma {:induction false} StaysCovered(ws: seq<Wound>, n: nat, m: nat, maxSize: int, f: nat, x: int)
    requires n <= m <= |ws| && NoneEmpty(ws) && CoveredAfter(ws, n, maxSize, f, x)
    ensures CoveredAfter(ws, m, maxSize, f, x)
    decreases m - n
  {
    if n < m {
      NextStaysCovered(ws, n, maxSize, f, x);
      StaysCovered(ws, n + 1, m, maxSize, f, x);
    }
  }

  /** At the first join that is not clean, the file of the group gets a byte that no wound of it covers. */
  lemma UncleanWidens(ws: seq<Wound>, i: nat, maxSize: int) returns (f: nat, x: int)
    requires i < |ws| && FileByFile(ws) && !CleanAt(ws, i, maxSize)
    requires forall k :: 0 <= k < i ==> CleanAt(ws, k, maxSize)
    ensures Covers(Flush(Aggregated(ws, maxSize)), f, x) && !Covers(ws, f, x)
  {
    f := ws[i - 1].index;
    x := if ws[i].index == f then ws[i - 1].end else ws[i].end - 1;
    GroupIsOfOneFile(ws, i - 1, maxSize);
    JoinCovers(ws, i, maxSize, f, x);
    StaysCovered(ws, i + 1, |ws|, maxSize, f, x);
    assert ws[..|ws|] == ws;
    forall j | 0 <= j < |ws| ensures !CoversAt(ws[j], f, x) {
      assert ws[i - 1].kind.FileWound? && ws[i].kind.FileWound?;
    }
  }

  /** What lies between the start of its group and its end is covered once wound i has been joined to it. */
  lemma JoinCovers(ws: seq<Wound>, i: nat, maxSize: int, f: nat, x: int)
    requires i < |ws| && GroupStart(ws, i, maxSize) < i
    requires var first := ws[GroupStart(ws, i - 1, maxSize)];
      first.kind.FileWound? && first.index == f && first.start <= x < ws[i].end
    ensures CoveredAfter(ws, i + 1, maxSize, f, x)
  {
    PendingIsGroup(ws, i - 1, maxSize);
    assert ws[..i + 1][..i] == ws[..i];
    var before := Aggregated(ws[..i], maxSize);
    var wider := before.last.value.(end := ws[i].end);
    CoversSnoc(before.sent, wider, f, x);
  }

  /**
   * Coverage is conserved if and only if only wounds that touch, and are of one file, are joined.
   */
  lemma CoverageConservedIff(ws: seq<Wound>, maxSize: int)
    requires FileByFile(ws)
    ensures (forall f, x :: Covers(Flush(Aggregated(ws, maxSize)), f, x) <==> Covers(ws, f, x))
      <==> forall i :: 0 <= i < |ws| ==> CleanAt(ws, i, maxSize)
  {
    assert ws[..|ws|] == ws;
    if i :| 0 <= i < |ws| && !CleanAt(ws, i, maxSize) {
      var first := FirstUnclean(ws, i, maxSize);
      var f, x := UncleanWidens(ws, first, maxSize);
    } else {
      forall f, x ensures Covers(Flush(Aggregated(ws, maxSize)), f, x) <==> Covers(ws, f, x) {
        CleanConserves(ws, |ws|, maxSize, f, x);
      }
    }
  }

  lemma {:induction false} FirstUnclean(ws: seq<Wound>, i: nat, maxSize: int) returns (first: nat)
    requires i < |ws| && !CleanAt(ws, i, maxSize)
    ensures first <= i && !CleanAt(ws, first, maxSize) && forall k :: 0 <= k < first ==> CleanAt(ws, k, maxSize)
  {
    if k :| 0 <= k < i && !CleanAt(ws, k, maxSize) {
      first := FirstUnclean(ws, k, maxSize);
    } else {
      first := i;
    }
  }

  /** No wound that comes out reaches the maximum plus one block. */
  lemma {:induction false} AggregationIsBounded(ws: seq<Wound>, block: int, maxSize: int)
    requires Contiguous(ws, block) && block < maxSize
    ensures var p := Aggregated(ws, maxSize);
      && (forall i :: 0 <= i < |p.sent| ==> p.sent[i].Size() < maxSize + block)
      && (p.last.Some? ==> p.last.value.Size() < maxSize)
  {
    if ws != [] {
      var n := |ws| - 1;
      ContiguousFront(ws, block, n);
      AggregationIsBounded(ws[..n], block, maxSize);
      if n > 0 {
        LastEnds(ws[..n], block, maxSize);
        assert Touches(ws, n - 1);
      }
    }
  }

  predicate AllHealthy(ws: seq<Wound>) {
    forall i :: 0 <= i < |ws| ==> ws[i].Healthy()
  }

  lemma AllHealthySnoc(ws: seq<Wound>, w: Wound)
    ensures AllHealthy(ws + [w]) <==> AllHealthy(ws) && w.Healthy()
  {
    assert (ws + [w])[|ws|] == w;
    assert forall i :: 0 <= i < |ws| ==> (ws + [w])[i] == ws[i];
  }

  /** Something unhealthy comes out if and only if something unhealthy went in. */
  lemma {:induction false} AggregationKeepsHealth(ws: seq<Wound>, maxSize: int)
    ensures AllHealthy(Flush(Aggregated(ws, maxSize))) <==> AllHealthy(ws)
  {
    if ws != [] {
      var n := |ws| - 1;
      AggregationKeepsHealth(ws[..n], maxSize);
      LastIsFileWound(ws[..n], maxSize);
      var p, w := Aggregated(ws[..n], maxSize), ws[n];
      assert ws == ws[..n] + [w];
      AllHealthySnoc(ws[..n], w);
      AllHealthySnoc(Flush(p), w);
      AllHealthySnoc(p.sent, w);
      if p.last.Some? {
        AllHealthySnoc(p.sent, p.last.value);
        AllHealthySnoc(p.sent, p.last.value.(end := w.end));
      }
    }
  }
}
