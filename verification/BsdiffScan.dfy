/** analyzeBlock: the scan of one block of the new file against the old file. */
module BsdiffScan {
  import opened Common
  import opened SuffixSearch

  datatype Match = Match(addOldStart: int, addNewStart: int, addLength: int, copyEnd: int)

  /** What the scan remembers of the last match: lastscan, lastpos and lastoffset. */
  datatype Cursor = Cursor(scan: int, pos: int, offset: int)

  /** Where a match was settled: the scan position, its old counterpart, and the two extensions. */
  datatype Anchor = Anchor(scan: int, pos: int, lenf: int, lenb: int)

  function MatchOf(c: Cursor, a: Anchor, offset: int): Match {
    Match(c.pos, c.scan + offset, a.lenf, a.scan - a.lenb + offset)
  }

  function NextCursor(a: Anchor): Cursor {
    Cursor(a.scan - a.lenb, a.pos - a.lenb, a.pos - a.scan)
  }

  // ----- counting agreeing bytes

  /** New byte j equals its counterpart under the alignment new + off = old. */
  predicate Hit(obuf: Bytes, nbuf: Bytes, off: int, j: int) {
    0 <= j < |nbuf| && 0 <= j + off < |obuf| && obuf[j + off] == nbuf[j]
  }

  function Agree(obuf: Bytes, nbuf: Bytes, off: int, from: int, end: int): (n: nat)
    ensures from <= end ==> n <= end - from
    decreases end - from
  {
    if end <= from then 0 else Agree(obuf, nbuf, off, from, end - 1) + if Hit(obuf, nbuf, off, end - 1) then 1 else 0
  }

  lemma {:induction false} AgreeSplit(obuf: Bytes, nbuf: Bytes, off: int, from: int, mid: int, end: int)
    requires from <= mid <= end
    ensures Agree(obuf, nbuf, off, from, end) == Agree(obuf, nbuf, off, from, mid) + Agree(obuf, nbuf, off, mid, end)
    decreases end - mid
  {
    if mid < end {
      AgreeSplit(obuf, nbuf, off, from, mid, end - 1);
    }
  }

  lemma AgreeStep(obuf: Bytes, nbuf: Bytes, off: int, from: int, end: int)
    requires from <= end
    ensures Agree(obuf, nbuf, off, from, end + 1) == Agree(obuf, nbuf, off, from, end) + if Hit(obuf, nbuf, off, end)
      then 1 else 0
  {
  }

  lemma AgreeStepBack(obuf: Bytes, nbuf: Bytes, off: int, from: int, end: int)
    requires from <= end
    ensures Agree(obuf, nbuf, off, from - 1, end) == Agree(obuf, nbuf, off, from, end) +
      if Hit(obuf, nbuf, off, from - 1) then 1 else 0
  {
    AgreeSplit(obuf, nbuf, off, from - 1, from, end);
    AgreeStep(obuf, nbuf, off, from - 1, from - 1);
  }

  // ----- the three choices made for one match

  /** best is the first position in [0, limit] at which f is largest. */
  ghost predicate FirstMaximum(f: int -> int, limit: int, best: int) {
    && 0 <= best <= limit
    && (forall i :: 0 <= i <= limit ==> f(i) <= f(best))
    && (forall i :: 0 <= i < best ==> f(i) < f(best))
  }

  lemma FirstMaximumStep(f: int -> int, limit: int, best: int)
    requires FirstMaximum(f, limit, best)
    ensures FirstMaximum(f, limit + 1, if f(limit + 1) > f(best) then limit + 1 else best)
  {
  }

  ghost function ForwardScore(obuf: Bytes, nbuf: Bytes, c: Cursor): int -> int {
    i => 2 * Agree(obuf, nbuf, c.pos - c.scan, c.scan, c.scan + i) - i
  }

  ghost function BackwardScore(obuf: Bytes, nbuf: Bytes, scan: int, pos: int): int -> int {
    i => 2 * Agree(obuf, nbuf, pos - scan, scan - i, scan) - i
  }

  /** Gain of giving the first i bytes of the overlap, which starts at new position from, to the forward extension. */
  ghost function SplitGain(obuf: Bytes, nbuf: Bytes, offF: int, offB: int, from: int): int -> int {
    i => Agree(obuf, nbuf, offF, from, from + i) - Agree(obuf, nbuf, offB, from, from + i)
  }

  lemma ForwardScoreSteps(obuf: Bytes, nbuf: Bytes, c: Cursor, i: nat)
    ensures ForwardScore(obuf, nbuf, c)(0) == 0
    ensures ForwardScore(obuf, nbuf, c)(i + 1) == ForwardScore(obuf, nbuf, c)(i) +
      if Hit(obuf, nbuf, c.pos - c.scan, c.scan + i) then 1 else -1
  {
    assert Agree(obuf, nbuf, c.pos - c.scan, c.scan, c.scan + 0) == 0;
    AgreeStep(obuf, nbuf, c.pos - c.scan, c.scan, c.scan + i);
  }

  lemma BackwardScoreSteps(obuf: Bytes, nbuf: Bytes, scan: int, pos: int, i: nat)
    ensures BackwardScore(obuf, nbuf, scan, pos)(0) == 0
    ensures BackwardScore(obuf, nbuf, scan, pos)(i + 1) == BackwardScore(obuf, nbuf, scan, pos)(i)
      + if Hit(obuf, nbuf, pos - scan, scan - i - 1) then 1 else -1
  {
    assert Agree(obuf, nbuf, pos - scan, scan - 0, scan) == 0;
    AgreeStepBack(obuf, nbuf, pos - scan, scan - i, scan);
  }

  lemma BackwardByte(obuf: Bytes, nbuf: Bytes, scan: int, pos: int, i: int)
    requires 0 < i <= scan <= |nbuf| && i <= pos <= |obuf|
    ensures BackwardScore(obuf, nbuf, scan, pos)(i) ==
      BackwardScore(obuf, nbuf, scan, pos)(i - 1) + if obuf[pos - i] == nbuf[scan - i] then 1 else -1
  {
    BackwardScoreSteps(obuf, nbuf, scan, pos, i - 1);
  }

  lemma SplitGainStarts(obuf: Bytes, nbuf: Bytes, offF: int, offB: int, from: int)
    ensures SplitGain(obuf, nbuf, offF, offB, from)(0) == 0
  {
    assert Agree(obuf, nbuf, offF, from, from + 0) == 0 == Agree(obuf, nbuf, offB, from, from + 0);
  }

  lemma SplitGainSteps(obuf: Bytes, nbuf: Bytes, offF: int, offB: int, from: int, i: nat)
    ensures SplitGain(obuf, nbuf, offF, offB, from)(i + 1) == SplitGain(obuf, nbuf, offF, offB, from)(i)
      + (if Hit(obuf, nbuf, offF, from + i) then 1 else 0) - (if Hit(obuf, nbuf, offB, from + i) then 1 else 0)
  {
    AgreeStep(obuf, nbuf, offF, from, from + i);
    AgreeStep(obuf, nbuf, offB, from, from + i);
  }

  ghost predicate ForwardBest(obuf: Bytes, nbuf: Bytes, c: Cursor, scan: int, lenf: int) {
    FirstMaximum(ForwardScore(obuf, nbuf, c), Min(scan - c.scan, |obuf| - c.pos), lenf)
  }

  ghost predicate BackwardBest(obuf: Bytes, nbuf: Bytes, c: Cursor, scan: int, pos: int, lenb: int) {
    if scan < |nbuf| then FirstMaximum(BackwardScore(obuf, nbuf, scan, pos), Min(scan - c.scan, pos), lenb)
      else lenb == 0
  }

  ghost predicate SplitBest(obuf: Bytes, nbuf: Bytes, c: Cursor, scan: int, pos: int, lenf: int, lenb: int, lens: int) {
    FirstMaximum(SplitGain(obuf, nbuf, c.pos - c.scan, pos - scan, scan - lenb), c.scan + lenf - (scan - lenb), lens)
  }

  /** The extensions are the best ones; where they overlap, the overlap is cut at the best point and they meet there. */
  ghost predicate Settled(obuf: Bytes, nbuf: Bytes, c: Cursor, a: Anchor) {
    exists f, b :: ForwardBest(obuf, nbuf, c, a.scan, f) && BackwardBest(obuf, nbuf, c, a.scan, a.pos, b)
      && Cut(obuf, nbuf, c, a, f, b)
  }

  ghost predicate Cut(obuf: Bytes, nbuf: Bytes, c: Cursor, a: Anchor, f: int, b: int) {
    if c.scan + f <= a.scan - b then a.lenf == f && a.lenb == b
    else
      var lens := b - a.lenb;
      && SplitBest(obuf, nbuf, c, a.scan, a.pos, f, b, lens)
      && c.scan + a.lenf == a.scan - a.lenb
  }

  ghost predicate InRange(obuf: Bytes, nbuf: Bytes, c: Cursor, scan: int, pos: int) {
    0 <= c.scan <= scan <= |nbuf| && 0 <= c.pos <= |obuf| && 0 <= pos <= |obuf|
  }

  method ForwardExtend(obuf: Bytes, nbuf: Bytes, c: Cursor, scan: int) returns (lenf: int)
    requires InRange(obuf, nbuf, c, scan, 0)
    ensures ForwardBest(obuf, nbuf, c, scan, lenf)
  {
    ghost var f := ForwardScore(obuf, nbuf, c);
    var s, Sf, i := 0, 0, 0;
    lenf := 0;
    ForwardScoreSteps(obuf, nbuf, c, 0);
    while c.scan + i < scan && c.pos + i < |obuf|
      invariant 0 <= i <= Min(scan - c.scan, |obuf| - c.pos)
      invariant f(i) == s * 2 - i && f(lenf) == Sf * 2 - lenf && FirstMaximum(f, i, lenf)
    {
      ForwardScoreSteps(obuf, nbuf, c, i);
      if obuf[c.pos + i] == nbuf[c.scan + i] {
        s := s + 1;
      }
      FirstMaximumStep(f, i, lenf);
      i := i + 1;
      if s * 2 - i > Sf * 2 - lenf {
        Sf := s;
        lenf := i;
      }
    }
  }

  method BackwardExtend(obuf: Bytes, nbuf: Bytes, c: Cursor, scan: int, pos: int) returns (lenb: int)
    requires InRange(obuf, nbuf, c, scan, pos)
    ensures BackwardBest(obuf, nbuf, c, scan, pos, lenb)
  {
    lenb := 0;
    if scan < |nbuf| {
      ghost var f := BackwardScore(obuf, nbuf, scan, pos);
      var s, Sb, i := 0, 0, 1;
      BackwardScoreSteps(obuf, nbuf, scan, pos, 0);
      while scan >= c.scan + i && pos >= i
        invariant 0 < i <= Min(scan - c.scan, pos) + 1
        invariant f(i - 1) == s * 2 - (i - 1) && f(lenb) == Sb * 2 - lenb && FirstMaximum(f, i - 1, lenb)
      {
        BackwardByte(obuf, nbuf, scan, pos, i);
        if obuf[pos - i] == nbuf[scan - i] {
          s := s + 1;
        }
        FirstMaximumStep(f, i - 1, lenb);
        if s * 2 - i > Sb * 2 - lenb {
          Sb := s;
          lenb := i;
        }
        i := i + 1;
      }
    }
  }

  method SplitOverlap(obuf: Bytes, nbuf: Bytes, c: Cursor, scan: int, pos: int, lenf: int, lenb: int)
    returns (lens: int)
    requires InRange(obuf, nbuf, c, scan, pos)
    requires 0 <= lenf && c.scan + lenf <= scan && c.pos + lenf <= |obuf|
    requires 0 <= lenb <= pos && c.scan <= scan - lenb < c.scan + lenf
    ensures SplitBest(obuf, nbuf, c, scan, pos, lenf, lenb, lens)
  {
    var overlap := c.scan + lenf - (scan - lenb);
    ghost var f := SplitGain(obuf, nbuf, c.pos - c.scan, pos - scan, scan - lenb);
    var s, Ss, i := 0, 0, 0;
    lens := 0;
    ghost var from, offF, offB := scan - lenb, c.pos - c.scan, pos - scan;
    SplitGainStarts(obuf, nbuf, offF, offB, from);
    while i < overlap
      invariant 0 <= i <= overlap
      invariant f(i) == s && f(lens) == Ss && FirstMaximum(f, i, lens)
    {
      SplitGainSteps(obuf, nbuf, offF, offB, from, i);
      if nbuf[c.scan + lenf - overlap + i] == obuf[c.pos + lenf - overlap + i] {
        s := s + 1;
      }
      if nbuf[scan - lenb + i] == obuf[pos - lenb + i] {
        s := s - 1;
      }
      FirstMaximumStep(f, i, lens);
      if s > Ss {
        Ss := s;
        lens := i + 1;
      }
      i := i + 1;
    }
  }

  method SettleMatch(obuf: Bytes, nbuf: Bytes, c: Cursor, scan: int, pos: int) returns (a: Anchor)
    requires InRange(obuf, nbuf, c, scan, pos)
    ensures a.scan == scan && a.pos == pos && Settled(obuf, nbuf, c, a)
  {
    var lenf := ForwardExtend(obuf, nbuf, c, scan);
    var lenb := BackwardExtend(obuf, nbuf, c, scan, pos);
    ghost var f, b := lenf, lenb;
    if c.scan + lenf > scan - lenb {
      var overlap := c.scan + lenf - (scan - lenb);
      var lens := SplitOverlap(obuf, nbuf, c, scan, pos, lenf, lenb);
      lenf := lenf + lens - overlap;
      lenb := lenb - lens;
    }
    a := Anchor(scan, pos, lenf, lenb);
    assert Cut(obuf, nbuf, c, a, f, b);
  }

  /** The extensions never overlap, stay behind the cursor, and the add region stays inside the old file. */
  lemma SettledFits(obuf: Bytes, nbuf: Bytes, c: Cursor, a: Anchor)
    requires InRange(obuf, nbuf, c, a.scan, a.pos) && Settled(obuf, nbuf, c, a)
    ensures 0 <= a.lenf && c.scan + a.lenf <= a.scan - a.lenb && c.pos + a.lenf <= |obuf|
    ensures 0 <= a.lenb <= a.pos && c.scan <= a.scan - a.lenb
    ensures a.scan == |nbuf| ==> a.lenb == 0
  {
  }

  // ----- choosing where to settle a match

  /** The scan stops at a match that is either exactly the old alignment or beats it by more than 8 bytes. */
  predicate Stops(length: int, oldscore: int) {
    (length == oldscore && length != 0) || length > oldscore + 8
  }

  ghost predicate StopsAt(psa: PSA, nbuf: Bytes, off: int, scan: int, pos: int, length: int)
    requires psa.Valid()
  {
    && 0 <= scan < |nbuf| && psa.Best(nbuf[scan..], pos, length)
    && Stops(length, Agree(psa.buf, nbuf, off, scan, scan + length))
  }

  /** No position of [from, end) was one to stop at. */
  ghost predicate NoStopIn(psa: PSA, nbuf: Bytes, off: int, from: int, end: int)
    requires psa.Valid()
  {
    forall s, p, n :: from <= s < end ==> !StopsAt(psa, nbuf, off, s, p, n)
  }

  method CountHits(obuf: Bytes, nbuf: Bytes, off: int, scsc: int, end: int, oldscore: int)
    returns (scsc': int, oldscore': int)
    requires 0 <= scsc && end <= |nbuf| && (scsc < end ==> scsc + off >= 0)
    ensures scsc' == if scsc < end then end else scsc
    ensures oldscore' == oldscore + Agree(obuf, nbuf, off, scsc, scsc')
  {
    scsc', oldscore' := scsc, oldscore;
    while scsc' < end
      invariant scsc <= scsc' && (scsc < end ==> scsc' <= end) && (scsc >= end ==> scsc' == scsc)
      invariant oldscore' == oldscore + Agree(obuf, nbuf, off, scsc, scsc')
    {
      if scsc' + off < |obuf| && obuf[scsc' + off] == nbuf[scsc'] {
        oldscore' := oldscore' + 1;
      }
      scsc' := scsc' + 1;
    }
  }

  /** What the inner loop knows at scan: the last search's result, and the score of its window. */
  ghost predicate Scanning(psa: PSA, nbuf: Bytes, off: int, start: int, scan: int, pos: int, length: int, scsc: int,
      oldscore: int)
    requires psa.Valid() && 0 <= start <= scan <= |nbuf|
  {
    && (scan == start ==> scsc == start && oldscore == 0)
    && (start < scan ==>
        psa.Best(nbuf[scan - 1..], pos, length) && scsc == scan - 1 + length
        && 0 <= pos < |psa.buf| && length >= 0)
    && Window(psa.buf, nbuf, off, scan, scsc, oldscore)
  }

  /** The longest match at scan; it ends no earlier than the one found a byte before. */
  method SearchAt(psa: PSA, nbuf: Bytes, start: int, scan: int, pos0: int, length0: int) returns (pos: int, length: int)
    requires psa.Valid() && 0 <= start <= scan < |nbuf|
    requires start < scan ==> psa.Best(nbuf[scan - 1..], pos0, length0)
    ensures psa.Best(nbuf[scan..], pos, length) && 0 <= pos < |psa.buf| && length >= 0 && scan + length <= |nbuf|
    ensures start < scan ==> length >= length0 - 1
  {
    pos, length := psa.Search(nbuf[scan..]);
    if start < scan {
      psa.BestIsMonotone(nbuf, scan - 1, pos0, length0, pos, length);
    }
    BestFits(psa, nbuf[scan..], pos, length);
  }

  /** One turn of the inner loop: search at scan, bring the score up to date, and see whether to stop. */
  method Probe(psa: PSA, nbuf: Bytes, off: int, start: int, scan: int, pos0: int, length0: int, scsc0: int, score: int)
    returns (pos: int, length: int, scsc: int, oldscore: int, stop: bool)
    requires psa.Valid() && 0 <= start <= scan < |nbuf| && start + off >= 0
    requires Scanning(psa, nbuf, off, start, scan, pos0, length0, scsc0, score)
    ensures psa.Best(nbuf[scan..], pos, length) && 0 <= pos < |psa.buf| && length >= 0 && scan + length <= |nbuf|
    ensures stop == Stops(length, Agree(psa.buf, nbuf, off, scan, scan + length))
    ensures if stop then oldscore == Agree(psa.buf, nbuf, off, scan, scan + length)
            else Scanning(psa, nbuf, off, start, scan + 1, pos, length, scsc, oldscore)
  {
    pos, length := SearchAt(psa, nbuf, start, scan, pos0, length0);
    scsc, oldscore := SlideWindow(psa.buf, nbuf, off, scan, scan + length, scsc0, score);
    stop := Stops(length, oldscore);
    if !stop {
      WindowShrinks(psa.buf, nbuf, off, scan, scsc);
      if scan + off < |psa.buf| && psa.buf[scan + off] == nbuf[scan] {
        oldscore := oldscore - 1;
      }
    }
  }

  /** Extends the window's end to that of the match at scan, so that the score counts exactly the match's bytes. */
  method SlideWindow(obuf: Bytes, nbuf: Bytes, off: int, scan: int, end: int, scsc0: int, score: int)
    returns (scsc: int, oldscore: int)
    requires 0 <= scan <= end <= |nbuf| && 0 <= scsc0 <= end && (scsc0 < end ==> scsc0 + off >= 0)
    requires Window(obuf, nbuf, off, scan, scsc0, score)
    ensures scsc == end && oldscore == Agree(obuf, nbuf, off, scan, end)
  {
    scsc, oldscore := CountHits(obuf, nbuf, off, scsc0, end, score);
    WindowGrows(obuf, nbuf, off, scsc0, scan, scsc);
  }

  /**
   * The inner loop: advance scan to the first stop, keeping oldscore equal to the agreement
   * over the current match's window.
   */
  method FindStop(psa: PSA, nbuf: Bytes, off: int, start: int, pos0: int, length0: int)
    returns (scan: int, pos: int, length: int, oldscore: int)
    requires psa.Valid() && 0 <= start <= |nbuf| && (start < |nbuf| ==> start + off >= 0)
    ensures start <= scan <= |nbuf| && NoStopIn(psa, nbuf, off, start, scan)
    ensures scan < |nbuf| ==>
      StopsAt(psa, nbuf, off, scan, pos, length) && oldscore == Agree(psa.buf, nbuf, off, scan, scan + length)
    ensures start == |nbuf| ==> pos == pos0 && length == length0
    ensures start < |nbuf| ==> 0 <= pos < |psa.buf| && length >= 0
  {
    scan, pos, length, oldscore := start, pos0, length0, 0;
    var scsc, stop := start, false;
    while scan < |nbuf| && !stop
      invariant start <= scan <= |nbuf| && NoStopIn(psa, nbuf, off, start, scan)
      invariant stop ==> scan < |nbuf| && StopsAt(psa, nbuf, off, scan, pos, length)
      invariant stop ==>
        oldscore == Agree(psa.buf, nbuf, off, scan, scan + length) && 0 <= pos < |psa.buf| && length >= 0
      invariant !stop ==> Scanning(psa, nbuf, off, start, scan, pos, length, scsc, oldscore)
      invariant !stop && scan == start ==> pos == pos0 && length == length0
      decreases |nbuf| - scan, !stop
    {
      pos, length, scsc, oldscore, stop := Probe(psa, nbuf, off, start, scan, pos, length, scsc, oldscore);
      if !stop {
        NoStopExtends(psa, nbuf, off, start, scan, pos, length);
        scan := scan + 1;
      }
    }
  }

  /** score counts the agreeing bytes of [scan, scsc), or owes the one byte scan has moved past scsc. */
  ghost predicate Window(obuf: Bytes, nbuf: Bytes, off: int, scan: int, scsc: int, score: int) {
    if scsc >= scan then score == Agree(obuf, nbuf, off, scan, scsc)
    else scsc == scan - 1 && score + Agree(obuf, nbuf, off, scsc, scan) == 0
  }

  lemma NoStopExtends(psa: PSA, nbuf: Bytes, off: int, from: int, scan: int, pos: int, length: int)
    requires psa.Valid() && 0 <= from <= scan < |nbuf| && NoStopIn(psa, nbuf, off, from, scan)
    requires psa.Best(nbuf[scan..], pos, length) && !Stops(length, Agree(psa.buf, nbuf, off, scan, scan + length))
    ensures NoStopIn(psa, nbuf, off, from, scan + 1)
  {
    BestIsUnique(psa, nbuf[scan..], pos, length);
  }

  lemma BestFits(psa: PSA, needle: Bytes, pos: int, n: int)
    requires psa.Valid() && psa.Best(needle, pos, n)
    ensures 0 <= pos < |psa.buf| && 0 <= n <= |needle| && pos + n <= |psa.buf|
  {
  }

  lemma BestIsUnique(psa: PSA, needle: Bytes, pos: int, n: int)
    requires psa.Valid() && psa.Best(needle, pos, n)
    ensures forall p, m :: psa.Best(needle, p, m) ==> m == n
  {
  }

  lemma WindowGrows(obuf: Bytes, nbuf: Bytes, off: int, scsc0: int, scan: int, scsc: int)
    requires scan - 1 <= scsc0 <= scsc && scan <= scsc
    ensures scsc0 >= scan ==>
      Agree(obuf, nbuf, off, scan, scsc) == Agree(obuf, nbuf, off, scan, scsc0) + Agree(obuf, nbuf, off, scsc0, scsc)
    ensures scsc0 < scan ==>
      Agree(obuf, nbuf, off, scan, scsc) == Agree(obuf, nbuf, off, scsc0, scsc) - Agree(obuf, nbuf, off, scsc0, scan)
  {
    if scsc0 >= scan {
      AgreeSplit(obuf, nbuf, off, scan, scsc0, scsc);
    } else {
      AgreeSplit(obuf, nbuf, off, scsc0, scan, scsc);
    }
  }

  lemma WindowShrinks(obuf: Bytes, nbuf: Bytes, off: int, scan: int, scsc: int)
    requires scan <= scsc
    ensures scsc > scan ==>
      Agree(obuf, nbuf, off, scan + 1, scsc) ==
      Agree(obuf, nbuf, off, scan, scsc) - (if Hit(obuf, nbuf, off, scan) then 1 else 0)
    ensures Agree(obuf, nbuf, off, scan, scan + 1) == if Hit(obuf, nbuf, off, scan) then 1 else 0
  {
    assert Agree(obuf, nbuf, off, scan, scan) == 0;
    if scsc > scan {
      AgreeSplit(obuf, nbuf, off, scan, scan + 1, scsc);
    }
  }

  // ----- the whole block

  ghost predicate InOld(m: Match, oldSize: int) {
    0 <= m.addOldStart && 0 <= m.addLength && m.addOldStart + m.addLength <= oldSize
  }

  /** Match k starts where match k - 1 ended (or at start), and its add region and copied bytes fit in its share. */
  ghost predicate TileAt(ms: seq<Match>, start: int, k: int)
    requires 0 <= k < |ms|
  {
    && ms[k].addNewStart == (if k == 0 then start else ms[k - 1].copyEnd)
    && ms[k].addNewStart + ms[k].addLength <= ms[k].copyEnd
  }

  ghost function TileEnd(ms: seq<Match>, start: int): int {
    if ms == [] then start else ms[|ms| - 1].copyEnd
  }

  /** The matches cover new[start..end) without gap or overlap, and every add region lies in the old file. */
  ghost predicate Tiles(ms: seq<Match>, oldSize: int, start: int, end: int) {
    && (forall k {:trigger TileAt(ms, start, k)} :: 0 <= k < |ms| ==> TileAt(ms, start, k) && InOld(ms[k], oldSize))
    && TileEnd(ms, start) == end
  }

  /**
   * Where one block's scan went: the cursors between the matches, the anchor each match was settled at, and where the
   * search for the next one set out.
   */
  datatype Trace = Trace(cursors: seq<Cursor>, anchors: seq<Anchor>, froms: seq<int>)

  /** From mid on, the first stop is exactly the old alignment, and at is behind it. */
  ghost predicate PassesOver(psa: PSA, nbuf: Bytes, off: int, mid: int, at: int)
    requires psa.Valid()
  {
    exists s, p, n :: StopsAt(psa, nbuf, off, s, p, n) && mid <= s && 0 < n && s + n == at
      && n == Agree(psa.buf, nbuf, off, s, s + n) && NoStopIn(psa, nbuf, off, mid, s)
  }

  /** Looking for stops from from on and passing over those that are the old alignment leads to at. */
  ghost predicate WalksTo(psa: PSA, nbuf: Bytes, off: int, from: int, at: int)
    requires psa.Valid()
    decreases at - from
  {
    at == from
    || exists mid :: from <= mid < at && WalksTo(psa, nbuf, off, from, mid) && PassesOver(psa, nbuf, off, mid, at)
  }

  /**
   * scan is the first place, as seen from from, that beats the alignment of offset off by more than 8 bytes, with a
   * best match up to end; or there is none, and it is the end of the block.
   */
  ghost predicate FirstBetter(psa: PSA, nbuf: Bytes, off: int, from: int, scan: int, pos: int, end: int)
    requires psa.Valid()
  {
    && (exists mid :: Walked(psa, nbuf, off, from, mid) && mid <= scan && NoStopIn(psa, nbuf, off, mid, scan))
    && (scan == |nbuf| || BeatsAlignment(psa, nbuf, off, scan, pos, end))
  }

  ghost predicate BeatsAlignment(psa: PSA, nbuf: Bytes, off: int, scan: int, pos: int, end: int)
    requires psa.Valid()
  {
    && 0 <= scan < |nbuf| && psa.Best(nbuf[scan..], pos, end - scan)
    && end - scan > Agree(psa.buf, nbuf, off, scan, end) + 8
  }

  /**
   * Match k is what its cursor and anchor say, its extensions are the best ones, and its anchor is the first place that
   * was better than the alignment of the match before it.
   */
  ghost predicate Justified(psa: PSA, nbuf: Bytes, offset: int, t: Trace, ms: seq<Match>, k: int)
    requires psa.Valid() && |t.cursors| == |t.froms| == |ms| + 1 && |t.anchors| == |ms| && 0 <= k < |ms|
  {
    && ms[k] == MatchOf(t.cursors[k], t.anchors[k], offset) && t.cursors[k + 1] == NextCursor(t.anchors[k])
    && Settled(psa.buf, nbuf, t.cursors[k], t.anchors[k])
    && FirstBetter(psa, nbuf, t.cursors[k].offset, t.froms[k], t.anchors[k].scan, t.anchors[k].pos, t.froms[k + 1])
  }

  /** t explains every one of the matches. */
  ghost predicate Explains(psa: PSA, nbuf: Bytes, offset: int, t: Trace, ms: seq<Match>)
    requires psa.Valid()
  {
    && |t.cursors| == |t.froms| == |ms| + 1 && |t.anchors| == |ms|
    && t.cursors[0] == Cursor(0, 0, 0) && t.froms[0] == 0
    && (forall k :: 0 <= k < |ms| ==> Justified(psa, nbuf, offset, t, ms, k))
  }

  /** The matches are those of a scan of this block, all of it. */
  ghost predicate BlockScanned(psa: PSA, nbuf: Bytes, offset: int, ms: seq<Match>)
    requires psa.Valid()
  {
    Tiles(ms, |psa.buf|, offset, offset + |nbuf|) && exists t :: Explains(psa, nbuf, offset, t, ms)
  }

  /**
   * The matches so far: they tile up to the cursor, the first one reads from the start of the
   * old file, and each is justified.
   */
  ghost predicate Scanned(psa: PSA, nbuf: Bytes, offset: int, ms: seq<Match>, t: Trace, c: Cursor)
    requires psa.Valid()
  {
    && Tiles(ms, |psa.buf|, offset, offset + c.scan)
    && (ms == [] ==> c == Cursor(0, 0, 0))
    && (ms != [] ==> ms[0].addOldStart == 0 && nbuf != [])
    && Explains(psa, nbuf, offset, t, ms) && t.cursors[|ms|] == c
  }

  method AnalyzeBlock(psa: PSA, nbuf: Bytes, offset: int) returns (ms: seq<Match>, ghost t: Trace)
    requires psa.Valid()
    ensures Tiles(ms, |psa.buf|, offset, offset + |nbuf|)
    ensures nbuf == [] <==> ms == []
    ensures ms != [] ==> ms[0].addOldStart == 0
    ensures Explains(psa, nbuf, offset, t, ms)
  {
    var scan, pos, length := 0, 0, 0;
    var c := Cursor(0, 0, 0);
    ms, t := [], Trace([c], [], [0]);
    while scan < |nbuf|
      invariant Looking(psa, nbuf, offset, ms, t, c, scan, pos, length)
      decreases if scan < |nbuf| then |nbuf| - scan - length + 1 else 0
    {
      ms, c, t, scan, pos, length := NextStop(psa, nbuf, offset, ms, c, scan, pos, length, t);
    }
  }

  /** Between two turns of the loop, with the last stop at scan. */
  ghost predicate Looking(psa: PSA, nbuf: Bytes, offset: int, ms: seq<Match>, t: Trace, c: Cursor, scan: int, pos: int,
      length: int)
    requires psa.Valid()
  {
    && InRange(psa.buf, nbuf, c, scan, pos) && length >= 0 && Scanned(psa, nbuf, offset, ms, t, c)
    && if scan == |nbuf| then c.scan == scan
       else
         && scan + length <= |nbuf| && (scan == length == 0 || length > 0) && c.offset + c.scan >= 0
         && Walked(psa, nbuf, c.offset, t.froms[|ms|], scan + length)
  }

  /** The body of the loop: on to the next stop, and a match for it unless it is the old alignment. */
  method NextStop(psa: PSA, nbuf: Bytes, offset: int, ms: seq<Match>, c: Cursor, scan: int, pos: int, length: int,
      ghost t: Trace)
    returns (ms': seq<Match>, c': Cursor, ghost t': Trace, scan': int, pos': int, length': int)
    requires psa.Valid() && Looking(psa, nbuf, offset, ms, t, c, scan, pos, length) && scan < |nbuf|
    ensures Looking(psa, nbuf, offset, ms', t', c', scan', pos', length')
    ensures scan' < |nbuf| ==> scan' + length' > scan + length
  {
    ghost var from, end := t.froms[|ms|], 0;
    var better;
    scan', pos', length', better, end := FindBetter(psa, nbuf, c.offset, from, scan + length, pos, length);
    if better {
      assert FirstBetter(psa, nbuf, c.offset, t.froms[|ms|], scan', pos', end);
      ms', c', t' := RecordMatch(psa, nbuf, offset, ms, c, scan', pos', end, t);
    } else {
      ms', c', t' := ms, c, t;
    }
  }

  ghost predicate Walked(psa: PSA, nbuf: Bytes, off: int, from: int, at: int)
    requires psa.Valid()
  {
    from <= at && WalksTo(psa, nbuf, off, from, at)
  }

  /** The first stop from start on, and whether it is better than the old alignment. */
  method FindBetter(psa: PSA, nbuf: Bytes, off: int, ghost from: int, start: int, pos0: int, length0: int)
    returns (scan: int, pos: int, length: int, better: bool, ghost end: int)
    requires psa.Valid() && 0 <= start <= |nbuf| && (start < |nbuf| ==> start + off >= 0)
    requires Walked(psa, nbuf, off, from, start)
    ensures start <= scan <= |nbuf|
    ensures if scan < |nbuf| then 0 < length <= |nbuf| - scan && 0 <= pos && pos + length <= |psa.buf| else better
    ensures start == |nbuf| ==> pos == pos0 && length == length0
    ensures start < |nbuf| ==> 0 <= pos < |psa.buf| && length >= 0
    ensures better ==> FirstBetter(psa, nbuf, off, from, scan, pos, end)
    ensures end == scan + length && (!better ==> Walked(psa, nbuf, off, from, end))
  {
    var oldscore;
    scan, pos, length, oldscore := FindStop(psa, nbuf, off, start, pos0, length0);
    StopFits(psa, nbuf, off, scan, pos, length);
    better, end := length != oldscore || scan == |nbuf|, scan + length;
    StopTells(psa, nbuf, off, from, start, scan, pos, length, end, oldscore, better);
  }

  /** The next stop is the old alignment, or better, or the end of the block. */
  lemma StopTells(psa: PSA, nbuf: Bytes, off: int, from: int, mid: int, scan: int, pos: int, length: int, end: int,
      score: int, better: bool)
    requires psa.Valid() && Walked(psa, nbuf, off, from, mid) && mid <= scan <= |nbuf| && end == scan + length
      && NoStopIn(psa, nbuf, off, mid, scan) && better == (length != score || scan == |nbuf|)
    requires scan < |nbuf| ==> 0 < length && StopsAt(psa, nbuf, off, scan, pos, length)
    requires scan < |nbuf| ==> score == Agree(psa.buf, nbuf, off, scan, end)
    ensures better ==> FirstBetter(psa, nbuf, off, from, scan, pos, end)
    ensures !better ==> Walked(psa, nbuf, off, from, end)
  {
    if !better {
      assert PassesOver(psa, nbuf, off, mid, end);
    } else if scan < |nbuf| {
      assert BeatsAlignment(psa, nbuf, off, scan, pos, end);
    }
  }

  method RecordMatch(psa: PSA, nbuf: Bytes, offset: int, ms: seq<Match>, c: Cursor, scan: int, pos: int,
      ghost end: int, ghost t: Trace)
    returns (ms': seq<Match>, c': Cursor, ghost t': Trace)
    requires psa.Valid() && InRange(psa.buf, nbuf, c, scan, pos) && nbuf != []
    requires Scanned(psa, nbuf, offset, ms, t, c)
    requires FirstBetter(psa, nbuf, c.offset, t.froms[|ms|], scan, pos, end)
    ensures Scanned(psa, nbuf, offset, ms', t', c') && ms' != [] && t'.froms[|ms'|] == end
    ensures InRange(psa.buf, nbuf, c', scan, pos) && (scan == |nbuf| ==> c'.scan == scan) && c'.offset + c'.scan >= 0
  {
    var a := SettleMatch(psa.buf, nbuf, c, scan, pos);
    SettledFits(psa.buf, nbuf, c, a);
    TilesExtend(ms, MatchOf(c, a, offset), |psa.buf|, offset);
    ExplainsOneMore(psa, nbuf, offset, t, ms, a, end);
    c' := NextCursor(a);
    ms', t' := ms + [MatchOf(c, a, offset)], Longer(t, a, end);
  }

  function Longer(t: Trace, a: Anchor, end: int): Trace {
    Trace(t.cursors + [NextCursor(a)], t.anchors + [a], t.froms + [end])
  }

  lemma StopFits(psa: PSA, nbuf: Bytes, off: int, scan: int, pos: int, length: int)
    requires psa.Valid()
    ensures StopsAt(psa, nbuf, off, scan, pos, length) ==>
      0 < length <= |nbuf| - scan && 0 <= pos && pos + length <= |psa.buf|
  {
    if StopsAt(psa, nbuf, off, scan, pos, length) {
      BestFits(psa, nbuf[scan..], pos, length);
    }
  }

  lemma ExplainsOneMore(psa: PSA, nbuf: Bytes, offset: int, t: Trace, ms: seq<Match>, a: Anchor, end: int)
    requires psa.Valid() && Explains(psa, nbuf, offset, t, ms)
    requires Settled(psa.buf, nbuf, t.cursors[|ms|], a)
    requires FirstBetter(psa, nbuf, t.cursors[|ms|].offset, t.froms[|ms|], a.scan, a.pos, end)
    ensures Explains(psa, nbuf, offset, Longer(t, a, end), ms + [MatchOf(t.cursors[|ms|], a, offset)])
  {
    forall k | 0 <= k < |ms| + 1
      ensures Justified(psa, nbuf, offset, Longer(t, a, end), ms + [MatchOf(t.cursors[|ms|], a, offset)], k)
    {
      if k < |ms| {
        assert Justified(psa, nbuf, offset, t, ms, k);
      }
    }
  }

  lemma TilesExtend(ms: seq<Match>, m: Match, oldSize: int, start: int)
    requires Tiles(ms, oldSize, start, m.addNewStart) && InOld(m, oldSize)
    requires m.addNewStart + m.addLength <= m.copyEnd
    ensures Tiles(ms + [m], oldSize, start, m.copyEnd)
  {
    forall k | 0 <= k < |ms| + 1 ensures TileAt(ms + [m], start, k) && InOld((ms + [m])[k], oldSize) {
      if k < |ms| {
        assert TileAt(ms, start, k);
      }
    }
  }
}
