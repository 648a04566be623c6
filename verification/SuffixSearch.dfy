/**
 * The longest-match lookup of bsdiff: matchlen and search over one suffix array, and the partitioned array above them.
 */
module SuffixSearch {
  import opened Common

  /** bytes.Compare(a, b) < 0: lexicographic, a proper prefix comes first. */
  predicate Less(a: Bytes, b: Bytes) {
    b != [] && (a == [] || a[0] < b[0] || (a[0] == b[0] && Less(a[1..], b[1..])))
  }

  /** Number of bytes common to the heads of a and b. */
  function Lcp(a: Bytes, b: Bytes): (n: nat)
    ensures n <= |a| && n <= |b|
  {
    if a == [] || b == [] || a[0] != b[0] then 0 else 1 + Lcp(a[1..], b[1..])
  }

  lemma {:induction false} LcpAgrees(a: Bytes, b: Bytes)
    ensures a[..Lcp(a, b)] == b[..Lcp(a, b)]
    ensures Lcp(a, b) < |a| && Lcp(a, b) < |b| ==> a[Lcp(a, b)] != b[Lcp(a, b)]
  {
    if a != [] && b != [] && a[0] == b[0] {
      LcpAgrees(a[1..], b[1..]);
      var n := Lcp(a[1..], b[1..]);
      assert a[..n + 1] == [a[0]] + a[1..][..n];
      assert b[..n + 1] == [b[0]] + b[1..][..n];
    }
  }

  lemma {:induction false} LcpAtLeast(a: Bytes, b: Bytes, n: nat)
    requires n <= |a| && n <= |b| && a[..n] == b[..n]
    ensures Lcp(a, b) >= n
  {
    if n > 0 {
      assert a[0] == a[..n][0] && b[0] == b[..n][0];
      assert a[1..][..n - 1] == a[..n][1..] && b[1..][..n - 1] == b[..n][1..];
      LcpAtLeast(a[1..], b[1..], n - 1);
    }
  }

  /** Of two suffixes on the same side of the needle, the nearer one shares at least as much with it. */
  lemma {:induction false} LcpNearerBelow(a: Bytes, b: Bytes, needle: Bytes)
    requires !Less(b, a) && !Less(needle, b)
    ensures Lcp(a, needle) <= Lcp(b, needle)
  {
    if a != [] && needle != [] && a[0] == needle[0] {
      LcpNearerBelow(a[1..], b[1..], needle[1..]);
    }
  }

  lemma {:induction false} LcpNearerAbove(a: Bytes, b: Bytes, needle: Bytes)
    requires !Less(b, a) && !Less(a, needle)
    ensures Lcp(b, needle) <= Lcp(a, needle)
  {
    if b != [] && needle != [] && b[0] == needle[0] {
      LcpNearerAbove(a[1..], b[1..], needle[1..]);
    }
  }

  lemma {:induction false} LessAsymmetric(a: Bytes, b: Bytes)
    requires Less(a, b)
    ensures !Less(b, a)
  {
    if a != [] && a[0] == b[0] {
      LessAsymmetric(a[1..], b[1..]);
    }
  }

  /** index lists every suffix start of text once, in increasing lexicographic order of the suffixes. */
  ghost predicate IsSuffixArray(index: seq<int>, text: Bytes) {
    && |index| == |text|
    && (forall i :: 0 <= i < |index| ==> 0 <= index[i] < |text|)
    && (forall s :: 0 <= s < |text| ==> s in index)
    && (forall i, j :: 0 <= i < j < |index| ==> Less(text[index[i]..], text[index[j]..]))
  }

  method MatchLen(a: Bytes, b: Bytes) returns (i: nat)
    ensures i == Lcp(a, b)
  {
    i := 0;
    while i < |a| && i < |b| && a[i] == b[i]
      invariant i <= |a| && i <= |b|
      invariant Lcp(a, b) == i + Lcp(a[i..], b[i..])
    {
      assert a[i..][1..] == a[i + 1..] && b[i..][1..] == b[i + 1..];
      i := i + 1;
    }
  }

  /** The bisection keeps the needle between suffix st (when st has moved) and suffix en (when en has moved). */
  ghost predicate Brackets(index: seq<int>, text: Bytes, needle: Bytes, st: int, en: int)
    requires IsSuffixArray(index, text)
  {
    && 0 <= st < en <= |index|
    && (st > 0 ==> Less(text[index[st]..], needle))
    && (en < |index| ==> !Less(text[index[en]..], needle))
  }

  lemma NearestIsLongest(index: seq<int>, text: Bytes, needle: Bytes, st: int, en: int, i: int)
    requires IsSuffixArray(index, text) && Brackets(index, text, needle, st, en) && en == st + 1
    requires 0 <= i < |index|
    ensures i <= st ==> Lcp(text[index[i]..], needle) <= Lcp(text[index[st]..], needle)
    ensures i >= en ==> en < |index| && Lcp(text[index[i]..], needle) <= Lcp(text[index[en]..], needle)
  {
    if i < st {
      LessAsymmetric(text[index[i]..], text[index[st]..]);
      LessAsymmetric(text[index[st]..], needle);
      LcpNearerBelow(text[index[i]..], text[index[st]..], needle);
    } else if i > en {
      LessAsymmetric(text[index[en]..], text[index[i]..]);
      LcpNearerAbove(text[index[en]..], text[index[i]..], needle);
    }
  }

  lemma LongestIsAtBracket(index: seq<int>, text: Bytes, needle: Bytes, st: int, en: int)
    requires IsSuffixArray(index, text) && Brackets(index, text, needle, st, en) && en == st + 1
    ensures forall s :: 0 <= s < |text| ==>
      || Lcp(text[s..], needle) <= Lcp(text[index[st]..], needle)
      || (en < |index| && Lcp(text[s..], needle) <= Lcp(text[index[en]..], needle))
  {
    forall s | 0 <= s < |text|
      ensures || Lcp(text[s..], needle) <= Lcp(text[index[st]..], needle)
              || (en < |index| && Lcp(text[s..], needle) <= Lcp(text[index[en]..], needle))
    {
      assert s in index;
      var i :| 0 <= i < |index| && index[i] == s;
      NearestIsLongest(index, text, needle, st, en, i);
    }
  }

  ghost predicate LongestAt(text: Bytes, needle: Bytes, pos: int, n: int) {
    && 0 <= pos < |text|
    && n == Lcp(text[pos..], needle)
    && forall s :: 0 <= s < |text| ==> Lcp(text[s..], needle) <= n
  }

  /** Binary search. Its answer is the longest match over every suffix, not only over those it visited. */
  method SearchOne(index: seq<int>, text: Bytes, needle: Bytes, st: int, en: int) returns (pos: int, n: int)
    requires IsSuffixArray(index, text) && Brackets(index, text, needle, st, en)
    ensures LongestAt(text, needle, pos, n)
    decreases en - st
  {
    if en - st < 2 {
      LongestIsAtBracket(index, text, needle, st, en);
      var x := MatchLen(text[index[st]..], needle);
      if en >= |text| {
        return index[st], x;
      }
      var y := MatchLen(text[index[en]..], needle);
      if x > y {
        return index[st], x;
      }
      return index[en], y;
    }
    var x := st + (en - st) / 2;
    if Less(text[index[x]..], needle) {
      pos, n := SearchOne(index, text, needle, x, en);
    } else {
      pos, n := SearchOne(index, text, needle, st, x);
    }
  }

  ghost predicate Increasing(boundaries: seq<int>, size: int) {
    && |boundaries| > 1 && boundaries[0] == 0 && boundaries[|boundaries| - 1] == size
    && forall j, k :: 0 <= j < k < |boundaries| ==> 0 <= boundaries[j] < boundaries[k] <= size
  }

  /** The stretch of index that belongs to partition i is the suffix array of partition i of buf. */
  ghost predicate PartSorted(buf: Bytes, boundaries: seq<int>, index: seq<int>, i: int)
    requires Increasing(boundaries, |buf|) && 0 <= i < |boundaries| - 1
  {
    && boundaries[i + 1] <= |index|
    && IsSuffixArray(index[boundaries[i]..boundaries[i + 1]], buf[boundaries[i]..boundaries[i + 1]])
  }

  /** The partitioned suffix array: partition i is buf[boundaries[i]..boundaries[i + 1]] with its own array. */
  datatype PSA = PSA(p: nat, buf: Bytes, boundaries: seq<int>, index: seq<int>) {
    ghost predicate Valid() {
      && p > 0 && |boundaries| == p + 1 && |index| == |buf| && Increasing(boundaries, |buf|)
      && (forall i :: 0 <= i < p ==> PartSorted(buf, boundaries, index, i))
    }

    /** All partitions but the last have the size of the whole divided by their number. */
    ghost predicate Even()
      requires Valid()
    {
      forall j :: 0 <= j < p ==> boundaries[j] == j * (|buf| / p)
    }

    ghost predicate InPart(i: int, k: int)
      requires Valid()
    {
      0 <= i < p && boundaries[i] <= k < boundaries[i + 1]
    }

    /** Longest match of the needle at offset k of partition i that stays inside the partition. */
    ghost function MatchAt(i: int, k: int, needle: Bytes): (n: nat)
      requires Valid() && InPart(i, k)
      ensures n <= |needle| && k + n <= |buf|
    {
      Lcp(buf[k..boundaries[i + 1]], needle)
    }

    /** No offset of the partitions before limit matches better than n. */
    ghost predicate NoneBetter(limit: int, needle: Bytes, n: int)
      requires Valid()
    {
      forall i, k :: i < limit && InPart(i, k) ==> MatchAt(i, k, needle) <= n
    }

    /** Best over every offset of every partition, with the match inside one partition. */
    ghost predicate Best(needle: Bytes, pos: int, n: int)
      requires Valid()
    {
      NoneBetter(p, needle, n) && exists i :: InPart(i, pos) && n == MatchAt(i, pos, needle)
    }

    lemma PartAnswer(i: int, needle: Bytes, ppos: int, pn: int)
      requires Valid() && 0 <= i < p && LongestAt(buf[boundaries[i]..boundaries[i + 1]], needle, ppos, pn)
      ensures InPart(i, ppos + boundaries[i]) && MatchAt(i, ppos + boundaries[i], needle) == pn
      ensures forall k :: InPart(i, k) ==> MatchAt(i, k, needle) <= pn
    {
      var part := buf[boundaries[i]..boundaries[i + 1]];
      forall k | InPart(i, k) ensures MatchAt(i, k, needle) == Lcp(part[k - boundaries[i]..], needle) {
        assert part[k - boundaries[i]..] == buf[k..boundaries[i + 1]];
      }
      assert InPart(i, ppos + boundaries[i]);
    }

    method Search(needle: Bytes) returns (pos: int, n: int)
      requires Valid()
      ensures Best(needle, pos, n)
    {
      pos, n := 0, 0;
      ghost var part := 0;
      var i := 0;
      while i < p
        invariant 0 <= i <= p && InPart(part, pos)
        invariant n == 0 || n == MatchAt(part, pos, needle)
        invariant NoneBetter(i, needle, n)
      {
        var st, en := boundaries[i], boundaries[i + 1];
        assert PartSorted(buf, boundaries, index, i);
        var ppos, pn := SearchOne(index[st..en], buf[st..en], needle, 0, en - st);
        PartAnswer(i, needle, ppos, pn);
        if pn > n {
          n := pn;
          pos := ppos + st;
          part := i;
        }
        i := i + 1;
      }
    }

    /** A best match one byte further on loses at most one byte, so the end of the best match never moves back. */
    lemma BestIsMonotone(nbuf: Bytes, scan: int, pos: int, n: int, pos': int, n': int)
      requires Valid() && 0 <= scan < |nbuf|
      requires Best(nbuf[scan..], pos, n) && Best(nbuf[scan + 1..], pos', n')
      ensures n' >= n - 1
    {
      if n >= 2 {
        var i :| InPart(i, pos) && n == MatchAt(i, pos, nbuf[scan..]);
        var here, next := buf[pos..boundaries[i + 1]], buf[pos + 1..boundaries[i + 1]];
        LcpAgrees(here, nbuf[scan..]);
        assert next[..n - 1] == here[..n][1..];
        assert nbuf[scan + 1..][..n - 1] == nbuf[scan..][..n][1..];
        LcpAtLeast(next, nbuf[scan + 1..], n - 1);
        assert InPart(i, pos + 1);
      }
    }
  }

  /** The external sorter: any function that returns the suffix array of each text it is given. */
  ghost predicate SortsSuffixes(sorter: Bytes -> seq<int>) {
    forall text :: IsSuffixArray(sorter(text), text)
  }

  method NewPSA(p: nat, buf: Bytes, sorter: Bytes -> seq<int>) returns (psa: PSA)
    requires 0 < p <= |buf| && SortsSuffixes(sorter)
    ensures psa.Valid() && psa.p == p && psa.buf == buf && psa.Even()
  {
    var boundaries, boundary := [], 0;
    var partitionSize := |buf| / p;
    var i := 0;
    while i < p
      invariant 0 <= i <= p && |boundaries| == i && boundary == i * partitionSize
      invariant forall j :: 0 <= j < i ==> boundaries[j] == j * partitionSize
    {
      boundaries := boundaries + [boundary];
      assert i * partitionSize + partitionSize == (i + 1) * partitionSize;
      boundary := boundary + partitionSize;
      i := i + 1;
    }
    boundaries := boundaries + [|buf|];
    BoundariesTile(|buf|, p, boundaries);
    var index := [];
    i := 0;
    while i < p
      invariant 0 <= i <= p && |index| == boundaries[i]
      invariant forall j :: 0 <= j < i ==> PartSorted(buf, boundaries, index, j)
    {
      var st, en := boundaries[i], boundaries[i + 1];
      var sorted := sorter(buf[st..en]);
      PartsExtend(buf, boundaries, index, i, sorted);
      index := index + sorted;
      i := i + 1;
    }
    psa := PSA(p, buf, boundaries, index);
  }

  lemma PartsExtend(buf: Bytes, boundaries: seq<int>, index: seq<int>, n: int, sorted: seq<int>)
    requires Increasing(boundaries, |buf|) && 0 <= n < |boundaries| - 1 && |index| == boundaries[n]
    requires forall j :: 0 <= j < n ==> PartSorted(buf, boundaries, index, j)
    requires IsSuffixArray(sorted, buf[boundaries[n]..boundaries[n + 1]])
    ensures forall j :: 0 <= j < n + 1 ==> PartSorted(buf, boundaries, index + sorted, j)
  {
    forall j | 0 <= j < n ensures PartSorted(buf, boundaries, index + sorted, j) {
      assert PartSorted(buf, boundaries, index, j);
      assert (index + sorted)[boundaries[j]..boundaries[j + 1]] == index[boundaries[j]..boundaries[j + 1]];
    }
    assert (index + sorted)[boundaries[n]..boundaries[n + 1]] == sorted;
  }

  lemma BoundariesTile(size: nat, p: nat, boundaries: seq<int>)
    requires 0 < p <= size && |boundaries| == p + 1 && boundaries[p] == size
    requires forall j :: 0 <= j < p ==> boundaries[j] == j * (size / p)
    ensures Increasing(boundaries, size)
  {
    forall j, k | 0 <= j < k <= p ensures 0 <= boundaries[j] < boundaries[k] <= size {
      PartitionsFit(size, p, j, k);
    }
  }

  lemma PartitionsFit(size: nat, p: nat, j: nat, k: nat)
    requires 0 <= j < k <= p <= size
    ensures 0 <= j * (size / p) < k * (size / p) <= size
  {
    var q := size / p;
    DivBounds(size, p);
    MulMonotone(j, j + 1, q);
    MulMonotone(j + 1, k, q);
    MulMonotone(k, p, q);
  }
}
