/** The suffix sort as a whole. */
module Qsufsort {
  import opened Common
  import opened SuffixSearch
  import opened SuffixOrder
  import opened QsufPass
  import opened QsufBuckets
  import opened QsufSequential

  method InitialSort(text: Bytes) returns (index: array<int>, v: array<int>, ghost q: seq<int>, ghost stops: seq<int>)
    ensures fresh(index) && fresh(v) && index != v && Ordered(text, index[..], v[..], q, FirstKeys(text), 1, stops)
  {
    index, v := new int[|text| + 1](_ => 0), new int[|text| + 1](_ => 0);
    var buckets := BucketStarts(text);
    FillBuckets(text, buckets, index);
    q := index[..];
    RankBuckets(text, buckets, v);
    assert index[..] == q;
    MarkBuckets(text, buckets, index);
    BucketsLevel(text, q, v[..]);
    FirstKeysOrder(text);
    stops := FirstStops(text, q, v[..], index[..]);
  }

  /** The first entry covers everything: every suffix is alone at its rank. */
  lemma AllAlone(text: Bytes, index: seq<int>, v: seq<int>, q: seq<int>, k: seq<int>, h: nat, stops: seq<int>, p: int)
    requires Ordered(text, index, v, q, k, h, stops) && index[0] == -(|text| + 1) && 0 <= p < |q|
    ensures Alone(q, v, p) && v[q[p]] == p
  {
    assert StepAt(index, q, v, h, stops, 0);
    AloneIsPlaced(q, v, k, p);
  }

  /**
   * qsufsort: every suffix, the empty one included, in lexicographic order; without that
   * one, the suffix array of the text.
   */
  method Sort(text: Bytes) returns (index: array<int>)
    ensures |index[..]| == |text| + 1 && index[0] == |text| && IsSuffixArray(index[1..], text)
  {
    var v;
    ghost var q, stops;
    index, v, q, stops := InitialSort(text);
    var v2 := new int[v.Length](s requires 0 <= s < v.Length reads v => v[s]);
    assert v2[..] == v[..];
    ghost var k := FirstKeys(text);
    var h := 1;
    while index[0] != -(|text| + 1)
      invariant v2[..] == v[..] && Ordered(text, index[..], v[..], q, k, h, stops)
      decreases index[0] != -(|text| + 1), |text| + 1 - h
    {
      ghost var next := Doubled(v[..], h);
      q, stops := Pass(text, index, v, v2, h, q, k, stops);
      k, h := next, h + h;
    }
    forall p | 0 <= p < |q| ensures v[q[p]] == p {
      AllAlone(text, index[..], v[..], q, k, h, stops, p);
    }
    ghost var marks := index[..];
    WriteOut(index, v, q);
    InOrder(text, marks, v[..], q, k, h, stops);
  }

  /** Every suffix to the position that is its rank. */
  method WriteOut(index: array<int>, v: array<int>, ghost q: seq<int>)
    requires index != v && index.Length == v.Length == |q| && IsOrder(q) && forall p :: 0 <= p < |q| ==> v[q[p]] == p
    modifies index
    ensures index[..] == q
  {
    forall s | 0 <= s < |q| ensures 0 <= v[s] < |q| && q[v[s]] == s {
      var p := PositionOf(q, s);
    }
    for i := 0 to index.Length
      invariant forall s :: 0 <= s < i ==> index[v[s]] == s
    {
      index[v[i]] := i;
    }
    forall p | 0 <= p < |q| ensures index[p] == q[p] {
      assert index[v[q[p]]] == q[p];
    }
  }

  lemma InOrder(text: Bytes, index: seq<int>, v: seq<int>, q: seq<int>, k: seq<int>, h: nat, stops: seq<int>)
    requires Ordered(text, index, v, q, k, h, stops) && index[0] == -(|text| + 1)
    ensures q[0] == |text| && IsSuffixArray(q[1..], text)
  {
    forall a, b | 0 <= a < b < |q| ensures Before(text, q[a], q[b]) {
      AllAlone(text, index, v, q, k, h, stops, a);
      RanksAt(q, v, k, a, b);
      HLessIsBefore(text, q[a], q[b], h);
    }
    OrderIsSuffixArray(text, q);
  }

  /** All suffixes in order are the empty one and the suffix array. */
  lemma OrderIsSuffixArray(text: Bytes, q: seq<int>)
    requires |q| == |text| + 1 && IsOrder(q) && forall a, b :: 0 <= a < b < |q| ==> Before(text, q[a], q[b])
    ensures q[0] == |text| && IsSuffixArray(q[1..], text)
  {
    var p := PositionOf(q, |text|);
    var rest := q[1..];
    forall i | 0 <= i < |rest| ensures 0 <= rest[i] < |text| {
      assert rest[i] == q[i + 1] != q[0];
    }
    SortedIsSuffixArray(rest, text);
  }

  /** Every suffix to its rank, once all ranks are different. */
  lemma RankedInOrder(text: Bytes, index: seq<int>, v: seq<int>, q: seq<int>, h: nat, stops: seq<int>)
    requires Ranked(text, q, v, h) && Covered(index, q, v, h, stops) && index[0] == -(|text| + 1)
    ensures forall p :: 0 <= p < |q| ==> v[q[p]] == p
    ensures q[0] == |text| && IsSuffixArray(q[1..], text)
  {
    assert StepAt(index, q, v, h, stops, 0);
    forall p | 0 <= p < |q| ensures v[q[p]] == p {
      AlonePlaced(text, q, v, h, p);
    }
    forall a, b | 0 <= a < b < |q| ensures Before(text, q[a], q[b]) {
      assert RankRight(text, v, h, q[a], q[b]);
    }
    OrderIsSuffixArray(text, q);
  }

  /**
   * qsufsort with SuffixSortConcurrency 0, its default: one rank array, which is updated while groups are split.
   */
  method SortSequentially(text: Bytes) returns (index: array<int>)
    ensures |index[..]| == |text| + 1 && index[0] == |text| && IsSuffixArray(index[1..], text)
  {
    var v;
    ghost var q, stops;
    index, v, q, stops := InitialSort(text);
    LevelRanked(text, q, v[..], FirstKeys(text), 1);
    var h := 1;
    while index[0] != -(|text| + 1)
      invariant h > 0 && Ranked(text, q, v[..], h) && Covered(index[..], q, v[..], h, stops)
      decreases index[0] != -(|text| + 1), |text| + 1 - h
    {
      q, stops := PassInPlace(text, index, v, h, q, stops);
      h := h + h;
    }
    RankedInOrder(text, index[..], v[..], q, h, stops);
    WriteOut(index, v, q);
  }
}
