/** The start of the suffix sort: suffixes in buckets by their first byte. */
module QsufBuckets {
  import opened Common
  import opened SuffixOrder
  import opened QsufPass

  function CountOf(text: Bytes, c: int): nat {
    if text == [] then 0 else CountOf(text[..|text| - 1], c) + if text[|text| - 1] == c then 1 else 0
  }

  /** How many bytes are at most c: the last position of c's bucket. */
  function Upto(text: Bytes, c: int): nat {
    if text == [] then 0 else Upto(text[..|text| - 1], c) + if text[|text| - 1] <= c then 1 else 0
  }

  lemma {:induction false} UptoStep(text: Bytes, c: int)
    ensures Upto(text, c) == Upto(text, c - 1) + CountOf(text, c) && Upto(text, c) <= |text|
    ensures c < 0 ==> Upto(text, c) == 0
  {
    if text != [] {
      UptoStep(text[..|text| - 1], c);
    }
  }

  lemma {:induction false} UptoMonotone(text: Bytes, c: int, d: int)
    requires c <= d
    ensures Upto(text, c) <= Upto(text, d)
  {
    if text != [] {
      UptoMonotone(text[..|text| - 1], c, d);
    }
  }

  lemma {:induction false} UptoAll(text: Bytes, c: int)
    requires c >= 255
    ensures Upto(text, c) == |text|
  {
    if text != [] {
      UptoAll(text[..|text| - 1], c);
    }
  }

  lemma {:induction false} CountPrefix(text: Bytes, i: nat, j: nat, c: int)
    requires i <= j <= |text|
    ensures CountOf(text[..i], c) <= CountOf(text[..j], c)
    ensures i < j && text[i] == c ==> CountOf(text[..i], c) < CountOf(text[..j], c)
    decreases j
  {
    if i < j {
      assert text[..j][..j - 1] == text[..j - 1];
      CountPrefix(text, i, j - 1, c);
    }
  }

  /** Where counting sort puts suffix i. */
  function Slot(text: Bytes, i: nat): int
    requires i < |text|
  {
    Upto(text, text[i] as int - 1) + CountOf(text[..i], text[i]) + 1
  }

  lemma SlotInBucket(text: Bytes, i: nat)
    requires i < |text|
    ensures Upto(text, text[i] as int - 1) < Slot(text, i) <= Upto(text, text[i]) <= |text|
  {
    UptoStep(text, text[i]);
    CountPrefix(text, i, |text|, text[i]);
    assert text[..|text|] == text;
  }

  lemma SlotsDiffer(text: Bytes, i: nat, j: nat)
    requires i < |text| && j < |text| && i != j
    ensures Slot(text, i) != Slot(text, j)
    ensures text[i] < text[j] ==> Slot(text, i) < Slot(text, j)
  {
    SlotInBucket(text, i);
    SlotInBucket(text, j);
    if text[i] < text[j] {
      UptoMonotone(text, text[i], text[j] as int - 1);
    } else if text[j] < text[i] {
      UptoMonotone(text, text[j], text[i] as int - 1);
    } else if i < j {
      CountPrefix(text, i, j, text[i]);
    } else {
      CountPrefix(text, j, i, text[i]);
    }
  }

  /** Every position but the first is the slot of one suffix. */
  lemma SlotFilled(text: Bytes, p: int) returns (i: nat)
    requires 0 < p <= |text|
    ensures i < |text| && Slot(text, i) == p
  {
    var slots := seq(|text|, i requires 0 <= i < |text| => Slot(text, i) - 1);
    forall i, j | 0 <= i < j < |slots| ensures slots[i] != slots[j] {
      SlotsDiffer(text, i, j);
    }
    forall i | 0 <= i < |slots| ensures 0 <= slots[i] < |slots| {
      SlotInBucket(text, i);
    }
    DistinctCover(slots, p - 1);
    i :| 0 <= i < |slots| && slots[i] == p - 1;
  }

  // ----- the order this makes

  /** The first byte as a key; the empty suffix comes first. */
  function FirstKeys(text: Bytes): (k: seq<int>)
    ensures |k| == |text| + 1
  {
    seq(|text| + 1, i requires 0 <= i <= |text| => if i < |text| then text[i] as int else -1)
  }

  lemma FirstKeysOrder(text: Bytes)
    ensures Orders(FirstKeys(text), text, 1)
  {
  }

  ghost predicate Filled(text: Bytes, q: seq<int>) {
    |q| == |text| + 1 && q[0] == |text| && forall i :: 0 <= i < |text| ==> InSlot(text, q, i)
  }

  ghost predicate InSlot(text: Bytes, q: seq<int>, i: nat)
    requires i < |text|
  {
    Slot(text, i) < |q| && 0 <= Slot(text, i) && q[Slot(text, i)] == i
  }

  ghost predicate BucketRanks(text: Bytes, v: seq<int>) {
    |v| == |text| + 1 && v[|text|] == 0 && forall i :: 0 <= i < |text| ==> v[i] == Upto(text, text[i])
  }

  lemma AtPosition(text: Bytes, q: seq<int>, p: int)
    requires Filled(text, q) && 0 < p <= |text|
    ensures 0 <= q[p] < |text| && Slot(text, q[p]) == p
    ensures Upto(text, text[q[p]] as int - 1) < p <= Upto(text, text[q[p]]) <= |text|
  {
    var i := SlotFilled(text, p);
    assert InSlot(text, q, i);
    SlotInBucket(text, i);
  }

  /** Positions are in the order of their first bytes. */
  lemma BucketOrder(text: Bytes, q: seq<int>, a: int, b: int)
    requires Filled(text, q) && 0 < a < b <= |text|
    ensures 0 <= q[a] < |text| && 0 <= q[b] < |text| && q[a] != q[b] && text[q[a]] <= text[q[b]]
    ensures b > Upto(text, text[q[a]]) ==> text[q[a]] < text[q[b]]
  {
    AtPosition(text, q, a);
    AtPosition(text, q, b);
    SlotsDiffer(text, q[b], q[a]);
  }

  lemma BucketsIsOrder(text: Bytes, q: seq<int>)
    requires Filled(text, q)
    ensures IsOrder(q)
  {
    forall p | 0 <= p < |q| ensures 0 <= q[p] < |q| {
      if p > 0 {
        AtPosition(text, q, p);
      }
    }
    forall a, b | 0 <= a < b < |q| ensures q[a] != q[b] {
      AtPosition(text, q, b);
      if a > 0 {
        BucketOrder(text, q, a, b);
      }
    }
  }

  lemma BucketsLevel(text: Bytes, q: seq<int>, v: seq<int>)
    requires Filled(text, q) && BucketRanks(text, v)
    ensures Level(q, v, FirstKeys(text))
  {
    BucketsIsOrder(text, q);
    var k := FirstKeys(text);
    forall a, b | 0 <= a < b < |q| ensures k[q[a]] <= k[q[b]] {
      AtPosition(text, q, b);
      if a > 0 {
        BucketOrder(text, q, a, b);
      }
    }
    forall p | 0 <= p < |q| ensures EndAt(q, v, k, p) {
      BucketEnd(text, q, v, p);
    }
  }

  lemma BucketEnd(text: Bytes, q: seq<int>, v: seq<int>, p: int)
    requires Filled(text, q) && BucketRanks(text, v) && IsOrder(q) && 0 <= p < |q|
    ensures EndAt(q, v, FirstKeys(text), p)
  {
    if p == 0 {
      forall b | 0 < b < |q| ensures FirstKeys(text)[q[b]] >= 0 {
        AtPosition(text, q, b);
      }
    } else {
      AtPosition(text, q, p);
      var e := v[q[p]];
      AtPosition(text, q, e);
      if p < e {
        BucketOrder(text, q, p, e);
        if text[q[p]] < text[q[e]] {
          UptoMonotone(text, text[q[p]], text[q[e]] as int - 1);
        }
      }
      forall b | e < b < |q| ensures text[q[b]] > text[q[p]] && 0 <= q[b] < |text| {
        BucketOrder(text, q, p, b);
      }
    }
  }

  // ----- the loops

  /** Byte counts, summed up and moved by one: where each bucket begins. */
  method BucketStarts(text: Bytes) returns (buckets: array<int>)
    ensures fresh(buckets) && buckets.Length == 256 && forall c :: 0 <= c < 256 ==> buckets[c] == Upto(text, c - 1)
  {
    buckets := new int[256](_ => 0);
    for i := 0 to |text|
      invariant forall c :: 0 <= c < 256 ==> buckets[c] == CountOf(text[..i], c)
    {
      assert text[..i + 1][..i] == text[..i];
      buckets[text[i]] := buckets[text[i]] + 1;
    }
    assert text[..|text|] == text;
    UptoStep(text, 0);
    UptoStep(text, -1);
    for i := 1 to 256
      invariant forall c :: 0 <= c < i ==> buckets[c] == Upto(text, c)
      invariant forall c :: i <= c < 256 ==> buckets[c] == CountOf(text, c)
    {
      UptoStep(text, i);
      buckets[i] := buckets[i] + buckets[i - 1];
    }
    forall c | 1 <= c < 256 {
      buckets[c] := buckets[c - 1];
    }
    buckets[0] := 0;
  }

  /** Every suffix goes to the next slot of its bucket, after which each bucket's entry is its last position. */
  method FillBuckets(text: Bytes, buckets: array<int>, index: array<int>)
    requires buckets != index && buckets.Length == 256 && index.Length == |text| + 1
    requires forall c :: 0 <= c < 256 ==> buckets[c] == Upto(text, c - 1)
    modifies buckets, index
    ensures forall c :: 0 <= c < 256 ==> buckets[c] == Upto(text, c)
    ensures Filled(text, index[..])
  {
    for i := 0 to |text|
      invariant forall c :: 0 <= c < 256 ==> buckets[c] == Upto(text, c - 1) + CountOf(text[..i], c)
      invariant forall j :: 0 <= j < i ==> InSlot(text, index[..], j)
    {
      assert text[..i + 1][..i] == text[..i];
      SlotInBucket(text, i);
      forall j | 0 <= j < i ensures InSlot(text, index[..], j) && Slot(text, j) != Slot(text, i) {
        SlotsDiffer(text, i, j);
      }
      ghost var before := index[..];
      assert buckets[text[i]] + 1 == Slot(text, i);
      buckets[text[i]] := buckets[text[i]] + 1;
      index[buckets[text[i]]] := i;
      forall j | 0 <= j < i ensures InSlot(text, index[..], j) {
        assert InSlot(text, before, j);
      }
    }
    assert text[..|text|] == text;
    forall c | 0 <= c < 256 ensures buckets[c] == Upto(text, c) {
      UptoStep(text, c);
    }
    ghost var before := index[..];
    index[0] := |text|;
    forall j | 0 <= j < |text| ensures InSlot(text, index[..], j) {
      assert InSlot(text, before, j);
      SlotInBucket(text, j);
    }
  }

  method RankBuckets(text: Bytes, buckets: array<int>, v: array<int>)
    requires buckets != v && buckets.Length == 256 && v.Length == |text| + 1
    requires forall c :: 0 <= c < 256 ==> buckets[c] == Upto(text, c)
    modifies v
    ensures BucketRanks(text, v[..])
  {
    for i := 0 to |text|
      invariant forall j :: 0 <= j < i ==> v[j] == Upto(text, text[j])
    {
      v[i] := buckets[text[i]];
    }
    v[|text|] := 0;
  }

  /** The bucket of c has one suffix. */
  predicate OneIn(text: Bytes, c: int) {
    Upto(text, c) == Upto(text, c - 1) + 1
  }

  /** Buckets with one suffix are marked as sorted, except that of byte 0, which the first pass will mark. */
  method MarkBuckets(text: Bytes, buckets: array<int>, index: array<int>)
    requires buckets != index && buckets.Length == 256 && index.Length == |text| + 1
    requires forall c :: 0 <= c < 256 ==> buckets[c] == Upto(text, c)
    modifies index
    ensures index[0] == -1 && forall c :: 0 <= c < 256 ==> BucketMarked(text, old(index[..]), index[..], c)
  {
    ghost var before := index[..];
    forall c | 0 <= c < 256 ensures BucketState(text, before, index[..], c, false)
      && (c == 0 ==> BucketMarked(text, before, index[..], c)) {
      UptoStep(text, c);
    }
    for i := 1 to 256
      invariant forall c :: 0 <= c < i ==> BucketMarked(text, before, index[..], c)
      invariant forall c :: i <= c < 256 ==> BucketState(text, before, index[..], c, false)
    {
      ghost var prev := index[..];
      assert BucketState(text, before, prev, i, false);
      if buckets[i] == buckets[i - 1] + 1 {
        index[buckets[i]] := -1;
      }
      forall c | 0 <= c < i + 1 ensures BucketMarked(text, before, index[..], c) {
        assert c < i ==> BucketMarked(text, before, prev, c);
        BucketsApart(text, c, i);
      }
      forall c | i < c < 256 ensures BucketState(text, before, index[..], c, false) {
        assert BucketState(text, before, prev, c, false);
        BucketsApart(text, c, i);
      }
    }
    ghost var prev := index[..];
    index[0] := -1;
    forall c | 0 <= c < 256 ensures BucketMarked(text, before, index[..], c) {
      assert BucketMarked(text, before, prev, c);
    }
  }

  lemma BucketsApart(text: Bytes, c: int, d: int)
    ensures c < d ==> Upto(text, c) <= Upto(text, d - 1)
    ensures c > d ==> Upto(text, d) <= Upto(text, c - 1)
  {
    if c < d {
      UptoMonotone(text, c, d - 1);
    } else if d < c {
      UptoMonotone(text, d, c - 1);
    }
  }

  /** The bucket of c, before or after its turn to be marked. */
  ghost predicate BucketState(text: Bytes, before: seq<int>, after: seq<int>, c: int, done: bool) {
    && |before| == |after| == |text| + 1 && 0 <= Upto(text, c - 1) <= Upto(text, c) <= |text|
    && forall p :: Upto(text, c - 1) < p <= Upto(text, c) ==>
      after[p] == if done && OneIn(text, c) && c > 0 then -1 else before[p]
  }

  ghost predicate BucketMarked(text: Bytes, before: seq<int>, after: seq<int>, c: int) {
    BucketState(text, before, after, c, true)
  }

  // ----- the first scan

  /** A bucket is one step of the first scan. */
  lemma BucketStep(text: Bytes, q: seq<int>, v: seq<int>, index: seq<int>, c: int)
    requires Filled(text, q) && BucketRanks(text, v) && IsOrder(q) && 0 <= c < 256 && BucketMarked(text, q, index, c)
    requires Upto(text, c - 1) < Upto(text, c)
    ensures StepOk(index, q, v, 1, Upto(text, c - 1) + 1, Upto(text, c) + 1)
  {
    var a, b := Upto(text, c - 1) + 1, Upto(text, c) + 1;
    forall p | a <= p < b ensures v[q[p]] == b - 1 && 0 <= q[p] && q[p] + 1 < |q| {
      AtPosition(text, q, p);
      BucketsApart(text, text[q[p]], c);
    }
    if OneIn(text, c) {
      forall p | 0 <= p < |q| && p != a ensures v[q[p]] != v[q[a]] {
        if p > 0 {
          AtPosition(text, q, p);
          BucketsApart(text, text[q[p]], c);
        }
      }
    }
  }

  /** Where a lone bucket of byte 0 starts: the one finished position that the first marks leave out. */
  function Forgotten(text: Bytes): int {
    if OneIn(text, 0) then 1 else -1
  }

  /** The marks cover finished positions only, and all of them but a lone bucket of byte 0. */
  lemma FirstStops(text: Bytes, q: seq<int>, v: seq<int>, index: seq<int>) returns (stops: seq<int>)
    requires Filled(text, q) && BucketRanks(text, v) && |index| == |q| && index[0] == -1
    requires forall c :: 0 <= c < 256 ==> BucketMarked(text, q, index, c)
    ensures Covered(index, q, v, 1, stops)
    ensures forall p :: 0 <= p < |q| && p != Forgotten(text) ==> (Alone(q, v, p) <==> UnderRun(index, stops, p))
    ensures OneIn(text, 0) ==> index[1] >= 0 && Alone(q, v, 1) && !UnderRun(index, stops, 1)
  {
    stops := BucketStops(text, q, v, index);
    forall p | 0 <= p < |q| && p != Forgotten(text) ensures Alone(q, v, p) <==> UnderRun(index, stops, p) {
      FinishedIffMarked(index, q, v, 1, stops, Forgotten(text), p);
    }
    if OneIn(text, 0) {
      LoneZero(text, q, v, index, stops);
    }
  }

  lemma LoneZero(text: Bytes, q: seq<int>, v: seq<int>, index: seq<int>, stops: seq<int>)
    requires Filled(text, q) && BucketRanks(text, v) && Covered(index, q, v, 1, stops)
      && BucketMarked(text, q, index, 0) && OneIn(text, 0)
    requires index[0] == -1
    ensures index[1] >= 0 && Alone(q, v, 1) && !UnderRun(index, stops, 1)
  {
    UptoStep(text, -1);
    AtPosition(text, q, 1);
    assert index[1] == q[1];
    forall p | 0 <= p < |q| && p != 1 ensures v[q[p]] != v[q[1]] {
      if p > 0 {
        AtPosition(text, q, p);
        BucketsApart(text, text[q[p]], 0);
        AtPosition(text, q, 1);
        BucketsApart(text, text[q[1]], 0);
      }
    }
    forall i | 0 <= i < |stops| - 1 ensures !InRun(index, stops, 1, i) {
      assert StepAt(index, q, v, 1, stops, i);
    }
  }

  lemma BucketStops(text: Bytes, q: seq<int>, v: seq<int>, index: seq<int>) returns (stops: seq<int>)
    requires Filled(text, q) && BucketRanks(text, v) && |index| == |q| && index[0] == -1
    requires forall c :: 0 <= c < 256 ==> BucketMarked(text, q, index, c)
    ensures Covered(index, q, v, 1, stops) && Tight(index, stops, Forgotten(text))
    ensures |stops| > 1 && stops[1] == 1
  {
    BucketsIsOrder(text, q);
    forall p | 0 < p < |q| ensures v[q[p]] != v[q[0]] {
      AtPosition(text, q, p);
    }
    stops := [0];
    CoverGrows(index, q, v, 1, stops, 0, 1);
    TightGrows(index, stops, Forgotten(text), 0, 1);
    stops := stops + [1];
    UptoStep(text, -1);
    var c := 0;
    while c < 256
      invariant 0 <= c <= 256 && CoveredTo(index, q, v, 1, stops, Upto(text, c - 1) + 1)
      invariant Tight(index, stops, Forgotten(text)) && |stops| > 1 && stops[1] == 1
    {
      UptoStep(text, c);
      if Upto(text, c - 1) < Upto(text, c) {
        BucketStep(text, q, v, index, c);
        CoverGrows(index, q, v, 1, stops, Upto(text, c - 1) + 1, Upto(text, c) + 1);
        TightGrows(index, stops, Forgotten(text), Upto(text, c - 1) + 1, Upto(text, c) + 1);
        stops := stops + [Upto(text, c) + 1];
      }
      c := c + 1;
    }
    UptoAll(text, 255);
  }
}
