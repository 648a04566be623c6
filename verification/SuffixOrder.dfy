/** Orders on the suffixes of a text, by their starts: the full one, and the one that looks at h bytes only. */
module SuffixOrder {
  import opened Common
  import opened SuffixSearch

  // ----- the order of suffixes, by their starts

  /** The suffix at i comes before the suffix at j. */
  predicate Before(text: Bytes, i: int, j: int)
    requires 0 <= i <= |text| && 0 <= j <= |text|
    decreases |text| - j
  {
    j < |text| && (i == |text| || text[i] < text[j] || (text[i] == text[j] && Before(text, i + 1, j + 1)))
  }

  lemma {:induction false} BeforeIsLess(text: Bytes, i: int, j: int)
    requires 0 <= i <= |text| && 0 <= j <= |text|
    ensures Before(text, i, j) <==> Less(text[i..], text[j..])
    decreases |text| - j
  {
    if j < |text| && i < |text| {
      BeforeIsLess(text, i + 1, j + 1);
      assert text[i..][1..] == text[i + 1..] && text[j..][1..] == text[j + 1..];
    }
  }

  lemma {:induction false} BeforeTransitive(text: Bytes, i: int, j: int, k: int)
    requires 0 <= i <= |text| && 0 <= j <= |text| && 0 <= k <= |text|
    requires Before(text, i, j) && Before(text, j, k)
    ensures Before(text, i, k)
    decreases |text| - k
  {
    if i < |text| && text[i] == text[j] && text[j] == text[k] {
      BeforeTransitive(text, i + 1, j + 1, k + 1);
    }
  }

  lemma {:induction false} BeforeTotal(text: Bytes, i: int, j: int)
    requires 0 <= i <= |text| && 0 <= j <= |text|
    ensures i != j ==> Before(text, i, j) || Before(text, j, i)
    decreases |text| - j
  {
    if i < |text| && j < |text| && text[i] == text[j] {
      BeforeTotal(text, i + 1, j + 1);
    }
  }

  lemma {:induction false} BeforeAsymmetric(text: Bytes, i: int, j: int)
    requires 0 <= i <= |text| && 0 <= j <= |text| && Before(text, i, j)
    ensures !Before(text, j, i)
    decreases |text| - j
  {
    if i < |text| && text[i] == text[j] {
      BeforeAsymmetric(text, i + 1, j + 1);
    }
  }

  lemma SortedIsSuffixArray(index: seq<int>, text: Bytes)
    requires |index| == |text| && (forall k :: 0 <= k < |index| ==> 0 <= index[k] < |text|)
    requires forall i, j :: 0 <= i < j < |index| ==> index[i] != index[j]
    requires forall i, j :: 0 <= i < j < |index| ==> Before(text, index[i], index[j])
    ensures IsSuffixArray(index, text)
  {
    forall i, j | 0 <= i < j < |index| ensures Less(text[index[i]..], text[index[j]..]) {
      BeforeIsLess(text, index[i], index[j]);
    }
    forall s | 0 <= s < |text| ensures s in index {
      DistinctCover(index, s);
    }
  }

  // ----- the first h bytes; the end of the text is smaller than any byte

  predicate HLess(text: Bytes, i: int, j: int, h: nat)
    requires 0 <= i <= |text| && 0 <= j <= |text|
    decreases h
  {
    h > 0 && j < |text| && (i == |text| || text[i] < text[j]
      || (text[i] == text[j] && HLess(text, i + 1, j + 1, h - 1)))
  }

  predicate HEq(text: Bytes, i: int, j: int, h: nat)
    requires 0 <= i <= |text| && 0 <= j <= |text|
    decreases h
  {
    h == 0 || (i == |text| && j == |text|) || (i < |text| && j < |text| && text[i] == text[j]
      && HEq(text, i + 1, j + 1, h - 1))
  }

  lemma {:induction false} HTrichotomy(text: Bytes, i: int, j: int, h: nat)
    requires 0 <= i <= |text| && 0 <= j <= |text|
    ensures HEq(text, i, j, h) <==> !HLess(text, i, j, h) && !HLess(text, j, i, h)
    ensures !(HLess(text, i, j, h) && HLess(text, j, i, h))
    decreases h
  {
    if h > 0 && i < |text| && j < |text| {
      HTrichotomy(text, i + 1, j + 1, h - 1);
    }
  }

  /** Suffixes that agree in h bytes are one, or have that many. */
  lemma {:induction false} HEqLong(text: Bytes, i: int, j: int, h: nat)
    requires 0 <= i <= |text| && 0 <= j <= |text| && HEq(text, i, j, h)
    ensures i == j || (i + h <= |text| && j + h <= |text|)
    decreases h
  {
    if h > 0 && i < |text| && j < |text| {
      HEqLong(text, i + 1, j + 1, h - 1);
    }
  }

  lemma {:induction false} HEqSelf(text: Bytes, i: int, h: nat)
    requires 0 <= i <= |text|
    ensures HEq(text, i, i, h)
    decreases h
  {
    if h > 0 && i < |text| {
      HEqSelf(text, i + 1, h - 1);
    }
  }

  /** Looking further does not change a decision. */
  lemma {:induction false} HLessExtends(text: Bytes, i: int, j: int, h: nat, g: nat)
    requires 0 <= i <= |text| && 0 <= j <= |text| && HLess(text, i, j, h)
    ensures HLess(text, i, j, h + g)
    decreases h
  {
    if i < |text| && text[i] == text[j] {
      HLessExtends(text, i + 1, j + 1, h - 1, g);
    }
  }

  /** Where the first h bytes agree, the next g bytes decide. */
  lemma {:induction false} HDoubles(text: Bytes, i: int, j: int, h: nat, g: nat)
    requires 0 <= i && i + h <= |text| && 0 <= j && j + h <= |text| && HEq(text, i, j, h)
    ensures HLess(text, i, j, h + g) <==> HLess(text, i + h, j + h, g)
    ensures HEq(text, i, j, h + g) <==> HEq(text, i + h, j + h, g)
    decreases h
  {
    if h > 0 {
      HDoubles(text, i + 1, j + 1, h - 1, g);
    }
  }

  lemma {:induction false} HLessIsBefore(text: Bytes, i: int, j: int, h: nat)
    requires 0 <= i <= |text| && 0 <= j <= |text| && HLess(text, i, j, h)
    ensures Before(text, i, j)
    decreases h
  {
    if i < |text| && text[i] == text[j] {
      HLessIsBefore(text, i + 1, j + 1, h - 1);
    }
  }

  // ----- the order as numbers

  /** k numbers the suffixes in the order of their first h bytes. */
  ghost predicate Orders(k: seq<int>, text: Bytes, h: nat) {
    && |k| == |text| + 1
    && forall i, j :: 0 <= i <= |text| && 0 <= j <= |text| ==>
      (k[i] < k[j] <==> HLess(text, i, j, h)) && (k[i] == k[j] <==> HEq(text, i, j, h))
  }

  /** Looking at h bytes, then at the h bytes behind them, is looking at 2h bytes. */
  function Doubled(v: seq<int>, h: nat): (k: seq<int>)
    ensures |k| == |v|
  {
    seq(|v|, i requires 0 <= i < |v| => v[i] * |v| + if i + h < |v| then v[i + h] else 0)
  }

  lemma MulOrder(a: int, b: int, x: int, y: int, m: nat)
    requires 0 <= x < m && 0 <= y < m
    ensures a < b ==> a * m + x < b * m + y
    ensures a == b ==> (a * m + x < b * m + y <==> x < y)
    ensures a == b ==> (a * m + x == b * m + y <==> x == y)
  {
    if a < b {
      MulMonotone(a + 1, b, m);
      MulMonotone(a, a, m);
    }
  }

  lemma DoubledOrders(v: seq<int>, text: Bytes, h: nat)
    requires Orders(v, text, h) && forall i :: 0 <= i < |v| ==> 0 <= v[i] <= |text|
    ensures Orders(Doubled(v, h), text, h + h)
  {
    forall i, j | 0 <= i <= |text| && 0 <= j <= |text|
      ensures (Doubled(v, h)[i] < Doubled(v, h)[j] <==> HLess(text, i, j, h + h))
        && (Doubled(v, h)[i] == Doubled(v, h)[j] <==> HEq(text, i, j, h + h))
    {
      DoubledAt(v, text, h, i, j);
    }
  }

  lemma DoubledAt(v: seq<int>, text: Bytes, h: nat, i: int, j: int)
    requires Orders(v, text, h) && (forall i :: 0 <= i < |v| ==> 0 <= v[i] <= |text|) && 0 <= i <= |text|
      && 0 <= j <= |text|
    ensures Doubled(v, h)[i] < Doubled(v, h)[j] <==> HLess(text, i, j, h + h)
    ensures Doubled(v, h)[i] == Doubled(v, h)[j] <==> HEq(text, i, j, h + h)
  {
    var m, x, y := |v|, if i + h < |v| then v[i + h] else 0, if j + h < |v| then v[j + h] else 0;
    MulOrder(v[i], v[j], x, y, m);
    MulOrder(v[j], v[i], y, x, m);
    HTrichotomy(text, i, j, h + h);
    if v[i] < v[j] {
      HLessExtends(text, i, j, h, h);
    } else if v[j] < v[i] {
      assert HLess(text, j, i, h);
      HLessExtends(text, j, i, h, h);
      HTrichotomy(text, j, i, h + h);
    } else if i == j {
      HEqSelf(text, i, h + h);
    } else {
      HEqLong(text, i, j, h);
      HDoubles(text, i, j, h, h);
    }
  }
}
