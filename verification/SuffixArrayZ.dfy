/** A suffix sorter: three-way radix quicksort on the suffixes, with insertion sort for small ranges. */
module SuffixArrayZ {
  import opened Common
  import opened SuffixSearch
  import opened SuffixOrder

  const CUTOFF := 16

  predicate SameAt(text: Bytes, a: int, b: int, k: int) {
    0 <= a + k < |text| && 0 <= b + k < |text| && text[a + k] == text[b + k] != 0
  }

  /** The suffixes at a and b agree in their first d bytes, none of them zero, and have that many. */
  predicate Shares(text: Bytes, a: int, b: int, d: nat) {
    0 <= a <= |text| - d && 0 <= b <= |text| - d && forall k :: 0 <= k < d ==> SameAt(text, a, b, k)
  }

  /** What is shared does not decide. */
  lemma {:induction false} SharedPrefix(text: Bytes, a: int, b: int, d: nat)
    requires Shares(text, a, b, d)
    ensures Before(text, a, b) <==> Before(text, a + d, b + d)
  {
    if d > 0 {
      SharedPrefix(text, a, b, d - 1);
      assert SameAt(text, a, b, d - 1);
    }
  }

  // ----- heads: suffixes cut at their first zero byte

  predicate Ends(text: Bytes, a: int)
    requires 0 <= a <= |text|
  {
    a == |text| || text[a] == 0
  }

  /** The suffixes at a and b agree up to their first zero byte or their end. */
  predicate SameHead(text: Bytes, a: int, b: int)
    requires 0 <= a <= |text| && 0 <= b <= |text|
    decreases |text| - b
  {
    if Ends(text, a) || Ends(text, b) then Ends(text, a) && Ends(text, b)
    else text[a] == text[b] && SameHead(text, a + 1, b + 1)
  }

  /** In order, but for what lies behind the first zero byte. */
  predicate InHeadOrder(text: Bytes, a: int, b: int)
    requires 0 <= a <= |text| && 0 <= b <= |text|
  {
    Before(text, a, b) || SameHead(text, a, b)
  }

  ghost predicate DistinctHeads(text: Bytes) {
    forall a, b :: 0 <= a < b < |text| ==> !SameHead(text, a, b)
  }

  lemma {:induction false} SharedHead(text: Bytes, a: int, b: int, d: nat)
    requires Shares(text, a, b, d)
    ensures SameHead(text, a, b) <==> SameHead(text, a + d, b + d)
  {
    if d > 0 {
      SharedHead(text, a, b, d - 1);
      assert SameAt(text, a, b, d - 1);
    }
  }

  /** In a text without zero bytes the head of a suffix is the whole suffix. */
  lemma ZeroFreeHeads(text: Bytes)
    requires forall i :: 0 <= i < |text| ==> text[i] != 0
    ensures DistinctHeads(text)
  {
    forall a, b | 0 <= a < b < |text| ensures !SameHead(text, a, b) {
      LongerHead(text, a, b);
    }
  }

  lemma {:induction false} LongerHead(text: Bytes, a: int, b: int)
    requires 0 <= a < b <= |text| && forall i :: 0 <= i < |text| ==> text[i] != 0
    ensures !SameHead(text, a, b)
    decreases |text| - b
  {
    if b < |text| {
      LongerHead(text, a + 1, b + 1);
    }
  }

  // ----- sets of suffixes

  ghost predicate AllShare(text: Bytes, members: set<int>, d: nat) {
    forall a, b :: a in members && b in members ==> Shares(text, a, b, d)
  }

  ghost predicate SameHeadIn(text: Bytes, a: int, b: int) {
    0 <= a <= |text| && 0 <= b <= |text| && SameHead(text, a, b)
  }

  ghost predicate AllSameHead(text: Bytes, members: set<int>) {
    forall a, b :: a in members && b in members ==> SameHeadIn(text, a, b)
  }

  ghost predicate InsertingIn(text: Bytes, s: seq<int>, lo: int, j: int, i: int)
    requires 0 <= lo <= j <= i < |s|
  {
    && (forall k :: lo <= k <= i ==> 0 <= s[k] <= |text|)
    && (forall a, b :: lo <= a < b <= i && a != j && b != j ==> Before(text, s[a], s[b]))
    && (forall b :: j < b <= i ==> Before(text, s[j], s[b]))
  }

  class SuffixArrayZ {
    /** The text with a zero byte behind it, and its length without. */
    const text: Bytes
    const input: Bytes
    const n: int
    const index: array<int>

    ghost predicate Valid() {
      n == |text| && input == text + [0] && index.Length == n
    }

    /** The positions [lo, hi] hold members. */
    ghost predicate Holds(lo: int, hi: int, members: set<int>)
      reads index
    {
      0 <= lo && hi < index.Length && forall k :: lo <= k <= hi ==> index[k] in members
    }

    ghost predicate AllDistinct()
      reads index
    {
      forall i, j :: 0 <= i < j < index.Length ==> index[i] != index[j]
    }

    ghost predicate Sorted(lo: int, hi: int)
      reads index
    {
      && 0 <= lo && hi < index.Length && (forall k :: lo <= k <= hi ==> 0 <= index[k] <= |text|)
      && forall i, j :: lo <= i < j <= hi ==> Before(text, index[i], index[j])
    }

    ghost predicate HeadSorted(lo: int, hi: int)
      reads index
    {
      && 0 <= lo && hi < index.Length && (forall k :: lo <= k <= hi ==> 0 <= index[k] <= |text|)
      && forall i, j :: lo <= i < j <= hi ==> InHeadOrder(text, index[i], index[j])
    }

    twostate predicate Outside(lo: int, hi: int)
      reads index
    {
      forall k :: 0 <= k < index.Length && !(lo <= k <= hi) ==> index[k] == old(index[k])
    }

    function Key(m: int, d: nat): byte
      requires Valid() && 0 <= m <= n - d
    {
      input[m + d]
    }

    method Exch(i: int, j: int)
      requires 0 <= i < index.Length && 0 <= j < index.Length
      modifies index
      ensures index[i] == old(index[j]) && index[j] == old(index[i])
      ensures forall k :: 0 <= k < index.Length && k != i && k != j ==> index[k] == old(index[k])
    {
      var swap := index[i];
      index[i] := index[j];
      index[j] := swap;
    }

    /** Is the suffix at i before the one at j, given that they agree up to d? */
    method LessFrom(i: int, j: int, d: nat) returns (r: bool)
      requires Valid() && Shares(text, i, j, d)
      ensures r == Before(text, i, j)
    {
      if i == j {
        Irreflexive(i);
        return false;
      }
      SharedPrefix(text, i, j, d);
      var a, b := i + d, j + d;
      while a < n && b < n
        invariant 0 <= a <= n && 0 <= b <= n && a - b == i - j && Before(text, a, b) == Before(text, i, j)
      {
        if input[a] < input[b] {
          return true;
        }
        if input[a] > input[b] {
          return false;
        }
        a, b := a + 1, b + 1;
      }
      r := a > b;
    }

    lemma {:induction false} Irreflexive(i: int)
      requires Valid() && 0 <= i <= n
      ensures !Before(text, i, i)
      decreases n - i
    {
      if i < n {
        Irreflexive(i + 1);
      }
    }

    method Insertion(lo: int, hi: int, d: nat, ghost members: set<int>)
      requires Valid() && 0 <= lo <= n && hi < n && Holds(lo, hi, members) && AllDistinct()
        && AllShare(text, members, d)
      modifies index
      ensures Holds(lo, hi, members) && AllDistinct() && Outside(lo, hi) && Sorted(lo, hi)
    {
      var i := lo;
      while i <= hi
        invariant lo <= i && Holds(lo, hi, members) && AllDistinct() && Outside(lo, hi)
        invariant Sorted(lo, i - 1) && (i <= hi + 1 || i == lo)
      {
        Insert(lo, hi, i, d, members);
        i := i + 1;
      }
    }

    /** [lo, i] is in order but for what is at j, which belongs at j or further down. */
    ghost predicate Inserting(lo: int, j: int, i: int)
      requires 0 <= lo <= j <= i < index.Length
      reads index
    {
      InsertingIn(text, index[..], lo, j, i)
    }

    /** What is at j belongs further down. */
    ghost predicate TooHigh(lo: int, j: int)
      requires Valid() && 0 <= lo <= j < index.Length
      requires j > lo ==> 0 <= index[j] <= |text| && 0 <= index[j - 1] <= |text|
      reads index
    {
      j > lo && Before(text, index[j], index[j - 1])
    }

    /** One step down for the one being inserted. */
    method SwapDown(lo: int, hi: int, j: int, i: int, ghost members: set<int>)
      requires Valid() && 0 <= lo < j <= i <= hi < n && Holds(lo, hi, members) && AllDistinct()
      requires Inserting(lo, j, i) && TooHigh(lo, j)
      modifies index
      ensures Holds(lo, hi, members) && AllDistinct() && Outside(lo, hi) && Inserting(lo, j - 1, i)
    {
      Exch(j, j - 1);
    }

    /** Whether what is at j belongs further down. */
    method BelongsBelow(lo: int, hi: int, j: int, d: nat, ghost members: set<int>) returns (less: bool)
      requires Valid() && 0 <= lo <= j <= hi < n && Holds(lo, hi, members) && AllShare(text, members, d)
      requires forall k :: lo <= k <= hi ==> 0 <= index[k] <= |text|
      ensures less <==> TooHigh(lo, j)
    {
      less := j > lo;
      if less {
        assert index[j] in members && index[j - 1] in members;
        less := LessFrom(index[j], index[j - 1], d);
      }
    }

    /** One turn of the insertion loop. */
    method InsertStep(lo: int, hi: int, j: int, i: int, d: nat, ghost members: set<int>) returns (less: bool)
      requires Valid() && 0 <= lo < j <= i <= hi < n && Holds(lo, hi, members) && AllDistinct()
        && AllShare(text, members, d)
      requires Inserting(lo, j, i) && TooHigh(lo, j)
      modifies index
      ensures Holds(lo, hi, members) && AllDistinct() && Outside(lo, hi) && Inserting(lo, j - 1, i)
      ensures less <==> TooHigh(lo, j - 1)
    {
      SwapDown(lo, hi, j, i, members);
      MembersFit(lo, hi, d, members);
      ghost var now := index[..];
      less := BelongsBelow(lo, hi, j - 1, d, members);
      assert index[..] == now;
    }

    method Insert(lo: int, hi: int, i: int, d: nat, ghost members: set<int>)
      requires Valid() && 0 <= lo <= i <= hi < n && Holds(lo, hi, members) && AllDistinct()
        && AllShare(text, members, d)
      requires Sorted(lo, i - 1)
      modifies index
      ensures Holds(lo, hi, members) && AllDistinct() && Outside(lo, hi) && Sorted(lo, i)
    {
      var j := i;
      MembersFit(lo, hi, d, members);
      InsertionStarts(lo, i);
      ghost var now := index[..];
      var less := BelongsBelow(lo, hi, j, d, members);
      assert index[..] == now;
      while less
        invariant lo <= j <= i && Holds(lo, hi, members) && AllDistinct() && Outside(lo, hi) && Inserting(lo, j, i)
        invariant less <==> TooHigh(lo, j)
        decreases j
      {
        less := InsertStep(lo, hi, j, i, d, members);
        j := j - 1;
      }
      InsertionDone(lo, j, i);
    }

    lemma MembersFit(lo: int, hi: int, d: nat, members: set<int>)
      requires Valid() && 0 <= lo <= hi < n && Holds(lo, hi, members) && AllShare(text, members, d)
      ensures forall k :: lo <= k <= hi ==> 0 <= index[k] <= |text|
    {
      forall k | lo <= k <= hi ensures 0 <= index[k] <= |text| {
        assert Shares(text, index[k], index[k], d);
      }
    }

    lemma InsertionStarts(lo: int, i: int)
      requires Valid() && 0 <= lo <= i < n && Sorted(lo, i - 1) && 0 <= index[i] <= |text|
      ensures Inserting(lo, i, i)
    {
    }

    lemma InsertionDone(lo: int, j: int, i: int)
      requires Valid() && 0 <= lo <= j <= i < n && AllDistinct() && Inserting(lo, j, i)
      requires j == lo || !Before(text, index[j], index[j - 1])
      ensures Sorted(lo, i)
    {
      if j > lo {
        BeforeTotal(text, index[j], index[j - 1]);
        forall a | lo <= a < j ensures Before(text, index[a], index[j]) {
          if a < j - 1 {
            BeforeTransitive(text, index[a], index[j - 1], index[j]);
          }
        }
      }
    }

    // ----- three-way partition

    /** Where the members of a range are once split by their key at depth d. */
    ghost predicate SplitAt(lo: int, lt: int, gt: int, hi: int, d: nat, v: byte, members: set<int>)
      requires Valid() && forall m :: m in members ==> 0 <= m <= n - d
      reads index
    {
      && lo <= lt <= gt <= hi && Holds(lo, hi, members)
      && (forall k :: lo <= k < lt ==> Key(index[k], d) < v)
      && (forall k :: lt <= k <= gt ==> Key(index[k], d) == v)
      && (forall k :: gt < k <= hi ==> Key(index[k], d) > v)
    }

    ghost predicate OneKey(lo: int, hi: int, d: nat, v: byte)
      requires Valid() && 0 <= lo && hi < index.Length
      reads index
    {
      forall k :: lo <= k <= hi ==> 0 <= index[k] <= n - d && Key(index[k], d) == v
    }

    /** The positions before i and behind gt are in their parts. */
    ghost predicate PartWay(lo: int, lt: int, i: int, gt: int, hi: int, d: nat, v: byte)
      requires Valid()
      reads index
    {
      && 0 <= lo <= lt <= i <= gt + 1 <= hi + 1 && hi < index.Length
        && (forall k :: lo <= k <= hi ==> 0 <= index[k] <= n - d)
      && (forall k :: lo <= k < lt ==> Key(index[k], d) < v)
      && (forall k :: lt <= k < i ==> Key(index[k], d) == v)
      && (forall k :: gt < k <= hi ==> Key(index[k], d) > v)
    }

    /** One turn of the partition loop. */
    method PartitionStep(lo: int, lt: int, i: int, gt: int, hi: int, d: nat, v: byte, ghost members: set<int>)
      returns (lt': int, i': int, gt': int)
      requires Valid() && 0 <= lo <= lt < i <= gt <= hi < n && Holds(lo, hi, members) && AllDistinct()
      requires (forall m :: m in members ==> 0 <= m <= n - d) && PartWay(lo, lt, i, gt, hi, d, v)
      modifies index
      ensures lo <= lt' < i' <= gt' + 1 <= hi + 1 && gt' - i' < gt - i
      ensures Holds(lo, hi, members) && AllDistinct() && Outside(lo, hi) && PartWay(lo, lt', i', gt', hi, d, v)
      ensures old(Key(index[i], d)) == v ==> lt' == lt && gt' == gt && Outside(1, 0)
    {
      lt', i', gt' := lt, i, gt;
      var t := Key(index[i], d);
      if t < v {
        Exch(lt, i);
        lt', i' := lt + 1, i + 1;
      } else if t > v {
        Exch(i, gt);
        gt' := gt - 1;
      } else {
        i' := i + 1;
      }
    }

    method Partition(lo: int, hi: int, d: nat, ghost members: set<int>) returns (lt: int, gt: int, v: byte)
      requires Valid() && 0 <= lo < hi < n && Holds(lo, hi, members) && AllDistinct()
      requires forall m :: m in members ==> 0 <= m <= n - d
      modifies index
      ensures SplitAt(lo, lt, gt, hi, d, v, members) && AllDistinct() && Outside(lo, hi)
      ensures v == old(Key(index[lo], d))
      ensures old(OneKey(lo, hi, d, v)) ==> lt == lo && gt == hi && Outside(1, 0)
    {
      lt, gt := lo, hi;
      v := Key(index[lo], d);
      var i := lo + 1;
      while i <= gt
        invariant lo <= lt < i <= gt + 1 <= hi + 1 && Holds(lo, hi, members) && AllDistinct() && Outside(lo, hi)
        invariant old(OneKey(lo, hi, d, v)) ==> lt == lo && gt == hi && Outside(1, 0)
        invariant PartWay(lo, lt, i, gt, hi, d, v)
        decreases gt - i
      {
        lt, i, gt := PartitionStep(lo, lt, i, gt, hi, d, v, members);
      }
    }

    // ----- the recursion

    ghost function WithKey(members: set<int>, d: nat, v: byte): set<int>
      requires Valid() && forall m :: m in members ==> 0 <= m <= n - d
    {
      set m | m in members && Key(m, d) == v
    }

    /** Members with the same key agree one byte further, or have the same head. */
    lemma SameKeyShares(members: set<int>, d: nat, v: byte)
      requires Valid() && AllShare(text, members, d) && (forall m :: m in members ==> 0 <= m <= n - d)
      ensures v > 0 ==> AllShare(text, WithKey(members, d, v), d + 1)
      ensures v == 0 ==> AllSameHead(text, WithKey(members, d, v))
    {
      forall a, b | v == 0 && a in WithKey(members, d, v) && b in WithKey(members, d, v)
        ensures SameHeadIn(text, a, b) {
        SharedHead(text, a, b, d);
      }
      forall a, b | v > 0 && a in WithKey(members, d, v) && b in WithKey(members, d, v)
        ensures Shares(text, a, b, d + 1) {
        assert Shares(text, a, b, d) && a + d < n && b + d < n;
        assert SameAt(text, a, b, d);
      }
    }

    /** A smaller key at depth d decides. */
    lemma KeyDecides(a: int, b: int, d: nat)
      requires Valid() && Shares(text, a, b, d) && Key(a, d) < Key(b, d)
      ensures Before(text, a, b)
    {
      SharedPrefix(text, a, b, d);
    }

    ghost function WithKeyBelow(members: set<int>, d: nat, v: byte): set<int>
      requires Valid() && forall m :: m in members ==> 0 <= m <= n - d
    {
      set m | m in members && Key(m, d) < v
    }

    ghost function WithKeyAbove(members: set<int>, d: nat, v: byte): set<int>
      requires Valid() && forall m :: m in members ==> 0 <= m <= n - d
    {
      set m | m in members && Key(m, d) > v
    }

    /** The three parts, each in order, make the range. */
    lemma PartsJoin(lo: int, lt: int, gt: int, hi: int, d: nat, v: byte, members: set<int>)
      requires Valid() && AllShare(text, members, d) && 0 <= lo <= lt <= gt <= hi < n
      requires forall m :: m in members ==> 0 <= m <= n - d
      requires Holds(lo, lt - 1, WithKeyBelow(members, d, v)) && Holds(lt, gt, WithKey(members, d, v))
      requires Holds(gt + 1, hi, WithKeyAbove(members, d, v))
      requires HeadSorted(lo, lt - 1) && HeadSorted(lt, gt) && HeadSorted(gt + 1, hi)
      ensures Holds(lo, hi, members) && HeadSorted(lo, hi)
    {
      forall i, j | lo <= i < j <= hi ensures InHeadOrder(text, index[i], index[j]) {
        if Key(index[i], d) < Key(index[j], d) {
          KeyDecides(index[i], index[j], d);
        }
      }
    }

    /** What Partition leaves in the three parts. */
    lemma PartsHold(lo: int, lt: int, gt: int, hi: int, d: nat, v: byte, members: set<int>)
      requires Valid() && 0 <= lo && hi < n && (forall m :: m in members ==> 0 <= m <= n - d)
        && SplitAt(lo, lt, gt, hi, d, v, members)
      ensures Holds(lo, lt - 1, WithKeyBelow(members, d, v)) && Holds(lt, gt, WithKey(members, d, v))
      ensures Holds(gt + 1, hi, WithKeyAbove(members, d, v))
    {
    }

    /**
     * Sort the positions [lo, hi], whose suffixes agree up to d. Depth grows, or else the range shrinks, so it ends.
     * A bucket of end markers is not refined: its members have the same head, and keep the order they have.
     */
    method Sort(lo: int, hi: int, d: nat, ghost members: set<int>)
      requires Valid() && 0 <= lo <= n && hi < n && Holds(lo, hi, members) && AllDistinct()
        && AllShare(text, members, d)
      modifies index
      ensures Holds(lo, hi, members) && AllDistinct() && Outside(lo, hi)
      ensures HeadSorted(lo, hi) && (hi <= lo + CUTOFF ==> Sorted(lo, hi))
      ensures hi > lo + CUTOFF && old(OneKey(lo, hi, d, 0)) ==> Outside(1, 0)
      decreases n - d, hi - lo, 3
    {
      if hi <= lo + CUTOFF {
        Insertion(lo, hi, d, members);
        return;
      }
      assert forall m :: m in members ==> Shares(text, m, m, d);
      assert index[lo] in members;
      var lt, gt, v := Partition(lo, hi, d, members);
      PartsHold(lo, lt, gt, hi, d, v, members);
      SameKeyShares(members, d, v);
      assert index[lt] in WithKey(members, d, v) && index[gt] in WithKey(members, d, v);
      SortParts(lo, lt, gt, hi, d, v, WithKeyBelow(members, d, v), WithKey(members, d, v), WithKeyAbove(members, d, v));
      PartsJoin(lo, lt, gt, hi, d, v, members);
    }

    /** Each part on its own: the outer ones at the same depth, the middle one a byte further. */
    method SortParts(lo: int, lt: int, gt: int, hi: int, d: nat, v: byte, ghost below: set<int>, ghost same: set<int>,
        ghost above: set<int>)
      requires Valid() && 0 <= lo <= lt <= gt <= hi < n && AllDistinct() && d <= n && (v > 0 ==> d < n)
      requires Holds(lo, lt - 1, below) && Holds(lt, gt, same) && Holds(gt + 1, hi, above)
      requires AllShare(text, below, d) && AllShare(text, above, d) && (v > 0 ==> AllShare(text, same, d + 1))
      requires v == 0 ==> AllSameHead(text, same)
      modifies index
      ensures Holds(lo, lt - 1, below) && Holds(lt, gt, same) && Holds(gt + 1, hi, above) && AllDistinct()
        && Outside(lo, hi)
      ensures HeadSorted(lo, lt - 1) && HeadSorted(lt, gt) && HeadSorted(gt + 1, hi)
      ensures lt == lo && gt == hi && v == 0 ==> Outside(1, 0)
      decreases n - d, hi - lo, 2
    {
      Sort(lo, lt - 1, d, below);
      SortRest(lt, gt, hi, d, v, same, above);
    }

    /** Suffixes in any order are in the order of heads when they all have the same one. */
    lemma SameHeadSorted(lo: int, hi: int, same: set<int>)
      requires Valid() && 0 <= lo && hi < n && Holds(lo, hi, same) && AllSameHead(text, same)
      ensures HeadSorted(lo, hi)
    {
      forall i, j | lo <= i < j <= hi ensures InHeadOrder(text, index[i], index[j]) {
        assert SameHeadIn(text, index[i], index[j]);
      }
    }

    /** The middle part and the upper one. */
    method SortRest(lt: int, gt: int, hi: int, d: nat, v: byte, ghost same: set<int>, ghost above: set<int>)
      requires Valid() && 0 <= lt <= gt <= hi < n && AllDistinct() && d <= n && (v > 0 ==> d < n)
      requires Holds(lt, gt, same) && Holds(gt + 1, hi, above)
      requires AllShare(text, above, d) && (v > 0 ==> AllShare(text, same, d + 1))
        && (v == 0 ==> AllSameHead(text, same))
      modifies index
      ensures Holds(lt, gt, same) && Holds(gt + 1, hi, above) && AllDistinct() && Outside(lt, hi)
      ensures HeadSorted(lt, gt) && HeadSorted(gt + 1, hi)
      ensures gt == hi && v == 0 ==> Outside(1, 0)
      decreases n - d, hi - lt, 1
    {
      if v > 0 {
        Sort(lt, gt, d + 1, same);
      } else {
        SameHeadSorted(lt, gt, same);
      }
      SortUpper(lt, gt, hi, d, same, above);
    }

    /** The upper part; the middle one stays in order. */
    method SortUpper(lt: int, gt: int, hi: int, d: nat, ghost same: set<int>, ghost above: set<int>)
      requires Valid() && 0 <= lt <= gt <= hi < n && AllDistinct() && d <= n
      requires Holds(lt, gt, same) && Holds(gt + 1, hi, above) && AllShare(text, above, d) && HeadSorted(lt, gt)
      modifies index
      ensures Holds(lt, gt, same) && Holds(gt + 1, hi, above) && AllDistinct() && Outside(gt + 1, hi)
      ensures HeadSorted(lt, gt) && HeadSorted(gt + 1, hi)
      decreases n - d, hi - lt, 0
    {
      Sort(gt + 1, hi, d, above);
    }

    /**
     * NewSuffixArrayZ: the index is a permutation of the suffixes, in order up to what lies behind a first
     * zero byte. So it is the suffix array when no two suffixes have the same head, as in a text without
     * zeros, and when the text is short enough for insertion sort; a longer text of zeros is left in its first
     * order, which is the wrong one.
     */
    constructor (text: Bytes)
      ensures this.text == text && Valid() && fresh(index) && AllDistinct() && forall k :: 0 <= k < n ==>
        0 <= index[k] < n
      ensures forall i, j :: 0 <= i < j < n ==> InHeadOrder(text, index[i], index[j])
      ensures DistinctHeads(text) || |text| <= CUTOFF + 1 ==> IsSuffixArray(index[..], text)
      ensures AllZero(text) && |text| > CUTOFF + 1 ==> !IsSuffixArray(index[..], text)
    {
      this.text, input, n := text, text + [0], |text|;
      index := new int[|text|](i => i);
      new;
      Sort(0, n - 1, 0, Below(n));
      SortedWhen(text, index[..]);
    }
  }

  ghost predicate AllZero(text: Bytes) {
    forall k :: 0 <= k < |text| ==> text[k] == 0
  }

  /** What the order that Sort leaves amounts to. */
  lemma SortedWhen(text: Bytes, index: seq<int>)
    requires |index| == |text| && forall k :: 0 <= k < |index| ==> 0 <= index[k] < |text|
    requires forall i, j :: 0 <= i < j < |index| ==> index[i] != index[j] && InHeadOrder(text, index[i], index[j])
    requires |text| <= CUTOFF + 1 ==> forall i, j :: 0 <= i < j < |index| ==> Before(text, index[i], index[j])
    requires |text| > CUTOFF + 1 && AllZero(text) ==> index[0] == 0 && index[1] == 1
    ensures DistinctHeads(text) || |text| <= CUTOFF + 1 ==> IsSuffixArray(index, text)
    ensures AllZero(text) && |text| > CUTOFF + 1 ==> !IsSuffixArray(index, text)
  {
    if DistinctHeads(text) {
      HeadsDecide(text, index);
    } else if |text| <= CUTOFF + 1 {
      SortedIsSuffixArray(index, text);
    }
    if AllZero(text) && |text| > CUTOFF + 1 {
      ZerosStayWrong(text, index);
    }
  }

  /** Where all heads differ, the order up to heads is the order of the suffixes. */
  lemma HeadsDecide(text: Bytes, index: seq<int>)
    requires |index| == |text| && DistinctHeads(text)
    requires forall k :: 0 <= k < |index| ==> 0 <= index[k] < |text|
    requires forall i, j :: 0 <= i < j < |index| ==> index[i] != index[j]
    requires forall i, j :: 0 <= i < j < |index| ==> InHeadOrder(text, index[i], index[j])
    ensures IsSuffixArray(index, text)
  {
    forall i, j | 0 <= i < j < |index| ensures Before(text, index[i], index[j]) {
      SameHeadSymmetric(text, index[i], index[j]);
    }
    SortedIsSuffixArray(index, text);
  }

  lemma ZerosStayWrong(text: Bytes, index: seq<int>)
    requires |index| == |text| >= 2 && index[0] == 0 && index[1] == 1 && AllZero(text)
    ensures !IsSuffixArray(index, text)
  {
    ShorterZeros(text, 0, 1);
    BeforeAsymmetric(text, 1, 0);
    BeforeIsLess(text, 0, 1);
  }

  lemma {:induction false} SameHeadSymmetric(text: Bytes, a: int, b: int)
    requires 0 <= a <= |text| && 0 <= b <= |text|
    ensures SameHead(text, a, b) <==> SameHead(text, b, a)
    decreases |text| - b
  {
    if !Ends(text, a) && !Ends(text, b) {
      SameHeadSymmetric(text, a + 1, b + 1);
    }
  }

  /** Among zeros the shorter suffix is the smaller one. */
  lemma {:induction false} ShorterZeros(text: Bytes, i: int, j: int)
    requires 0 <= i < j <= |text| && AllZero(text)
    ensures Before(text, j, i)
    decreases |text| - j
  {
    if j < |text| {
      ShorterZeros(text, i + 1, j + 1);
    }
  }
}
