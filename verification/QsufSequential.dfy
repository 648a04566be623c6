/**
 * Larsson and Sadakane's suffix sort with a single rank array, which is updated while groups are split: the sort of one
 * group may already see new ranks of others, and of its own smaller part.
 */
module QsufSequential {
  import opened Common
  import opened SuffixOrder
  import opened QsufSplit
  import opened QsufPass

  // ----- ranks that may know more than h bytes

  /** Different ranks put two suffixes in order, equal ones mean that they agree in h bytes. */
  predicate RankRight(text: Bytes, v: seq<int>, h: nat, s: int, t: int)
    requires |v| == |text| + 1 && 0 <= s <= |text| && 0 <= t <= |text|
  {
    (v[s] < v[t] ==> Before(text, s, t)) && (v[s] == v[t] ==> HEq(text, s, t, h))
  }

  /** The rank of the suffix at p is the last position with that rank. */
  ghost predicate EndOk(q: seq<int>, v: seq<int>, p: int)
    requires |q| == |v| && IsOrder(q) && 0 <= p < |q|
  {
    p <= v[q[p]] < |q| && v[q[v[q[p]]]] == v[q[p]]
  }

  /** q is sorted by the ranks v, which are right. */
  ghost predicate Ranked(text: Bytes, q: seq<int>, v: seq<int>, h: nat) {
    && |q| == |v| == |text| + 1 && IsOrder(q)
    && (forall p :: 0 <= p < |q| ==> EndOk(q, v, p))
    && (forall a, b :: 0 <= a < b < |q| ==> v[q[a]] <= v[q[b]])
    && (forall s, t :: 0 <= s <= |text| && 0 <= t <= |text| ==> RankRight(text, v, h, s, t))
  }

  /** Ranks by exactly h bytes are right. */
  lemma LevelRanked(text: Bytes, q: seq<int>, v: seq<int>, k: seq<int>, h: nat)
    requires |q| == |text| + 1 && Level(q, v, k) && Orders(k, text, h)
    ensures Ranked(text, q, v, h)
  {
    RanksOrder(q, v, k, text, h);
    forall p | 0 <= p < |q| ensures EndOk(q, v, p) {
      assert EndAt(q, v, k, p);
      RanksAt(q, v, k, p, v[q[p]]);
    }
    forall a, b | 0 <= a < b < |q| ensures v[q[a]] <= v[q[b]] {
      RanksAt(q, v, k, b, a);
    }
    forall s, t | 0 <= s <= |text| && 0 <= t <= |text| ensures RankRight(text, v, h, s, t) {
      if v[s] < v[t] {
        HLessIsBefore(text, s, t, h);
      }
    }
  }

  /** Suffixes of one rank may change places. */
  lemma Permuted(text: Bytes, q: seq<int>, q': seq<int>, v: seq<int>, h: nat)
    requires Ranked(text, q, v, h) && |q'| == |q| && IsOrder(q')
    requires forall p :: 0 <= p < |q| ==> v[q'[p]] == v[q[p]]
    ensures Ranked(text, q', v, h)
  {
    forall p | 0 <= p < |q| ensures EndOk(q', v, p) {
      assert EndOk(q, v, p);
    }
  }

  // ----- a group that is to be split

  /** If they have one rank, the suffix at a comes before the one at b. */
  ghost predicate Ahead(text: Bytes, q: seq<int>, v: seq<int>, a: int, b: int)
    requires |q| == |v| == |text| + 1 && IsOrder(q) && 0 <= a < |q| && 0 <= b < |q|
  {
    v[q[a]] == v[q[b]] ==> Before(text, q[a], q[b])
  }

  /**
   * [lo, hi) is the front of a group whose ranks are still those it had: it is in the index, has h more bytes to look
   * at, and comes before the rest of its group.
   */
  ghost predicate Block(text: Bytes, index: seq<int>, q: seq<int>, v: seq<int>, h: nat, lo: int, hi: int) {
    && Ranked(text, q, v, h) && |index| == |q| && 0 <= lo <= hi <= |q| && StartsAt(q, v, lo)
    && (forall p :: lo <= p < hi ==> InBlock(index, q, v, h, lo, p))
    && (forall a, b :: lo <= a < hi <= b < |q| ==> Ahead(text, q, v, a, b))
  }

  ghost predicate StartsAt(q: seq<int>, v: seq<int>, lo: int)
    requires |q| == |v| && IsOrder(q) && 0 <= lo <= |q|
  {
    lo == 0 || v[q[lo - 1]] < lo
  }

  ghost predicate InBlock(index: seq<int>, q: seq<int>, v: seq<int>, h: nat, lo: int, p: int)
    requires |index| == |q| == |v| && IsOrder(q) && 0 <= lo <= p < |q|
  {
    index[p] == q[p] && q[p] + h < |q| && v[q[p]] == v[q[lo]]
  }

  // ----- new ranks for the front of a group

  /** Giving the front [lo, hi) of a group its own last position as rank keeps the ranks right. */
  lemma Refined(text: Bytes, index: seq<int>, q: seq<int>, v: seq<int>, v': seq<int>, h: nat, lo: int, hi: int)
    requires Block(text, index, q, v, h, lo, hi) && lo < hi && |v'| == |v|
    requires forall p :: 0 <= p < |q| ==> v'[q[p]] == if lo <= p < hi then hi - 1 else v[q[p]]
    ensures Ranked(text, q, v', h)
  {
    forall p | 0 <= p < |q| ensures EndOk(q, v', p) && (p < lo ==> v[q[p]] < lo) {
      assert EndOk(q, v, p);
      BeforeBlock(text, q, v, h, lo, p);
    }
    forall a, b | 0 <= a < b < |q| ensures v'[q[a]] <= v'[q[b]] {
      assert EndOk(q, v, a) && EndOk(q, v, b);
    }
    forall s, t | 0 <= s <= |text| && 0 <= t <= |text| ensures RankRight(text, v', h, s, t) {
      var a := PositionOf(q, s);
      var b := PositionOf(q, t);
      RefinedPair(text, index, q, v, v', h, lo, hi, a, b);
    }
  }

  lemma BeforeBlock(text: Bytes, q: seq<int>, v: seq<int>, h: nat, lo: int, p: int)
    requires Ranked(text, q, v, h) && 0 <= lo <= |q| && StartsAt(q, v, lo) && 0 <= p < |q|
    ensures p < lo <==> v[q[p]] < lo
  {
    assert EndOk(q, v, p);
    if p < lo - 1 {
      assert v[q[p]] <= v[q[lo - 1]];
    }
  }

  lemma RefinedPair(text: Bytes, index: seq<int>, q: seq<int>, v: seq<int>, v': seq<int>, h: nat, lo: int, hi: int,
      a: int, b: int)
    requires Block(text, index, q, v, h, lo, hi) && lo < hi && |v'| == |v| && 0 <= a < |q| && 0 <= b < |q|
    requires forall p :: 0 <= p < |q| ==> v'[q[p]] == if lo <= p < hi then hi - 1 else v[q[p]]
    ensures RankRight(text, v', h, q[a], q[b])
  {
    assert RankRight(text, v, h, q[a], q[b]) && EndOk(q, v, a) && EndOk(q, v, b);
    BeforeBlock(text, q, v, h, lo, a);
    BeforeBlock(text, q, v, h, lo, b);
    if lo <= a < hi {
      assert InBlock(index, q, v, h, lo, a);
      if lo <= b < hi {
        assert InBlock(index, q, v, h, lo, b);
      } else if b >= hi {
        assert Ahead(text, q, v, a, b) && v[q[a]] <= v[q[b]];
      }
    } else if lo <= b < hi && a >= hi {
      assert Ahead(text, q, v, b, a) && v[q[b]] <= v[q[a]];
    }
  }

  // ----- what a split group looks like

  /** Nothing else in the group that starts at lo has the rank of the suffix at p. */
  ghost predicate Lone(q: seq<int>, v: seq<int>, lo: int, p: int)
    requires |q| == |v| && IsOrder(q) && 0 <= lo <= p < |q|
  {
    v[q[p]] == p && (p == lo || v[q[p - 1]] != p)
  }

  ghost predicate UpAt(index: seq<int>, q: seq<int>, v: seq<int>, lo: int, hi: int, p: int)
    requires |index| == |q| == |v| && IsOrder(q) && 0 <= lo <= p < hi <= |q|
  {
    lo <= v[q[p]] < hi && index[p] == if Lone(q, v, lo, p) then -1 else q[p]
  }

  /** If they have one rank, the suffixes at a and b agree in twice h bytes. */
  ghost predicate Agree(text: Bytes, q: seq<int>, v: seq<int>, h: nat, a: int, b: int)
    requires |q| == |v| == |text| + 1 && IsOrder(q) && 0 <= a < |q| && 0 <= b < |q|
  {
    v[q[a]] == v[q[b]] ==> HEq(text, q[a], q[b], h + h)
  }

  /** The group [lo, hi) has been split: its ranks look at twice as many bytes, and what is alone is marked. */
  ghost predicate SplitUp(text: Bytes, index: seq<int>, q: seq<int>, v: seq<int>, h: nat, lo: int, hi: int) {
    && |index| == |q| == |v| == |text| + 1 && IsOrder(q) && 0 <= lo <= hi <= |q|
    && (forall p :: lo <= p < hi ==> UpAt(index, q, v, lo, hi, p))
    && (forall a, b :: lo <= a < hi && lo <= b < hi ==> Agree(text, q, v, h, a, b))
  }

  /** What happens to others does not matter. */
  lemma SplitKept(text: Bytes, index: seq<int>, q: seq<int>, v: seq<int>, index': seq<int>, q': seq<int>, v': seq<int>,
      h: nat, lo: int, hi: int)
    requires SplitUp(text, index, q, v, h, lo, hi) && |q'| == |v'| == |q| && IsOrder(q')
    requires SameOn(q, q', lo, hi) && SameOn(index, index', lo, hi) && RanksSame(q, v, v', lo, hi)
    ensures SplitUp(text, index', q', v', h, lo, hi)
  {
    forall p | lo <= p < hi ensures UpAt(index', q', v', lo, hi, p) {
      assert UpAt(index, q, v, lo, hi, p);
    }
    forall a, b | lo <= a < hi && lo <= b < hi ensures Agree(text, q', v', h, a, b) {
      assert Agree(text, q, v, h, a, b);
    }
  }

  ghost predicate RanksSame(q: seq<int>, v: seq<int>, v': seq<int>, lo: int, hi: int)
    requires IsOrder(q) && |q| == |v| == |v'| && 0 <= lo <= hi <= |q|
  {
    forall p :: lo <= p < hi ==> v'[q[p]] == v[q[p]]
  }

  /** Split groups side by side are one. */
  lemma SplitJoins(text: Bytes, index: seq<int>, q: seq<int>, v: seq<int>, h: nat, lo: int, mid: int, hi: int)
    requires SplitUp(text, index, q, v, h, lo, mid) && SplitUp(text, index, q, v, h, mid, hi)
    ensures SplitUp(text, index, q, v, h, lo, hi)
  {
    forall p | lo <= p < hi ensures UpAt(index, q, v, lo, hi, p) {
      if p < mid {
        assert UpAt(index, q, v, lo, mid, p);
      } else {
        assert UpAt(index, q, v, mid, hi, p);
        if lo < mid == p {
          assert UpAt(index, q, v, lo, mid, p - 1);
        }
      }
    }
    forall a, b | lo <= a < hi && lo <= b < hi ensures Agree(text, q, v, h, a, b) {
      assert if a < mid then UpAt(index, q, v, lo, mid, a) else UpAt(index, q, v, mid, hi, a);
      assert if b < mid then UpAt(index, q, v, lo, mid, b) else UpAt(index, q, v, mid, hi, b);
      assert (a < mid <==> b < mid) ==> Agree(text, q, v, h, a, b);
    }
  }

  // ----- the members of a group

  ghost predicate HasMembers(q: seq<int>, lo: int, hi: int, members: set<int>)
    requires 0 <= lo <= hi <= |q|
  {
    |members| == hi - lo && forall p :: lo <= p < hi ==> q[p] in members
  }

  lemma OthersOutside(q: seq<int>, lo: int, hi: int, members: set<int>, p: int)
    requires IsOrder(q) && 0 <= lo <= hi <= |q| && HasMembers(q, lo, hi, members) && 0 <= p < |q| && !(lo <= p < hi)
    ensures q[p] !in members
  {
    if q[p] in members {
      RoomFor(q, lo, hi, p, members);
    }
  }

  /** What is said of all suffixes but the members holds at all positions but theirs. */
  lemma RanksElsewhere(q: seq<int>, v: seq<int>, v': seq<int>, lo: int, hi: int, members: set<int>)
    requires IsOrder(q) && |q| == |v| == |v'| && 0 <= lo <= hi <= |q| && HasMembers(q, lo, hi, members)
    requires forall s :: 0 <= s < |v| && s !in members ==> v'[s] == v[s]
    ensures RanksSame(q, v, v', 0, lo) && RanksSame(q, v, v', hi, |q|)
  {
    forall p | 0 <= p < |q| && !(lo <= p < hi) ensures v'[q[p]] == v[q[p]] {
      OthersOutside(q, lo, hi, members, p);
    }
  }

  // ----- split with one rank array

  /** What the keys say once they have been compared: suffixes of one group are in the order of their keys. */
  lemma KeysDecide(text: Bytes, v: seq<int>, h: nat, q: seq<int>, s: int, t: int)
    requires Ranked(text, q, v, h) && 0 <= s && s + h <= |text| && 0 <= t && t + h <= |text| && v[s] == v[t]
    ensures Key(v, h, s) < Key(v, h, t) ==> Before(text, s, t)
    ensures Key(v, h, s) == Key(v, h, t) ==> HEq(text, s, t, h + h)
  {
    assert RankRight(text, v, h, s, t) && RankRight(text, v, h, s + h, t + h);
    HDoubles(text, s, t, h, h);
    if Key(v, h, s) < Key(v, h, t) {
      EqualThenBefore(text, s, t, h);
    }
  }

  lemma {:induction false} EqualThenBefore(text: Bytes, s: int, t: int, h: nat)
    requires 0 <= s && s + h <= |text| && 0 <= t && t + h <= |text| && HEq(text, s, t, h)
    requires Before(text, s + h, t + h)
    ensures Before(text, s, t)
    decreases h
  {
    if h > 0 {
      EqualThenBefore(text, s + 1, t + 1, h - 1);
    }
  }

  /** [lo, hi) of q is in three parts by the keys: below x, at x, above x. */
  ghost predicate InParts(q: seq<int>, v: seq<int>, h: nat, x: int, lo: int, jj: int, kk: int, hi: int)
    requires |q| == |v| && IsOrder(q)
  {
    && 0 <= lo <= jj < kk <= hi <= |q|
    && forall p :: lo <= p < hi ==> KeyAt(q, v, h, x, jj, kk, p)
  }

  ghost predicate KeyAt(q: seq<int>, v: seq<int>, h: nat, x: int, jj: int, kk: int, p: int)
    requires |q| == |v| && IsOrder(q) && 0 <= p < |q|
  {
    && q[p] + h < |q|
    && SideOf(Key(v, h, q[p]), x) == if p < jj then Less else if p < kk then Equal else Greater
  }

  /** The equal ones agree in twice as many bytes; they come after the smaller ones, and before the greater ones. */
  ghost predicate PartsRight(text: Bytes, q: seq<int>, v: seq<int>, h: nat, lo: int, jj: int, kk: int) {
    && |q| == |v| == |text| + 1 && IsOrder(q) && 0 <= lo <= jj <= kk <= |q|
    && (forall a, b :: lo <= a < jj <= b < |q| ==> Ahead(text, q, v, a, b))
    && (forall a, b :: jj <= a < kk <= b < |q| ==> Ahead(text, q, v, a, b))
    && (forall a, b :: jj <= a < kk && jj <= b < kk ==> Agree(text, q, v, h, a, b))
  }

  lemma PartsAreRight(text: Bytes, index: seq<int>, q: seq<int>, v: seq<int>, h: nat, x: int, lo: int, jj: int, kk: int,
      hi: int)
    requires Block(text, index, q, v, h, lo, hi) && InParts(q, v, h, x, lo, jj, kk, hi)
    ensures PartsRight(text, q, v, h, lo, jj, kk)
  {
    forall a, b | lo <= a < kk && a <= b < |q| && (a < jj <= b || (jj <= a && kk <= b))
      ensures Ahead(text, q, v, a, b)
    {
      PartsPair(text, index, q, v, h, x, lo, jj, kk, hi, a, b);
    }
    forall a, b | jj <= a < kk && jj <= b < kk ensures Agree(text, q, v, h, a, b) {
      PartsPair(text, index, q, v, h, x, lo, jj, kk, hi, a, b);
    }
  }

  lemma PartsPair(text: Bytes, index: seq<int>, q: seq<int>, v: seq<int>, h: nat, x: int, lo: int, jj: int, kk: int,
      hi: int, a: int, b: int)
    requires Block(text, index, q, v, h, lo, hi) && InParts(q, v, h, x, lo, jj, kk, hi) && lo <= a < kk && lo <= b < |q|
    ensures (a < jj <= b || (jj <= a && kk <= b)) ==> Ahead(text, q, v, a, b)
    ensures jj <= a && jj <= b < kk ==> Agree(text, q, v, h, a, b)
  {
    assert InBlock(index, q, v, h, lo, a) && KeyAt(q, v, h, x, jj, kk, a);
    if b < hi {
      assert InBlock(index, q, v, h, lo, b) && KeyAt(q, v, h, x, jj, kk, b);
      KeysDecide(text, v, h, q, q[a], q[b]);
    } else {
      assert Ahead(text, q, v, a, b);
    }
  }

  /** The first part is the front of the group. */
  lemma LessIsBlock(text: Bytes, index: seq<int>, q: seq<int>, v: seq<int>, h: nat, lo: int, jj: int, kk: int, hi: int)
    requires Block(text, index, q, v, h, lo, hi) && PartsRight(text, q, v, h, lo, jj, kk) && kk <= hi
    ensures Block(text, index, q, v, h, lo, jj)
  {
  }

  /** Once what is before it has its own ranks, the next part is the front of what is left of the group. */
  lemma NextIsBlock(text: Bytes, index0: seq<int>, q0: seq<int>, v0: seq<int>, index: seq<int>, q: seq<int>,
      v: seq<int>, h: nat, lo: int, mid: int, end: int, hi: int)
    requires Block(text, index0, q0, v0, h, lo, hi) && Ranked(text, q, v, h) && |index| == |q|
      && lo <= mid <= end <= hi
    requires SameBut(q, q0, lo, mid) && SameBut(index, index0, lo, mid)
    requires RanksSame(q0, v0, v, mid, |q0|)
    requires if mid > lo then UpAt(index, q, v, lo, mid, mid - 1) else RanksSame(q0, v0, v, 0, lo)
    requires forall a, b :: mid <= a < end <= b < |q| ==> Ahead(text, q0, v0, a, b)
    ensures Block(text, index, q, v, h, mid, end)
  {
    forall p | mid <= p < end ensures InBlock(index, q, v, h, mid, p) {
      assert InBlock(index0, q0, v0, h, lo, p) && InBlock(index0, q0, v0, h, lo, mid);
    }
    forall a, b | mid <= a < end <= b < |q| ensures Ahead(text, q, v, a, b) {
      assert Ahead(text, q0, v0, a, b);
    }
  }

  lemma MemberAt(q: seq<int>, lo: int, hi: int, members: set<int>, m: int) returns (p: int)
    requires IsOrder(q) && 0 <= lo <= hi <= |q| && HasMembers(q, lo, hi, members) && m in members
    ensures lo <= p < hi && q[p] == m
  {
    if p' :| lo <= p' < hi && q[p'] == m {
      p := p';
    } else {
      DistinctFits(q[lo..hi] + [m], members);
      p := lo;
    }
  }

  /** What a block holds, as the partition wants to know it. */
  lemma BlockHolds(text: Bytes, index: array<int>, q: seq<int>, v: seq<int>, h: nat, lo: int, hi: int,
      members: set<int>)
    requires Block(text, index[..], q, v, h, lo, hi) && HasMembers(q, lo, hi, members)
    ensures Holds(index, lo, hi, members) && DistinctIn(index, lo, hi) && Keyed(members, v, h)
    ensures forall p :: lo <= p < hi ==> index[p] == q[p]
  {
    forall p | lo <= p < hi ensures index[p] == q[p] {
      assert InBlock(index[..], q, v, h, lo, p);
    }
    forall m | m in members ensures 0 <= m && m + h < |v| {
      var p := MemberAt(q, lo, hi, members, m);
      assert InBlock(index[..], q, v, h, lo, p);
    }
  }

  /** The members of a block may change places. */
  lemma Rearranged(text: Bytes, index0: seq<int>, q0: seq<int>, index: seq<int>, q: seq<int>, v: seq<int>, h: nat,
      lo: int, hi: int, members: set<int>)
    requires Block(text, index0, q0, v, h, lo, hi) && HasMembers(q0, lo, hi, members) && |index| == |q|
    requires SameBut(q, q0, lo, hi) && (forall p :: lo <= p < hi ==> index[p] == q[p] && q[p] in members)
    requires forall a, b :: lo <= a < b < hi ==> q[a] != q[b]
    ensures Block(text, index, q, v, h, lo, hi) && HasMembers(q, lo, hi, members)
  {
    forall p | 0 <= p < |q| && !(lo <= p < hi) ensures q[p] !in members {
      OthersOutside(q0, lo, hi, members, p);
    }
    forall p | lo <= p < hi ensures 0 <= q[p] && q[p] + h < |q| && v[q[p]] == v[q0[lo]] {
      var p0 := MemberAt(q0, lo, hi, members, q[p]);
      assert InBlock(index0, q0, v, h, lo, p0);
    }
    forall p | lo <= p < hi ensures v[q0[p]] == v[q0[lo]] {
      assert InBlock(index0, q0, v, h, lo, p);
    }
    Permuted(text, q0, q, v, h);
    forall p | lo <= p < hi ensures InBlock(index, q, v, h, lo, p) {
    }
    forall a, b | lo <= a < hi <= b < |q| ensures Ahead(text, q, v, a, b) {
      var a0 := MemberAt(q0, lo, hi, members, q[a]);
      assert Ahead(text, q0, v, a0, b);
    }
  }

  /** The three loops of split on the front of a group. */
  method PartitionBlock(text: Bytes, index: array<int>, v: array<int>, start: int, end: int, h: nat, pivot: int,
      ghost members: set<int>, ghost q0: seq<int>)
    returns (jj: int, kk: int, ghost q: seq<int>, ghost lessM: set<int>, ghost equalM: set<int>,
      ghost greaterM: set<int>)
    requires index != v && Block(text, index[..], q0, v[..], h, start, end) && HasMembers(q0, start, end, members)
    requires start <= pivot < end
    modifies index
    ensures start <= jj < kk <= end && lessM <= members && equalM <= members && greaterM <= members
    ensures Block(text, index[..], q, v[..], h, start, end) && PartsRight(text, q, v[..], h, start, jj, kk)
    ensures HasMembers(q, start, jj, lessM) && HasMembers(q, jj, kk, equalM) && HasMembers(q, kk, end, greaterM)
    ensures SameBut(q, q0, start, end) && Outside(index, start, end)
  {
    ghost var index0 := index[..];
    BlockHolds(text, index, q0, v[..], h, start, end, members);
    assert InBlock(index[..], q0, v[..], h, start, pivot);
    var x := Key(v[..], h, index[pivot]);
    PartNotEmpty(members, v[..], h, x, index[pivot]);
    jj, kk := Partition(index, v[..], start, end, h, x, members);
    q := Read(index, q0, start, end);
    Rearranged(text, index0, q0, index[..], q, v[..], h, start, end, members);
    PartsFound(index, q, v[..], h, x, start, jj, kk, end, members);
    PartsAreRight(text, index[..], q, v[..], h, x, start, jj, kk, end);
    lessM, equalM, greaterM := Part(members, v[..], h, x, Less), Part(members, v[..], h, x, Equal),
      Part(members, v[..], h, x, Greater);
  }

  lemma PartNotEmpty(members: set<int>, v: seq<int>, h: nat, x: int, m: int)
    requires Keyed(members, v, h) && m in members && Key(v, h, m) == x
    ensures |Part(members, v, h, x, Equal)| > 0
  {
    assert m in Part(members, v, h, x, Equal);
  }

  lemma PartsFound(index: array<int>, q: seq<int>, v: seq<int>, h: nat, x: int, start: int, jj: int, kk: int, end: int,
      members: set<int>)
    requires Parting(index, v, h, x, start, jj, kk, end, jj, kk - jj, end - kk, members) && jj < kk
    requires IsOrder(q) && |q| == |v| == index.Length && forall p :: start <= p < end ==> index[p] == q[p]
    requires 0 <= start
    ensures InParts(q, v, h, x, start, jj, kk, end)
    ensures HasMembers(q, start, jj, Part(members, v, h, x, Less))
    ensures HasMembers(q, jj, kk, Part(members, v, h, x, Equal))
    ensures HasMembers(q, kk, end, Part(members, v, h, x, Greater))
  {
    forall p | start <= p < end ensures KeyAt(q, v, h, x, jj, kk, p) {
    }
  }

  /** The front of a group gets one rank; a single suffix is marked. */
  method CommitBlock(text: Bytes, index: array<int>, v: array<int>, lo: int, hi: int, h: nat, ghost members: set<int>,
      ghost q: seq<int>)
    requires index != v && Block(text, index[..], q, v[..], h, lo, hi) && HasMembers(q, lo, hi, members) && lo < hi
    requires forall a, b :: lo <= a < hi && lo <= b < hi ==> Agree(text, q, v[..], h, a, b)
    modifies index, v
    ensures Ranked(text, q, v[..], h) && SplitUp(text, index[..], q, v[..], h, lo, hi)
    ensures Outside(index, lo, hi) && RanksKept(v, members)
  {
    ghost var index0, ranks := index[..], v[..];
    BlockHolds(text, index, q, v[..], h, lo, hi, members);
    SetRanks(index, v, lo, hi, members);
    assert index[..] == index0;
    if lo == hi - 1 {
      index[lo] := -1;
    }
    RanksElsewhere(q, ranks, v[..], lo, hi, members);
    Committed(text, index0, index[..], q, ranks, v[..], h, lo, hi);
  }

  lemma Committed(text: Bytes, index0: seq<int>, index: seq<int>, q: seq<int>, v: seq<int>, v': seq<int>, h: nat,
      lo: int, hi: int)
    requires Block(text, index0, q, v, h, lo, hi) && lo < hi && |v'| == |v| && |index| == |index0|
    requires forall a, b :: lo <= a < hi && lo <= b < hi ==> Agree(text, q, v, h, a, b)
    requires RanksSame(q, v, v', 0, lo) && RanksSame(q, v, v', hi, |q|)
    requires forall p :: lo <= p < hi ==> v'[q[p]] == hi - 1
    requires SameBut(index, index0, lo, hi)
    requires if lo == hi - 1 then index[lo] == -1 else index == index0
    ensures Ranked(text, q, v', h) && SplitUp(text, index, q, v', h, lo, hi)
  {
    forall p | lo <= p < hi ensures index0[p] == q[p] && v[q[p]] == v[q[lo]] {
      assert InBlock(index0, q, v, h, lo, p);
    }
    Refined(text, index0, q, v, v', h, lo, hi);
    forall p | lo <= p < hi ensures UpAt(index, q, v', lo, hi, p) {
    }
    forall a, b | lo <= a < hi && lo <= b < hi ensures Agree(text, q, v', h, a, b) {
      assert Agree(text, q, v, h, a, b);
    }
  }

  /** split with one rank array: the smaller part is sorted first, which changes ranks that the other parts look at. */
  method SplitBlock(text: Bytes, index: array<int>, v: array<int>, start: int, length: int, h: nat,
      ghost members: set<int>, ghost q0: seq<int>)
    returns (ghost q: seq<int>)
    requires index != v && length > 0 && 0 <= start && start + length <= index.Length
    requires Block(text, index[..], q0, v[..], h, start, start + length)
      && HasMembers(q0, start, start + length, members)
    modifies index, v
    ensures Ranked(text, q, v[..], h) && SplitUp(text, index[..], q, v[..], h, start, start + length)
    ensures SameBut(q, q0, start, start + length) && Outside(index, start, start + length) && RanksKept(v, members)
    decreases length, 2
  {
    var jj, kk;
    ghost var lessM, equalM, greaterM;
    jj, kk, q, lessM, equalM, greaterM :=
      PartitionBlock(text, index, v, start, start + length, h, start + length / 2, members, q0);
    q := SplitThree(text, index, v, start, jj, kk, start + length, h, lessM, equalM, greaterM, members, q);
  }

  /** The smaller keys and the pivot's. */
  method SplitFront(text: Bytes, index: array<int>, v: array<int>, start: int, jj: int, kk: int, h: nat,
      ghost end: int, ghost lessM: set<int>, ghost equalM: set<int>, ghost q0: seq<int>)
    returns (ghost q: seq<int>)
    requires index != v && 0 <= start <= jj < kk <= end <= index.Length
    requires Block(text, index[..], q0, v[..], h, start, end) && PartsRight(text, q0, v[..], h, start, jj, kk)
    requires HasMembers(q0, start, jj, lessM) && HasMembers(q0, jj, kk, equalM)
    modifies index, v
    ensures Ranked(text, q, v[..], h) && SplitUp(text, index[..], q, v[..], h, start, kk)
    ensures SameBut(q, q0, start, kk) && Outside(index, start, kk) && RanksKept(v, lessM + equalM)
    ensures RanksSame(q0, old(v[..]), v[..], kk, |q0|)
    decreases kk - start, 0
  {
    q := q0;
    ghost var index0, ranks0 := index[..], v[..];
    if jj > start {
      LessIsBlock(text, index[..], q, v[..], h, start, jj, kk, end);
      q := SplitBlock(text, index, v, start, jj - start, h, lessM, q);
    } else {
      NothingSplit(text, index[..], q, v[..], h, start);
    }
    ghost var index1, ranks1 := index[..], v[..];
    RanksElsewhere(q0, ranks0, ranks1, start, jj, lessM);
    FrontDone(text, index0, q0, ranks0, index1, q, ranks1, h, start, jj, kk, end);
    CommitBlock(text, index, v, jj, kk, h, equalM, q);
    RanksElsewhere(q, ranks1, v[..], jj, kk, equalM);
    SplitKept(text, index1, q, ranks1, index[..], q, v[..], h, start, jj);
    SplitJoins(text, index[..], q, v[..], h, start, jj, kk);
  }

  lemma NothingSplit(text: Bytes, index: seq<int>, q: seq<int>, v: seq<int>, h: nat, lo: int)
    requires Ranked(text, q, v, h) && |index| == |q| && 0 <= lo <= |q|
    ensures SplitUp(text, index, q, v, h, lo, lo)
  {
  }

  /** With the smaller keys done, the equal ones are the front of what is left. */
  lemma FrontDone(text: Bytes, index0: seq<int>, q0: seq<int>, v0: seq<int>, index: seq<int>, q: seq<int>, v: seq<int>,
      h: nat, lo: int, jj: int, kk: int, hi: int)
    requires Block(text, index0, q0, v0, h, lo, hi) && PartsRight(text, q0, v0, h, lo, jj, kk) && kk <= hi
    requires Ranked(text, q, v, h) && SplitUp(text, index, q, v, h, lo, jj)
    requires SameBut(q, q0, lo, jj) && SameBut(index, index0, lo, jj)
    requires RanksSame(q0, v0, v, 0, lo) && RanksSame(q0, v0, v, jj, |q0|)
    ensures Block(text, index, q, v, h, jj, kk)
    ensures forall a, b :: jj <= a < kk && jj <= b < kk ==> Agree(text, q, v, h, a, b)
  {
    NextIsBlock(text, index0, q0, v0, index, q, v, h, lo, jj, kk, hi);
    forall a, b | jj <= a < kk && jj <= b < kk ensures Agree(text, q, v, h, a, b) {
      assert Agree(text, q0, v0, h, a, b);
    }
  }

  /** The smaller keys, the pivot's, the greater ones. */
  method SplitThree(text: Bytes, index: array<int>, v: array<int>, start: int, jj: int, kk: int, end: int, h: nat,
      ghost lessM: set<int>, ghost equalM: set<int>, ghost greaterM: set<int>, ghost members: set<int>,
      ghost q0: seq<int>)
    returns (ghost q: seq<int>)
    requires index != v && 0 <= start <= jj < kk <= end <= index.Length
    requires lessM <= members && equalM <= members && greaterM <= members
    requires Block(text, index[..], q0, v[..], h, start, end) && PartsRight(text, q0, v[..], h, start, jj, kk)
    requires HasMembers(q0, start, jj, lessM) && HasMembers(q0, jj, kk, equalM) && HasMembers(q0, kk, end, greaterM)
    modifies index, v
    ensures Ranked(text, q, v[..], h) && SplitUp(text, index[..], q, v[..], h, start, end)
    ensures SameBut(q, q0, start, end) && Outside(index, start, end) && RanksKept(v, members)
    decreases end - start, 1
  {
    ghost var index0, ranks0 := index[..], v[..];
    q := SplitFront(text, index, v, start, jj, kk, h, end, lessM, equalM, q0);
    if end > kk {
      ghost var index1, ranks1, q1 := index[..], v[..], q;
      BackLeft(text, index0, q0, ranks0, index1, q1, ranks1, h, start, kk, end);
      q := SplitBlock(text, index, v, kk, end - kk, h, greaterM, q);
      RanksElsewhere(q1, ranks1, v[..], kk, end, greaterM);
      SplitKept(text, index1, q1, ranks1, index[..], q, v[..], h, start, kk);
      SplitJoins(text, index[..], q, v[..], h, start, kk, end);
    }
  }

  /** What is left of the block once its front has been split. */
  lemma BackLeft(text: Bytes, index0: seq<int>, q0: seq<int>, v0: seq<int>, index: seq<int>, q: seq<int>, v: seq<int>,
      h: nat, lo: int, kk: int, hi: int)
    requires Block(text, index0, q0, v0, h, lo, hi) && lo < kk <= hi
    requires Ranked(text, q, v, h) && SplitUp(text, index, q, v, h, lo, kk)
    requires SameBut(q, q0, lo, kk) && SameBut(index, index0, lo, kk) && RanksSame(q0, v0, v, kk, |q0|)
    ensures Block(text, index, q, v, h, kk, hi)
  {
    forall a, b | kk <= a < hi <= b < |q| ensures Ahead(text, q0, v0, a, b) {
    }
    NextIsBlock(text, index0, q0, v0, index, q, v, h, lo, kk, hi, hi);
  }

  // ----- one pass

  lemma LoneIsAlone(text: Bytes, q: seq<int>, v: seq<int>, h: nat, lo: int, p: int)
    requires Ranked(text, q, v, h) && 0 <= lo <= p < |q| && StartsAt(q, v, lo)
    ensures Lone(q, v, lo, p) ==> Alone(q, v, p)
  {
    if Lone(q, v, lo, p) {
      forall b | 0 <= b < |q| && b != p ensures v[q[b]] != v[q[p]] {
        assert EndOk(q, v, b);
        if b < p {
          assert b < p - 1 ==> v[q[b]] <= v[q[p - 1]];
        }
      }
    }
  }

  lemma AlonePlaced(text: Bytes, q: seq<int>, v: seq<int>, h: nat, p: int)
    requires Ranked(text, q, v, h) && 0 <= p < |q| && Alone(q, v, p)
    ensures v[q[p]] == p
  {
    assert EndOk(q, v, p);
  }

  /** A suffix that is alone stays so when ranks change elsewhere. */
  lemma AloneKept(text: Bytes, q: seq<int>, v: seq<int>, q': seq<int>, v': seq<int>, h: nat, lo: int, hi: int, p: int)
    requires Ranked(text, q, v, h) && |q'| == |v'| == |q| && IsOrder(q') && 0 <= lo <= hi <= |q|
    requires SameBut(q', q, lo, hi) && RanksSame(q, v, v', 0, lo) && RanksSame(q, v, v', hi, |q|)
    requires forall b :: lo <= b < hi ==> lo <= v'[q'[b]] < hi
    requires 0 <= p < |q| && !(lo <= p < hi) && Alone(q, v, p)
    ensures Alone(q', v', p)
  {
    AlonePlaced(text, q, v, h, p);
  }

  /** A step of a scan is the same after changes elsewhere. */
  lemma StepKept(text: Bytes, index: seq<int>, q: seq<int>, v: seq<int>, index': seq<int>, q': seq<int>, v': seq<int>,
      h: nat, g: nat, lo: int, hi: int, a: int, b: int)
    requires Ranked(text, q, v, h) && |index'| == |index| == |q'| == |v'| == |q| && IsOrder(q') && 0 <= lo <= hi <= |q|
    requires SameBut(q', q, lo, hi) && SameBut(index', index, lo, hi)
    requires RanksSame(q, v, v', 0, lo) && RanksSame(q, v, v', hi, |q|)
    requires forall b :: lo <= b < hi ==> lo <= v'[q'[b]] < hi
    requires StepOk(index, q, v, g, a, b) && (b <= lo || hi <= a)
    ensures StepOk(index', q', v', g, a, b)
  {
    if index[a] < 0 {
      forall p | a <= p < b ensures Alone(q', v', p) {
        AloneKept(text, q, v, q', v', h, lo, hi, p);
      }
    }
  }

  /** Ranks of the processed front already look at twice as many bytes. */
  ghost predicate Processed(text: Bytes, q: seq<int>, v: seq<int>, h: nat, end: int) {
    && |q| == |v| == |text| + 1 && IsOrder(q) && 0 <= end <= |q| && StartsAt(q, v, end)
    && forall a, b :: 0 <= a < end && 0 <= b < end ==> Agree(text, q, v, h, a, b)
  }

  /** Between two turns of a pass, at position i: the last n positions are a run that is not marked as one yet. */
  ghost predicate PassState(text: Bytes, index: seq<int>, q: seq<int>, v: seq<int>, h: nat, stops0: seq<int>, step: int,
      stops: seq<int>, i: int, n: int) {
    && Ranked(text, q, v, h) && |index| == |q| && 0 <= n <= i && Processed(text, q, v, h, i)
    && CoveredTo(index, q, v, h + h, stops, i - n) && Tight(index, stops, -1)
    && (forall p :: i - n <= p < i ==> Alone(q, v, p))
    && StepsLeft(index, q, v, h, stops0, step, i)
  }

  /** What is left of the steps of this scan. */
  ghost predicate StepsLeft(index: seq<int>, q: seq<int>, v: seq<int>, h: nat, stops0: seq<int>, step: int, i: int)
    requires |index| == |q| == |v| && IsOrder(q)
  {
    && 0 <= step < |stops0| && stops0[step] == i && stops0[|stops0| - 1] == |q|
    && forall j :: step <= j < |stops0| - 1 ==> StepAt(index, q, v, h, stops0, j)
  }

  lemma {:induction false} StepsIncrease(index: seq<int>, q: seq<int>, v: seq<int>, h: nat, stops: seq<int>, a: int,
      b: int)
    requires |index| == |q| == |v| && IsOrder(q) && 0 <= a <= b < |stops|
    requires forall j :: a <= j < b ==> StepAt(index, q, v, h, stops, j)
    ensures stops[a] <= stops[b]
    decreases b - a
  {
    if a < b {
      assert StepAt(index, q, v, h, stops, b - 1);
      StepsIncrease(index, q, v, h, stops, a, b - 1);
    }
  }

  /** What changes between lo and hi, and what stays. */
  ghost predicate ChangedWithin(index: seq<int>, q: seq<int>, v: seq<int>, index': seq<int>, q': seq<int>, v': seq<int>,
      lo: int, hi: int) {
    && |q| == |v| == |index| == |index'| == |q'| == |v'| && IsOrder(q) && IsOrder(q') && 0 <= lo <= hi <= |q|
    && SameBut(q', q, lo, hi) && SameBut(index', index, lo, hi)
    && RanksSame(q, v, v', 0, lo) && RanksSame(q, v, v', hi, |q|)
    && (forall b :: lo <= b < hi ==> RankWithin(q', v', lo, hi, b))
  }

  ghost predicate RankWithin(q: seq<int>, v: seq<int>, lo: int, hi: int, p: int)
    requires |q| == |v| && IsOrder(q) && 0 <= p < |q|
  {
    lo <= v[q[p]] < hi
  }

  /** The steps in front of the change are as they were. */
  lemma FrontKept(text: Bytes, index: seq<int>, q: seq<int>, v: seq<int>, index': seq<int>, q': seq<int>, v': seq<int>,
      h: nat, g: nat, lo: int, hi: int, stops: seq<int>)
    requires Ranked(text, q, v, h) && ChangedWithin(index, q, v, index', q', v', lo, hi)
    requires CoveredTo(index, q, v, g, stops, lo) && Tight(index, stops, -1)
    ensures CoveredTo(index', q', v', g, stops, lo) && Tight(index', stops, -1)
  {
    forall j | 0 <= j < |stops| - 1 ensures StepAt(index', q', v', g, stops, j) && TightAt(index', stops, -1, j) {
      assert StepAt(index, q, v, g, stops, j) && TightAt(index, stops, -1, j);
      StepsIncrease(index, q, v, g, stops, j + 1, |stops| - 1);
      StepAfter(text, index, q, v, index', q', v', h, g, lo, hi, stops[j], stops[j + 1]);
    }
  }

  lemma StepAfter(text: Bytes, index: seq<int>, q: seq<int>, v: seq<int>, index': seq<int>, q': seq<int>, v': seq<int>,
      h: nat, g: nat, lo: int, hi: int, a: int, b: int)
    requires Ranked(text, q, v, h) && ChangedWithin(index, q, v, index', q', v', lo, hi)
    requires StepOk(index, q, v, g, a, b) && (b <= lo || hi <= a)
    ensures StepOk(index', q', v', g, a, b)
  {
    forall p | lo <= p < hi ensures lo <= v'[q'[p]] < hi {
      assert RankWithin(q', v', lo, hi, p);
    }
    StepKept(text, index, q, v, index', q', v', h, g, lo, hi, a, b);
  }

  /** The steps behind the change are as they were. */
  lemma RestKept(text: Bytes, index: seq<int>, q: seq<int>, v: seq<int>, index': seq<int>, q': seq<int>, v': seq<int>,
      h: nat, lo: int, hi: int, stops0: seq<int>, step: int)
    requires Ranked(text, q, v, h) && ChangedWithin(index, q, v, index', q', v', lo, hi)
    requires StepsLeft(index, q, v, h, stops0, step, hi)
    ensures StepsLeft(index', q', v', h, stops0, step, hi)
  {
    forall j | step <= j < |stops0| - 1 ensures StepAt(index', q', v', h, stops0, j) {
      assert StepAt(index, q, v, h, stops0, j);
      StepsIncrease(index, q, v, h, stops0, step, j);
      StepAfter(text, index, q, v, index', q', v', h, h, lo, hi, stops0[j], stops0[j + 1]);
    }
  }

  /** A finished run is passed over. */
  lemma RunTurn(text: Bytes, index: seq<int>, q: seq<int>, v: seq<int>, h: nat, stops0: seq<int>, step: int,
      stops: seq<int>, i: int, n: int)
    requires PassState(text, index, q, v, h, stops0, step, stops, i, n) && i < |q| && index[i] < 0
    ensures PassState(text, index, q, v, h, stops0, step + 1, stops, i - index[i], n - index[i])
  {
    var e := i - index[i];
    assert StepAt(index, q, v, h, stops0, step);
    AlonePlaced(text, q, v, h, e - 1);
    forall a, b | 0 <= a < e && 0 <= b < e ensures Agree(text, q, v, h, a, b) {
      AgreeWithRun(text, q, v, h, i, e, a, b);
    }
  }

  lemma AgreeWithRun(text: Bytes, q: seq<int>, v: seq<int>, h: nat, i: int, e: int, a: int, b: int)
    requires Processed(text, q, v, h, i) && i <= e <= |q| && 0 <= a < e && 0 <= b < e
    requires forall p :: i <= p < e ==> Alone(q, v, p)
    ensures Agree(text, q, v, h, a, b)
  {
    if a < i && b < i {
      assert Agree(text, q, v, h, a, b);
    } else {
      assert if a >= i then Alone(q, v, a) else Alone(q, v, b);
      if a == b {
        HEqSelf(text, q[a], h + h);
      }
    }
  }

  /** The finished positions seen last become one marked run. */
  lemma CloseTurn(text: Bytes, index: seq<int>, q: seq<int>, v: seq<int>, h: nat, stops0: seq<int>, step: int,
      stops: seq<int>, i: int, n: int)
    requires PassState(text, index, q, v, h, stops0, step, stops, i, n) && n > 0
    ensures PassState(text, index[i - n := -n], q, v, h, stops0, step, stops + [i], i, 0)
  {
    var start, index' := i - n, index[i - n := -n];
    forall p | start <= p < i ensures RankWithin(q, v, start, i, p) {
      AlonePlaced(text, q, v, h, p);
    }
    FrontKept(text, index, q, v, index', q, v, h, h + h, start, i, stops);
    RestKept(text, index, q, v, index', q, v, h, start, i, stops0, step);
    CoverGrows(index', q, v, h + h, stops, start, i);
    TightGrows(index', stops, -1, start, i);
  }

  /** The next step is a group, and the group a block to be split. */
  lemma GroupIsBlock(text: Bytes, index: seq<int>, q: seq<int>, v: seq<int>, h: nat, stops0: seq<int>, step: int,
      stops: seq<int>, i: int) returns (e: int)
    requires PassState(text, index, q, v, h, stops0, step, stops, i, 0) && i < |q| && index[i] >= 0
    ensures i < e <= |q| && 0 <= index[i] < |v| && e == v[index[i]] + 1 && Block(text, index, q, v, h, i, e)
    ensures step + 1 < |stops0| && stops0[step + 1] == e && HasMembers(q, i, e, Members(q, Group(i, e)))
    ensures h < |q|
  {
    e := stops0[step + 1];
    assert StepAt(index, q, v, h, stops0, step);
    MembersCount(q, Group(i, e));
    assert index[i] == q[i] && v[q[i]] == e - 1 && q[i] + h < |q|;
    forall p | i <= p < e ensures InBlock(index, q, v, h, i, p) {
    }
    forall a, b | i <= a < e <= b < |q| ensures Ahead(text, q, v, a, b) {
      assert EndOk(q, v, b);
    }
  }

  /** A group that has been split is processed; its subgroups and lone suffixes are steps of the next scan. */
  lemma GroupTurn(text: Bytes, index: seq<int>, q: seq<int>, v: seq<int>, index': seq<int>, q': seq<int>, v': seq<int>,
      h: nat, stops0: seq<int>, step: int, stops: seq<int>, i: int, e: int) returns (stops': seq<int>)
    requires PassState(text, index, q, v, h, stops0, step, stops, i, 0) && i < e && step + 1 < |stops0|
      && stops0[step + 1] == e
    requires |index'| == |index| && Ranked(text, q', v', h) && SplitUp(text, index', q', v', h, i, e)
    requires SameBut(q', q, i, e) && SameBut(index', index, i, e)
    requires RanksSame(q, v, v', 0, i) && RanksSame(q, v, v', e, |q|)
    ensures PassState(text, index', q', v', h, stops0, step + 1, stops', e, 0)
  {
    forall p | i <= p < e ensures RankWithin(q', v', i, e, p) {
      assert UpAt(index', q', v', i, e, p);
    }
    FrontKept(text, index, q, v, index', q', v', h, h + h, i, e, stops);
    RestKept(text, index, q, v, index', q', v', h, i, e, stops0, step + 1);
    GroupProcessed(text, index', q, v, q', v', h, i, e);
    stops' := Subgroups(text, index', q', v', h, i, e, stops);
  }

  lemma GroupProcessed(text: Bytes, index': seq<int>, q: seq<int>, v: seq<int>, q': seq<int>, v': seq<int>, h: nat,
      i: int, e: int)
    requires Ranked(text, q, v, h) && Processed(text, q, v, h, i) && i < e && Ranked(text, q', v', h)
    requires SplitUp(text, index', q', v', h, i, e) && SameBut(q', q, i, e) && RanksSame(q, v, v', 0, i)
    ensures Processed(text, q', v', h, e) && StartsAt(q', v', i)
  {
    assert UpAt(index', q', v', i, e, e - 1);
    forall a, b | 0 <= a < e && 0 <= b < e ensures Agree(text, q', v', h, a, b) {
      BeforeBlock(text, q', v', h, i, a);
      BeforeBlock(text, q', v', h, i, b);
      assert a < i && b < i ==> Agree(text, q, v, h, a, b);
    }
  }

  /** The steps of the next scan within a split group. */
  lemma Subgroups(text: Bytes, index: seq<int>, q: seq<int>, v: seq<int>, h: nat, lo: int, hi: int, stops0: seq<int>)
    returns (stops: seq<int>)
    requires Ranked(text, q, v, h) && SplitUp(text, index, q, v, h, lo, hi) && StartsAt(q, v, lo)
    requires CoveredTo(index, q, v, h + h, stops0, lo) && Tight(index, stops0, -1)
    ensures CoveredTo(index, q, v, h + h, stops, hi) && Tight(index, stops, -1)
  {
    var c := lo;
    stops := stops0;
    while c < hi
      invariant lo <= c <= hi && StartsAt(q, v, c)
      invariant CoveredTo(index, q, v, h + h, stops, c) && Tight(index, stops, -1)
    {
      var d := SubgroupAt(text, index, q, v, h, lo, hi, c);
      CoverGrows(index, q, v, h + h, stops, c, d);
      TightGrows(index, stops, -1, c, d);
      stops, c := stops + [d], d;
    }
  }

  /** The subgroup at c reaches to its rank. */
  lemma SubgroupAt(text: Bytes, index: seq<int>, q: seq<int>, v: seq<int>, h: nat, lo: int, hi: int, c: int)
    returns (d: int)
    requires Ranked(text, q, v, h) && SplitUp(text, index, q, v, h, lo, hi) && lo <= c < hi
      && StartsAt(q, v, lo) && StartsAt(q, v, c)
    ensures c < d <= hi && StepOk(index, q, v, h + h, c, d) && StartsAt(q, v, d) && (d == c + 1 ==> index[c] < 0)
  {
    d := v[q[c]] + 1;
    assert EndOk(q, v, c) && UpAt(index, q, v, lo, hi, c);
    forall p | c <= p < d ensures v[q[p]] == d - 1 && UpAt(index, q, v, lo, hi, p) {
      assert p > c ==> v[q[c]] <= v[q[p]];
      assert p < d - 1 ==> v[q[p]] <= v[q[d - 1]];
    }
    if d == c + 1 {
      LoneIsAlone(text, q, v, h, lo, c);
      assert c > lo ==> v[q[c - 1]] < c;
    } else {
      forall p | c <= p < d ensures index[p] == q[p] && q[p] + (h + h) < |q| {
        TwinStays(text, index, q, v, h, lo, hi, c, d, p);
      }
    }
  }

  /** A suffix that is not alone stays in the index, and is long enough for the next pass. */
  lemma TwinStays(text: Bytes, index: seq<int>, q: seq<int>, v: seq<int>, h: nat, lo: int, hi: int, c: int, d: int,
      p: int)
    requires Ranked(text, q, v, h) && SplitUp(text, index, q, v, h, lo, hi) && lo <= c <= p < d <= hi && d > c + 1
    requires forall r :: c <= r < d ==> v[q[r]] == d - 1
    ensures index[p] == q[p] && q[p] + (h + h) < |q|
  {
    assert UpAt(index, q, v, lo, hi, p);
    assert !Lone(q, v, lo, p) by {
      assert p == d - 1 ==> v[q[p - 1]] == d - 1;
    }
    var twin := if p == c then c + 1 else c;
    assert Agree(text, q, v, h, p, twin);
    HEqLong(text, q[p], q[twin], h + h);
  }

  /** When all is processed, the ranks look at twice as many bytes. */
  lemma AllProcessed(text: Bytes, q: seq<int>, v: seq<int>, h: nat)
    requires Ranked(text, q, v, h) && Processed(text, q, v, h, |q|)
    ensures Ranked(text, q, v, h + h)
  {
    var twice := h + h;
    forall s, t | 0 <= s <= |text| && 0 <= t <= |text| ensures RankRight(text, v, twice, s, t) {
      var a := PositionOf(q, s);
      var b := PositionOf(q, t);
      assert RankRight(text, v, h, s, t) && Agree(text, q, v, h, a, b);
    }
  }

  /** The finished positions seen last get their length; a group found now is split at once. */
  method GroupStep(text: Bytes, index: array<int>, v: array<int>, h: nat, ghost stops0: seq<int>, ghost step: int,
      ghost stops1: seq<int>, i: int, n: int, ghost q0: seq<int>)
    returns (e: int, ghost q: seq<int>, ghost stops: seq<int>)
    requires index != v && PassState(text, index[..], q0, v[..], h, stops0, step, stops1, i, n)
    requires i < index.Length && index[i] >= 0
    modifies index, v
    ensures PassState(text, index[..], q, v[..], h, stops0, step + 1, stops, e, 0) && h < |q| && e > i
    ensures step + 1 < |stops0|
  {
    stops := CloseRunNow(text, index, v, h, stops0, step, stops1, i, n, q0);
    e, q, stops := SplitGroup(text, index, v, h, stops0, step, stops, i, q0);
  }

  method SplitGroup(text: Bytes, index: array<int>, v: array<int>, h: nat, ghost stops0: seq<int>, ghost step: int,
      ghost stops1: seq<int>, i: int, ghost q0: seq<int>)
    returns (e: int, ghost q: seq<int>, ghost stops: seq<int>)
    requires index != v && PassState(text, index[..], q0, v[..], h, stops0, step, stops1, i, 0)
    requires i < index.Length && index[i] >= 0
    modifies index, v
    ensures PassState(text, index[..], q, v[..], h, stops0, step + 1, stops, e, 0) && h < |q| && e > i
    ensures step + 1 < |stops0|
  {
    ghost var index1, ranks1 := index[..], v[..];
    ghost var block := GroupIsBlock(text, index1, q0, ranks1, h, stops0, step, stops1, i);
    e := v[index[i]] + 1;
    ghost var members := Members(q0, Group(i, e));
    q := SplitBlock(text, index, v, i, e - i, h, members, q0);
    RanksElsewhere(q0, ranks1, v[..], i, e, members);
    stops := GroupTurn(text, index1, q0, ranks1, index[..], q, v[..], h, stops0, step, stops1, i, e);
  }

  method CloseRunNow(text: Bytes, index: array<int>, v: array<int>, h: nat, ghost stops0: seq<int>, ghost step: int,
      ghost stops1: seq<int>, i: int, n: int, ghost q: seq<int>)
    returns (ghost stops: seq<int>)
    requires index != v && PassState(text, index[..], q, v[..], h, stops0, step, stops1, i, n)
    modifies index
    ensures PassState(text, index[..], q, v[..], h, stops0, step, stops, i, 0) && Outside(index, i - n, i)
    ensures n > 0 ==> index[i - n] == -n
  {
    stops := stops1;
    if n != 0 {
      CloseTurn(text, index[..], q, v[..], h, stops0, step, stops, i, n);
      index[i - n] := -n;
      stops := stops + [i];
    }
  }

  lemma PassStarts(text: Bytes, index: seq<int>, q: seq<int>, v: seq<int>, h: nat, stops0: seq<int>)
    requires Ranked(text, q, v, h) && Covered(index, q, v, h, stops0)
    ensures PassState(text, index, q, v, h, stops0, 0, [0], 0, 0)
  {
  }

  lemma PassEnds(text: Bytes, index: seq<int>, q: seq<int>, v: seq<int>, h: nat, stops0: seq<int>, step: int,
      stops: seq<int>)
    requires PassState(text, index, q, v, h, stops0, step, stops, |q|, 0)
    ensures Ranked(text, q, v, h + h) && Covered(index, q, v, h + h, stops) && Tight(index, stops, -1)
  {
    AllProcessed(text, q, v, h);
  }

  /**
   * One pass with one rank array: the ranks look at twice as many bytes, and negative run lengths cover just what is
   * finished.
   */
  method PassInPlace(text: Bytes, index: array<int>, v: array<int>, h: nat, ghost q0: seq<int>, ghost stops0: seq<int>)
    returns (ghost q: seq<int>, ghost stops: seq<int>)
    requires index != v && h > 0 && Ranked(text, q0, v[..], h) && Covered(index[..], q0, v[..], h, stops0)
    modifies index, v
    ensures Ranked(text, q, v[..], h + h) && Covered(index[..], q, v[..], h + h, stops)
    ensures forall p :: 0 <= p < |q| ==> (Alone(q, v[..], p) <==> UnderRun(index[..], stops, p))
    ensures h >= |text| + 1 ==> index[0] == -(|text| + 1)
  {
    var i, n := 0, 0;
    ghost var step := 0;
    q, stops := q0, [0];
    PassStarts(text, index[..], q, v[..], h, stops0);
    while i < index.Length
      invariant PassState(text, index[..], q, v[..], h, stops0, step, stops, i, n)
      invariant h >= |text| + 1 ==> n == i
      decreases |stops0| - step
    {
      if index[i] < 0 {
        RunTurn(text, index[..], q, v[..], h, stops0, step, stops, i, n);
        n := n - index[i];
        i := i - index[i];
      } else {
        i, q, stops := GroupStep(text, index, v, h, stops0, step, stops, i, n, q);
        n := 0;
      }
      step := step + 1;
    }
    stops := CloseRunNow(text, index, v, h, stops0, step, stops, i, n, q);
    PassEnds(text, index[..], q, v[..], h, stops0, step, stops);
    forall p | 0 <= p < |q| ensures Alone(q, v[..], p) <==> UnderRun(index[..], stops, p) {
      FinishedIffMarked(index[..], q, v[..], h + h, stops, -1, p);
    }
  }
}
