/** The ternary split of Larsson and Sadakane's suffix sort: one group, sorted by the ranks h further on. */
module QsufSplit {
  import opened Common

  // ----- elements and their keys

  function Key(v: seq<int>, h: nat, m: int): int
    requires 0 <= m && m + h < |v|
  {
    v[m + h]
  }

  ghost predicate Keyed(members: set<int>, v: seq<int>, h: nat) {
    forall m :: m in members ==> 0 <= m && m + h < |v|
  }

  /** The three sides of a pivot. */
  datatype Side = Less | Equal | Greater

  function SideOf(key: int, x: int): Side {
    if key < x then Less else if key == x then Equal else Greater
  }

  ghost function Part(members: set<int>, v: seq<int>, h: nat, x: int, side: Side): set<int>
    requires Keyed(members, v, h)
  {
    set m | m in members && SideOf(Key(v, h, m), x) == side
  }

  /** The positions [lo, hi) of the index hold members, each at most once. */
  ghost predicate Holds(index: array<int>, lo: int, hi: int, members: set<int>)
    reads index
  {
    0 <= lo <= hi <= index.Length && forall p :: lo <= p < hi ==> index[p] in members
  }

  ghost predicate DistinctIn(index: array<int>, lo: int, hi: int)
    requires 0 <= lo <= hi <= index.Length
    reads index
  {
    forall a, b :: lo <= a < b < hi ==> index[a] != index[b]
  }

  twostate predicate Outside(index: array<int>, lo: int, hi: int)
    reads index
  {
    forall p :: 0 <= p < index.Length && !(lo <= p < hi) ==> index[p] == old(index[p])
  }

  // ----- counting

  method CountKeys(index: array<int>, v: seq<int>, lo: int, hi: int, h: nat, x: int, ghost members: set<int>)
    returns (below: nat, same: nat)
    requires Holds(index, lo, hi, members) && DistinctIn(index, lo, hi) && Keyed(members, v, h) && |members| == hi - lo
    ensures below == |Part(members, v, h, x, Less)| && same == |Part(members, v, h, x, Equal)|
    ensures hi - lo - below - same == |Part(members, v, h, x, Greater)|
  {
    below, same := 0, 0;
    ghost var seen: set<int> := {};
    for i := lo to hi
      invariant (forall m :: m in seen ==> exists p :: lo <= p < i && index[p] == m) && seen <= members
        && |seen| == i - lo
      invariant below == |Part(seen, v, h, x, Less)| && same == |Part(seen, v, h, x, Equal)|
      invariant i - lo - below - same == |Part(seen, v, h, x, Greater)|
    {
      ghost var m := index[i];
      PartGrows(seen, v, h, x, m, Less);
      PartGrows(seen, v, h, x, m, Equal);
      PartGrows(seen, v, h, x, m, Greater);
      if Key(v, h, index[i]) < x {
        below := below + 1;
      }
      if Key(v, h, index[i]) == x {
        same := same + 1;
      }
      seen := seen + {m};
    }
    SubsetIsAll(seen, members);
  }

  lemma PartGrows(seen: set<int>, v: seq<int>, h: nat, x: int, m: int, side: Side)
    requires Keyed(seen + {m}, v, h) && Keyed(seen, v, h) && m !in seen
    ensures |Part(seen + {m}, v, h, x, side)| == |Part(seen, v, h, x, side)| + if SideOf(Key(v, h, m), x) == side
      then 1 else 0
  {
    if SideOf(Key(v, h, m), x) == side {
      assert Part(seen + {m}, v, h, x, side) == Part(seen, v, h, x, side) + {m};
    } else {
      assert Part(seen + {m}, v, h, x, side) == Part(seen, v, h, x, side);
    }
  }

  lemma SubsetIsAll(a: set<int>, b: set<int>)
    requires a <= b && |a| == |b|
    ensures a == b
  {
    assert b == a + (b - a);
    assert |b - a| == 0;
  }

  /** Positions [a, b) and i hold different elements of the pool, so there are not more of them than it has. */
  lemma RoomFor(s: seq<int>, a: int, b: int, i: int, pool: set<int>)
    requires 0 <= a <= b <= |s| && 0 <= i < |s| && !(a <= i < b)
    requires forall p, q :: a <= p < q < b ==> s[p] != s[q]
    requires forall p :: a <= p < b ==> s[p] in pool && s[p] != s[i]
    requires s[i] in pool
    ensures b - a + 1 <= |pool|
  {
    var t := s[a..b] + [s[i]];
    DistinctFits(t, pool);
  }

  // ----- partitioning

  ghost predicate OnSide(index: array<int>, v: seq<int>, h: nat, x: int, lo: int, hi: int, side: Side)
    requires 0 <= lo && hi <= index.Length
    reads index
  {
    forall p :: lo <= p < hi ==> 0 <= index[p] && index[p] + h < |v| && SideOf(Key(v, h, index[p]), x) == side
  }

  /** [start, i) is below the pivot, j elements equal to it are at jj, and k greater ones at kk. */
  ghost predicate Parting(index: array<int>, v: seq<int>, h: nat, x: int, start: int, jj: int, kk: int, end: int,
      i: int, j: int, k: int, members: set<int>)
    reads index
  {
    && Holds(index, start, end, members) && DistinctIn(index, start, end) && Keyed(members, v, h)
    && start <= i <= jj <= jj + j <= kk <= kk + k <= end
    && OnSide(index, v, h, x, start, i, Less) && OnSide(index, v, h, x, jj, jj + j, Equal)
      && OnSide(index, v, h, x, kk, kk + k, Greater)
    && jj - start == |Part(members, v, h, x, Less)| && kk - jj == |Part(members, v, h, x, Equal)|
      && end - kk == |Part(members, v, h, x, Greater)|
  }

  /** While an element that belongs there is elsewhere, a side still has room. */
  lemma RoomOnSide(index: array<int>, v: seq<int>, h: nat, x: int, lo: int, hi: int, side: Side, start: int, end: int,
      p: int, members: set<int>)
    requires Holds(index, start, end, members) && DistinctIn(index, start, end) && Keyed(members, v, h)
    requires start <= lo <= hi <= end && start <= p < end && !(lo <= p < hi) && OnSide(index, v, h, x, lo, hi, side)
    requires SideOf(Key(v, h, index[p]), x) == side
    ensures hi - lo + 1 <= |Part(members, v, h, x, side)|
  {
    RoomFor(index[..], lo, hi, p, Part(members, v, h, x, side));
  }

  method Swap(index: array<int>, a: int, b: int)
    requires 0 <= a < index.Length && 0 <= b < index.Length
    modifies index
    ensures index[a] == old(index[b]) && index[b] == old(index[a])
    ensures forall p :: 0 <= p < index.Length && p != a && p != b ==> index[p] == old(index[p])
  {
    index[a], index[b] := index[b], index[a];
  }

  /** The element at p, not yet placed and equal to the pivot, joins the equal ones. */
  method PlaceEqual(index: array<int>, v: seq<int>, start: int, jj: int, kk: int, end: int, h: nat, x: int, i: int,
      j: int, k: int, ghost members: set<int>)
    requires Parting(index, v, h, x, start, jj, kk, end, i, j, k, members) && i < jj && Key(v, h, index[i]) == x
    modifies index
    ensures Parting(index, v, h, x, start, jj, kk, end, i, j + 1, k, members) && Outside(index, start, end)
  {
    RoomOnSide(index, v, h, x, jj, jj + j, Equal, start, end, i, members);
    Swap(index, i, jj + j);
  }

  /** The element at p, not yet placed and greater than the pivot, joins the greater ones. */
  method PlaceGreater(index: array<int>, v: seq<int>, start: int, jj: int, kk: int, end: int, h: nat, x: int, i: int,
      j: int, k: int, p: int, ghost members: set<int>)
    requires Parting(index, v, h, x, start, jj, kk, end, i, j, k, members) && (i <= p < jj || jj + j <= p < kk)
      && Key(v, h, index[p]) > x
    modifies index
    ensures Parting(index, v, h, x, start, jj, kk, end, i, j, k + 1, members) && Outside(index, start, end)
  {
    RoomOnSide(index, v, h, x, kk, kk + k, Greater, start, end, p, members);
    Swap(index, p, kk + k);
  }

  /** First loop: fill the part below the pivot. */
  method FillBelow(index: array<int>, v: seq<int>, start: int, jj: int, kk: int, end: int, h: nat, x: int,
      ghost members: set<int>)
    returns (j: int, k: int)
    requires Parting(index, v, h, x, start, jj, kk, end, start, 0, 0, members)
    modifies index
    ensures Parting(index, v, h, x, start, jj, kk, end, jj, j, k, members) && Outside(index, start, end)
  {
    var i := start;
    j, k := 0, 0;
    while i < jj
      invariant Parting(index, v, h, x, start, jj, kk, end, i, j, k, members) && Outside(index, start, end)
      decreases (jj - i) + (kk - jj - j) + (end - kk - k)
    {
      var key := Key(v, h, index[i]);
      if key < x {
        i := i + 1;
      } else if key == x {
        PlaceEqual(index, v, start, jj, kk, end, h, x, i, j, k, members);
        j := j + 1;
      } else {
        PlaceGreater(index, v, start, jj, kk, end, h, x, i, j, k, i, members);
        k := k + 1;
      }
    }
  }

  /** Second loop: what is left between the equal ones and kk is equal or greater. */
  method FillEqual(index: array<int>, v: seq<int>, start: int, jj: int, kk: int, end: int, j0: int, k0: int, h: nat,
      x: int, ghost members: set<int>)
    requires Parting(index, v, h, x, start, jj, kk, end, jj, j0, k0, members)
    modifies index
    ensures Parting(index, v, h, x, start, jj, kk, end, jj, kk - jj, end - kk, members) && Outside(index, start, end)
  {
    var j, k := j0, k0;
    while jj + j < kk
      invariant Parting(index, v, h, x, start, jj, kk, end, jj, j, k, members) && Outside(index, start, end)
      decreases (kk - jj - j) + (end - kk - k)
    {
      NotBelow(index, v, h, x, start, jj, kk, end, j, k, jj + j, members);
      if Key(v, h, index[jj + j]) == x {
        j := j + 1;
      } else {
        PlaceGreater(index, v, start, jj, kk, end, h, x, jj, j, k, jj + j, members);
        k := k + 1;
      }
    }
    RestIsGreater(index, v, h, x, start, jj, kk, end, k, members);
  }

  lemma RestIsGreater(index: array<int>, v: seq<int>, h: nat, x: int, start: int, jj: int, kk: int, end: int, k: int,
      members: set<int>)
    requires Parting(index, v, h, x, start, jj, kk, end, jj, kk - jj, k, members)
    ensures Parting(index, v, h, x, start, jj, kk, end, jj, kk - jj, end - kk, members)
  {
    forall p | kk + k <= p < end ensures SideOf(Key(v, h, index[p]), x) == Greater {
      NotBelow(index, v, h, x, start, jj, kk, end, kk - jj, k, p, members);
      if SideOf(Key(v, h, index[p]), x) == Equal {
        RoomOnSide(index, v, h, x, jj, kk, Equal, start, end, p, members);
      }
    }
  }

  /** Everything below the pivot is in its place. */
  lemma NotBelow(index: array<int>, v: seq<int>, h: nat, x: int, start: int, jj: int, kk: int, end: int, j: int,
      k: int, p: int, members: set<int>)
    requires Parting(index, v, h, x, start, jj, kk, end, jj, j, k, members) && jj <= p < end
    ensures Key(v, h, index[p]) >= x
  {
    if Key(v, h, index[p]) < x {
      RoomOnSide(index, v, h, x, start, jj, Less, start, end, p, members);
    }
  }

  method Partition(index: array<int>, v: seq<int>, start: int, end: int, h: nat, x: int, ghost members: set<int>)
    returns (jj: int, kk: int)
    requires Holds(index, start, end, members) && DistinctIn(index, start, end) && Keyed(members, v, h)
      && |members| == end - start
    modifies index
    ensures Parting(index, v, h, x, start, jj, kk, end, jj, kk - jj, end - kk, members) && Outside(index, start, end)
  {
    var below, same := CountKeys(index, v, start, end, h, x, members);
    jj := start + below;
    kk := jj + same;
    var j, k := FillBelow(index, v, start, jj, kk, end, h, x, members);
    FillEqual(index, v, start, jj, kk, end, j, k, h, x, members);
  }

  // ----- what a split group looks like

  /** q is the order of the suffixes at [lo, hi), which are members. */
  ghost predicate InOrder(q: seq<int>, v: seq<int>, h: nat, lo: int, hi: int, members: set<int>)
    requires Keyed(members, v, h)
  {
    && 0 <= lo <= hi <= |q| && (forall p :: lo <= p < hi ==> q[p] in members)
    && (forall a, b :: lo <= a < b < hi ==> q[a] != q[b] && Key(v, h, q[a]) <= Key(v, h, q[b]))
  }

  /** Position p is the only one in [lo, hi) with its key. */
  ghost predicate Single(q: seq<int>, v: seq<int>, h: nat, lo: int, hi: int, p: int, members: set<int>)
    requires Keyed(members, v, h) && InOrder(q, v, h, lo, hi, members) && lo <= p < hi
  {
    forall b :: lo <= b < hi && b != p ==> Key(v, h, q[b]) != Key(v, h, q[p])
  }

  /**
   * The new rank of the suffix at p is the last position with its key; the index keeps it
   * unless it is alone, which -1 marks.
   */
  ghost predicate DoneAt(index: seq<int>, v2: seq<int>, q: seq<int>, v: seq<int>, h: nat, lo: int, hi: int, p: int,
      members: set<int>)
    requires Keyed(members, v, h) && InOrder(q, v, h, lo, hi, members) && lo <= p < hi
  {
    && |q| == |index| && q[p] < |v2|
    && (var e := v2[q[p]];
        p <= e < hi && Key(v, h, q[e]) == Key(v, h, q[p]) && forall b :: e < b < hi ==>
          Key(v, h, q[b]) > Key(v, h, q[p]))
    && index[p] == if Single(q, v, h, lo, hi, p, members) then -1 else q[p]
  }

  ghost predicate Done(index: seq<int>, v2: seq<int>, q: seq<int>, v: seq<int>, h: nat, lo: int, hi: int,
      members: set<int>)
    requires Keyed(members, v, h)
  {
    InOrder(q, v, h, lo, hi, members) && forall p :: lo <= p < hi ==> DoneAt(index, v2, q, v, h, lo, hi, p, members)
  }

  twostate predicate RanksKept(v2: array<int>, members: set<int>)
    reads v2
  {
    forall s :: 0 <= s < v2.Length && s !in members ==> v2[s] == old(v2[s])
  }

  ghost predicate ReadyToSplit(index: array<int>, v2: array<int>, q: seq<int>, v: seq<int>, h: nat, lo: int, hi: int,
      members: set<int>)
    reads index
  {
    && index != v2 && |v| == |q| == index.Length == v2.Length && Keyed(members, v, h) && |members| == hi - lo
    && Holds(index, lo, hi, members) && DistinctIn(index, lo, hi) && forall p :: lo <= p < hi ==> index[p] == q[p]
  }

  method SetRanks(index: array<int>, v2: array<int>, jj: int, kk: int, ghost members: set<int>)
    requires index != v2 && Holds(index, jj, kk, members) && DistinctIn(index, jj, kk) && forall m :: m in members ==>
      0 <= m < v2.Length
    modifies v2
    ensures RanksKept(v2, members) && forall p :: jj <= p < kk ==> v2[index[p]] == kk - 1
  {
    for i := 0 to kk - jj
      invariant RanksKept(v2, members) && forall p :: jj <= p < jj + i ==> v2[index[p]] == kk - 1
    {
      v2[index[jj + i]] := kk - 1;
    }
  }

  lemma NoneSingle(index: array<int>, q: seq<int>, v: seq<int>, h: nat, x: int, jj: int, kk: int, members: set<int>)
    requires Holds(index, jj, kk, members) && Keyed(members, v, h) && OnSide(index, v, h, x, jj, kk, Equal)
    requires jj + 1 < kk <= |q| && (forall p :: jj <= p < kk ==> index[p] == q[p]) && InOrder(q, v, h, jj, kk, members)
    ensures forall p :: jj <= p < kk ==> !Single(q, v, h, jj, kk, p, members)
  {
    forall p | jj <= p < kk ensures !Single(q, v, h, jj, kk, p, members) {
      var other := if p == jj then jj + 1 else jj;
      assert Key(v, h, q[other]) == Key(v, h, q[p]);
    }
  }

  /** The equal ones get their common rank; a single one is marked. */
  method CommitEqual(index: array<int>, v2: array<int>, ghost q: seq<int>, v: seq<int>, h: nat, x: int, jj: int,
      kk: int, ghost members: set<int>)
    requires ReadyToSplit(index, v2, q, v, h, jj, kk, members) && jj < kk && OnSide(index, v, h, x, jj, kk, Equal)
    modifies index, v2
    ensures Done(index[..], v2[..], q, v, h, jj, kk, members) && Outside(index, jj, kk) && RanksKept(v2, members)
  {
    SetRanks(index, v2, jj, kk, members);
    if jj == kk - 1 {
      index[jj] := -1;
    } else {
      NoneSingle(index, q, v, h, x, jj, kk, members);
    }
  }

  // ----- split

  ghost predicate SameOn(q: seq<int>, r: seq<int>, lo: int, hi: int) {
    |q| == |r| && 0 <= lo <= hi <= |q| && forall p :: lo <= p < hi ==> q[p] == r[p]
  }

  /** q and r differ in [lo, hi) at most. */
  ghost predicate SameBut(q: seq<int>, r: seq<int>, lo: int, hi: int) {
    |q| == |r| && forall p :: 0 <= p < |q| && !(lo <= p < hi) ==> q[p] == r[p]
  }

  /** Work on other positions and other suffixes leaves a finished part as it is. */
  lemma DoneKept(index: seq<int>, v2: seq<int>, q: seq<int>, index': seq<int>, v2': seq<int>, q': seq<int>,
      v: seq<int>, h: nat, lo: int, hi: int, members: set<int>, others: set<int>)
    requires Keyed(members, v, h) && Done(index, v2, q, v, h, lo, hi, members) && |index| == |q|
    requires SameOn(q, q', lo, hi) && SameOn(index, index', lo, hi)
    requires |v2| == |v2'| && (forall s :: 0 <= s < |v2| && s !in others ==> v2'[s] == v2[s]) && members !! others
    ensures Done(index', v2', q', v, h, lo, hi, members)
  {
    forall p | lo <= p < hi ensures DoneAt(index', v2', q', v, h, lo, hi, p, members) {
      assert DoneAt(index, v2, q, v, h, lo, hi, p, members);
      assert Single(q, v, h, lo, hi, p, members) <==> Single(q', v, h, lo, hi, p, members);
    }
  }

  /** The three parts make the whole. */
  lemma PartsDone(index: seq<int>, v2: seq<int>, q: seq<int>, v: seq<int>, h: nat, x: int, start: int, jj: int,
      kk: int, end: int, members: set<int>)
    requires Keyed(members, v, h) && start <= jj <= kk <= end
    requires Done(index, v2, q, v, h, start, jj, Part(members, v, h, x, Less))
    requires Done(index, v2, q, v, h, jj, kk, Part(members, v, h, x, Equal))
    requires Done(index, v2, q, v, h, kk, end, Part(members, v, h, x, Greater))
    ensures Done(index, v2, q, v, h, start, end, members)
  {
    assert InOrder(q, v, h, start, end, members);
    forall p | start <= p < end ensures DoneAt(index, v2, q, v, h, start, end, p, members) {
      if p < jj {
        assert DoneAt(index, v2, q, v, h, start, jj, p, Part(members, v, h, x, Less));
      } else if p < kk {
        assert DoneAt(index, v2, q, v, h, jj, kk, p, Part(members, v, h, x, Equal));
      } else {
        assert DoneAt(index, v2, q, v, h, kk, end, p, Part(members, v, h, x, Greater));
      }
    }
  }

  /** The index on [lo, hi), q elsewhere. */
  ghost function Read(index: array<int>, q: seq<int>, lo: int, hi: int): (r: seq<int>)
    requires 0 <= lo <= hi <= index.Length == |q|
    reads index
    ensures |r| == |q|
  {
    seq(|q|, p requires 0 <= p < |q| reads index => if lo <= p < hi then index[p] else q[p])
  }

  /**
   * Split sorts one group by the ranks h further on and gives each of its suffixes its new rank; nothing else changes.
   */
  method Split(index: array<int>, v: seq<int>, v2: array<int>, start: int, length: int, h: nat,
      ghost members: set<int>, ghost q0: seq<int>)
    returns (ghost q: seq<int>)
    requires length > 0 && ReadyToSplit(index, v2, q0, v, h, start, start + length, members)
    modifies index, v2
    ensures SameBut(q, q0, start, start + length) && Outside(index, start, start + length) && RanksKept(v2, members)
    ensures Done(index[..], v2[..], q, v, h, start, start + length, members)
    decreases length
  {
    var end := start + length;
    var x := Key(v, h, index[start + length / 2]);
    ghost var pivot := index[start + length / 2];
    assert pivot in Part(members, v, h, x, Equal);
    assert |Part(members, v, h, x, Equal)| > 0;
    var jj, kk := Partition(index, v, start, end, h, x, members);
    q := SplitAround(index, v, v2, start, jj, kk, end, h, x, members, Read(index, q0, start, end));
  }

  /** Once the group is parted around a key. */
  method SplitAround(index: array<int>, v: seq<int>, v2: array<int>, start: int, jj: int, kk: int, end: int, h: nat,
      x: int, ghost members: set<int>, ghost q0: seq<int>)
    returns (ghost q: seq<int>)
    requires index != v2 && |v| == |q0| == index.Length == v2.Length && start <= jj < kk <= end
    requires Parting(index, v, h, x, start, jj, kk, end, jj, kk - jj, end - kk, members)
    requires forall p :: start <= p < end ==> index[p] == q0[p]
    modifies index, v2
    ensures SameBut(q, q0, start, end) && Outside(index, start, end) && RanksKept(v2, members)
    ensures Done(index[..], v2[..], q, v, h, start, end, members)
    decreases end - start, 2
  {
    ghost var lessM, equalM, greaterM := Part(members, v, h, x, Less), Part(members, v, h, x, Equal),
      Part(members, v, h, x, Greater);
    PartsReady(index, v2, q0, v, start, jj, kk, end, h, x, members);
    q := SplitParts(index, v, v2, start, jj, kk, end, h, x, lessM, equalM, greaterM, q0);
    PartsDone(index[..], v2[..], q, v, h, x, start, jj, kk, end, members);
  }

  lemma PartsReady(index: array<int>, v2: array<int>, q: seq<int>, v: seq<int>, start: int, jj: int, kk: int, end: int,
      h: nat, x: int, members: set<int>)
    requires index != v2 && |v| == |q| == index.Length == v2.Length
      && Parting(index, v, h, x, start, jj, kk, end, jj, kk - jj, end - kk, members)
    requires forall p :: start <= p < end ==> index[p] == q[p]
    ensures ReadyToSplit(index, v2, q, v, h, start, jj, Part(members, v, h, x, Less))
    ensures ReadyToSplit(index, v2, q, v, h, jj, kk, Part(members, v, h, x, Equal))
    ensures ReadyToSplit(index, v2, q, v, h, kk, end, Part(members, v, h, x, Greater))
  {
  }

  /** The smaller keys, the pivot's, the greater ones. */
  method SplitParts(index: array<int>, v: seq<int>, v2: array<int>, start: int, jj: int, kk: int, end: int, h: nat,
      x: int, ghost lessM: set<int>, ghost equalM: set<int>, ghost greaterM: set<int>, ghost q0: seq<int>)
    returns (ghost q: seq<int>)
    requires start <= jj < kk <= end && lessM !! equalM && lessM !! greaterM && equalM !! greaterM
    requires ReadyToSplit(index, v2, q0, v, h, start, jj, lessM) && ReadyToSplit(index, v2, q0, v, h, jj, kk, equalM)
    requires ReadyToSplit(index, v2, q0, v, h, kk, end, greaterM) && OnSide(index, v, h, x, jj, kk, Equal)
    modifies index, v2
    ensures SameBut(q, q0, start, end) && Outside(index, start, end) && RanksKept(v2, lessM + equalM + greaterM)
    ensures Done(index[..], v2[..], q, v, h, start, jj, lessM) && Done(index[..], v2[..], q, v, h, jj, kk, equalM)
    ensures Done(index[..], v2[..], q, v, h, kk, end, greaterM)
    decreases end - start, 1
  {
    q := SplitBelow(index, v, v2, start, jj, kk, h, x, lessM, equalM, q0);
    ghost var index2, ranks2, q2 := index[..], v2[..], q;
    if end > kk {
      q := Split(index, v, v2, kk, end - kk, h, greaterM, q);
    }
    DoneKept(index2, ranks2, q2, index[..], v2[..], q, v, h, start, jj, lessM, greaterM);
    DoneKept(index2, ranks2, q2, index[..], v2[..], q, v, h, jj, kk, equalM, greaterM);
  }

  /** The first two parts. */
  method SplitBelow(index: array<int>, v: seq<int>, v2: array<int>, start: int, jj: int, kk: int, h: nat, x: int,
      ghost lessM: set<int>, ghost equalM: set<int>, ghost q0: seq<int>)
    returns (ghost q: seq<int>)
    requires start <= jj < kk && lessM !! equalM
    requires ReadyToSplit(index, v2, q0, v, h, start, jj, lessM) && ReadyToSplit(index, v2, q0, v, h, jj, kk, equalM)
    requires OnSide(index, v, h, x, jj, kk, Equal)
    modifies index, v2
    ensures SameBut(q, q0, start, kk) && Outside(index, start, kk) && RanksKept(v2, lessM + equalM)
    ensures Done(index[..], v2[..], q, v, h, start, jj, lessM) && Done(index[..], v2[..], q, v, h, jj, kk, equalM)
    decreases kk - start, 0
  {
    q := q0;
    if jj > start {
      q := Split(index, v, v2, start, jj - start, h, lessM, q);
    }
    ghost var index1, ranks1 := index[..], v2[..];
    CommitEqual(index, v2, q, v, h, x, jj, kk, equalM);
    DoneKept(index1, ranks1, q, index[..], v2[..], q, v, h, start, jj, lessM, equalM);
  }
}
