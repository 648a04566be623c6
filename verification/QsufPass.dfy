/** Larsson and Sadakane's suffix sort with a read-only rank array: passes that double what the ranks look at. */
module QsufPass {
  import opened Common
  import opened SuffixOrder
  import opened QsufSplit

  // ----- ranks and the order they belong to

  ghost predicate IsOrder(q: seq<int>) {
    Distinct(q) && forall p :: 0 <= p < |q| ==> 0 <= q[p] < |q|
  }

  /** The rank of the suffix at p is the last position with its key. */
  ghost predicate EndAt(q: seq<int>, v: seq<int>, k: seq<int>, p: int)
    requires |q| == |v| == |k| && IsOrder(q) && 0 <= p < |q|
  {
    var e := v[q[p]];
    p <= e < |q| && k[q[e]] == k[q[p]] && forall b :: e < b < |q| ==> k[q[b]] > k[q[p]]
  }

  /** q lists the suffixes in the order of their keys k, and v gives each its rank. */
  ghost predicate Level(q: seq<int>, v: seq<int>, k: seq<int>) {
    && |q| == |v| == |k| && IsOrder(q)
    && (forall a, b :: 0 <= a < b < |q| ==> k[q[a]] <= k[q[b]])
    && forall p :: 0 <= p < |q| ==> EndAt(q, v, k, p)
  }

  lemma PositionOf(q: seq<int>, s: int) returns (p: int)
    requires IsOrder(q) && 0 <= s < |q|
    ensures 0 <= p < |q| && q[p] == s
  {
    DistinctCover(q, s);
    p :| 0 <= p < |q| && q[p] == s;
  }

  lemma RanksAt(q: seq<int>, v: seq<int>, k: seq<int>, a: int, b: int)
    requires Level(q, v, k) && 0 <= a < |q| && 0 <= b < |q|
    ensures v[q[a]] < v[q[b]] <==> k[q[a]] < k[q[b]]
    ensures v[q[a]] == v[q[b]] <==> k[q[a]] == k[q[b]]
  {
    assert EndAt(q, v, k, a) && EndAt(q, v, k, b);
    var e, f := v[q[a]], v[q[b]];
    if e < f {
      assert k[q[f]] > k[q[a]];
    } else if f < e {
      assert k[q[e]] > k[q[b]];
    }
  }

  /** Ranks order the suffixes as the keys do. */
  lemma RanksOrder(q: seq<int>, v: seq<int>, k: seq<int>, text: Bytes, h: nat)
    requires Level(q, v, k) && Orders(k, text, h)
    ensures Orders(v, text, h) && forall s :: 0 <= s < |v| ==> 0 <= v[s] <= |text|
  {
    forall s, t | 0 <= s <= |text| && 0 <= t <= |text|
      ensures (v[s] < v[t] <==> k[s] < k[t]) && (v[s] == v[t] <==> k[s] == k[t])
    {
      var a := PositionOf(q, s);
      var b := PositionOf(q, t);
      RanksAt(q, v, k, a, b);
    }
    forall s | 0 <= s < |v| ensures 0 <= v[s] <= |text| {
      var a := PositionOf(q, s);
      assert EndAt(q, v, k, a);
    }
  }

  /** No other suffix has the rank of the one at p. */
  ghost predicate Alone(q: seq<int>, v: seq<int>, p: int)
    requires |q| == |v| && IsOrder(q) && 0 <= p < |q|
  {
    forall b :: 0 <= b < |q| && b != p ==> v[q[b]] != v[q[p]]
  }

  lemma AloneIsPlaced(q: seq<int>, v: seq<int>, k: seq<int>, p: int)
    requires Level(q, v, k) && 0 <= p < |q| && Alone(q, v, p)
    ensures v[q[p]] == p
  {
    assert EndAt(q, v, k, p);
    RanksAt(q, v, k, p, v[q[p]]);
  }

  // ----- what the index says

  /** One step of a scan, from a to b: a finished run, marked with its length, or a group still to be sorted. */
  ghost predicate StepOk(index: seq<int>, q: seq<int>, v: seq<int>, h: nat, a: int, b: int)
    requires |index| == |q| == |v| && IsOrder(q)
  {
    && 0 <= a < b <= |q|
    && if index[a] < 0 then b == a - index[a] && forall p :: a <= p < b ==> Alone(q, v, p)
       else GroupAt(index, q, v, h, a, b)
  }

  ghost predicate GroupAt(index: seq<int>, q: seq<int>, v: seq<int>, h: nat, a: int, b: int)
    requires |index| == |q| == |v| && IsOrder(q) && 0 <= a < b <= |q|
  {
    forall p :: a <= p < b ==> index[p] == q[p] && v[q[p]] == b - 1 && q[p] + h < |q|
  }

  /** The steps of a scan cover the positions up to end: negative lengths cover finished positions only. */
  ghost predicate CoveredTo(index: seq<int>, q: seq<int>, v: seq<int>, h: nat, stops: seq<int>, end: int) {
    && |index| == |q| == |v| && IsOrder(q) && |stops| >= 1 && stops[0] == 0 && stops[|stops| - 1] == end
    && forall i :: 0 <= i < |stops| - 1 ==> StepAt(index, q, v, h, stops, i)
  }

  ghost predicate StepAt(index: seq<int>, q: seq<int>, v: seq<int>, h: nat, stops: seq<int>, i: int)
    requires |index| == |q| == |v| && IsOrder(q) && 0 <= i < |stops| - 1
  {
    StepOk(index, q, v, h, stops[i], stops[i + 1])
  }

  ghost predicate Covered(index: seq<int>, q: seq<int>, v: seq<int>, h: nat, stops: seq<int>) {
    CoveredTo(index, q, v, h, stops, |q|)
  }

  lemma CoverGrows(index: seq<int>, q: seq<int>, v: seq<int>, h: nat, stops: seq<int>, a: int, b: int)
    requires CoveredTo(index, q, v, h, stops, a) && StepOk(index, q, v, h, a, b)
    ensures CoveredTo(index, q, v, h, stops + [b], b)
  {
    forall i | 0 <= i < |stops + [b]| - 1 ensures StepAt(index, q, v, h, stops + [b], i) {
      if i < |stops| - 1 {
        assert StepAt(index, q, v, h, stops, i);
      }
    }
  }

  /** Step i is no group of one, but for the one that starts at except. */
  ghost predicate TightAt(index: seq<int>, stops: seq<int>, except: int, i: int)
    requires 0 <= i < |stops| - 1
  {
    0 <= stops[i] < |index| && (stops[i + 1] == stops[i] + 1 && stops[i] != except ==> index[stops[i]] < 0)
  }

  /** No group of the scan has a single, and so finished, member, except perhaps the one at except. */
  ghost predicate Tight(index: seq<int>, stops: seq<int>, except: int) {
    forall i :: 0 <= i < |stops| - 1 ==> TightAt(index, stops, except, i)
  }

  lemma TightGrows(index: seq<int>, stops: seq<int>, except: int, a: int, b: int)
    requires Tight(index, stops, except) && stops != [] && stops[|stops| - 1] == a && 0 <= a < |index|
    requires b == a + 1 && a != except ==> index[a] < 0
    ensures Tight(index, stops + [b], except)
  {
    forall i | 0 <= i < |stops + [b]| - 1 ensures TightAt(index, stops + [b], except, i) {
      if i < |stops| - 1 {
        assert TightAt(index, stops, except, i);
      }
    }
  }

  /** Position p lies in step i of the scan, and that step is a run marked with its negative length. */
  ghost predicate InRun(index: seq<int>, stops: seq<int>, p: int, i: int) {
    0 <= i < |stops| - 1 && stops[i] <= p < stops[i + 1] && 0 <= stops[i] < |index| && index[stops[i]] < 0
  }

  ghost predicate UnderRun(index: seq<int>, stops: seq<int>, p: int) {
    exists i :: InRun(index, stops, p, i)
  }

  lemma {:induction false} StepWith(index: seq<int>, q: seq<int>, v: seq<int>, h: nat, stops: seq<int>, p: int, n: nat)
    returns (i: int)
    requires CoveredTo(index, q, v, h, stops, |q|) && n < |stops| && 0 <= p < stops[n]
    ensures 0 <= i < |stops| - 1 && stops[i] <= p < stops[i + 1]
  {
    if n > 0 && p < stops[n - 1] {
      i := StepWith(index, q, v, h, stops, p, n - 1);
    } else {
      i := n - 1;
    }
  }

  /** Negative run lengths cover exactly the finished positions. */
  lemma FinishedIffMarked(index: seq<int>, q: seq<int>, v: seq<int>, h: nat, stops: seq<int>, except: int, p: int)
    requires Covered(index, q, v, h, stops) && Tight(index, stops, except) && 0 <= p < |q| && p != except
    ensures Alone(q, v, p) <==> UnderRun(index, stops, p)
  {
    forall j | InRun(index, stops, p, j) ensures Alone(q, v, p) {
      assert StepAt(index, q, v, h, stops, j);
    }
    var i := StepWith(index, q, v, h, stops, p, |stops| - 1);
    assert StepAt(index, q, v, h, stops, i) && TightAt(index, stops, except, i);
    if index[stops[i]] < 0 {
      assert InRun(index, stops, p, i);
    } else {
      GroupShares(index, q, v, h, stops[i], stops[i + 1], p, except);
    }
  }

  lemma GroupShares(index: seq<int>, q: seq<int>, v: seq<int>, h: nat, a: int, b: int, p: int, except: int)
    requires |index| == |q| == |v| && IsOrder(q) && 0 <= a <= p < b <= |q| && GroupAt(index, q, v, h, a, b)
    requires p != except && (b == a + 1 ==> a == except)
    ensures !Alone(q, v, p)
  {
    var other := if p == a then a + 1 else a;
    assert v[q[other]] == b - 1 == v[q[p]];
  }

  // ----- scanning

  /** A run [a, b) of finished positions, or a group to be sorted. */
  datatype Segment = Run(a: int, b: int) | Group(a: int, b: int)

  ghost predicate SegmentOk(index: seq<int>, q: seq<int>, v: seq<int>, h: nat, g: Segment)
    requires |index| == |q| == |v| && IsOrder(q)
  {
    && 0 <= g.a < g.b <= |q|
    && if g.Run? then forall p :: g.a <= p < g.b ==> Alone(q, v, p) else GroupAt(index, q, v, h, g.a, g.b)
  }

  /** The segments tile [0, end). */
  ghost predicate Plan(index: seq<int>, q: seq<int>, v: seq<int>, h: nat, plan: seq<Segment>, end: int) {
    && |index| == |q| == |v| && IsOrder(q)
    && (forall i :: 0 <= i < |plan| ==> SegmentOk(index, q, v, h, plan[i]))
    && (forall i, j :: 0 <= i < j < |plan| ==> plan[i].b <= plan[j].a)
    && (if plan == [] then end == 0 else plan[0].a == 0 && plan[|plan| - 1].b == end)
    && (forall i :: 0 <= i < |plan| - 1 ==> Meet(plan, i))
  }

  ghost predicate Meet(plan: seq<Segment>, i: int)
    requires 0 <= i < |plan| - 1
  {
    plan[i].b == plan[i + 1].a
  }

  /** Neighbouring runs have been joined. */
  ghost predicate Joined(plan: seq<Segment>) {
    forall i :: 0 <= i < |plan| - 1 ==> !BothRuns(plan, i)
  }

  ghost predicate BothRuns(plan: seq<Segment>, i: int)
    requires 0 <= i < |plan| - 1
  {
    plan[i].Run? && plan[i + 1].Run?
  }

  lemma PlanGrows(index: seq<int>, q: seq<int>, v: seq<int>, h: nat, plan: seq<Segment>, g: Segment)
    requires Plan(index, q, v, h, plan, g.a) && Joined(plan) && SegmentOk(index, q, v, h, g)
    requires g.Run? ==> plan == [] || plan[|plan| - 1].Group?
    ensures Plan(index, q, v, h, plan + [g], g.b) && Joined(plan + [g])
  {
    var more := plan + [g];
    forall i | 0 <= i < |more| - 1 ensures Meet(more, i) && !BothRuns(more, i) {
      if i < |plan| - 1 {
        assert Meet(plan, i) && !BothRuns(plan, i);
      }
    }
    forall i, j | 0 <= i < j < |more| ensures more[i].b <= more[j].a {
      if j == |plan| && i < |plan| - 1 {
        assert plan[i].b <= plan[|plan| - 1].a;
        assert SegmentOk(index, q, v, h, plan[|plan| - 1]);
      }
    }
  }

  /**
   * One scan over the index: a group to sort for every unfinished one, and the finished runs joined.
   */
  method Scan(index: array<int>, v: seq<int>, h: nat, ghost q: seq<int>, ghost stops: seq<int>)
    returns (plan: seq<Segment>)
    requires Covered(index[..], q, v, h, stops)
    ensures Plan(index[..], q, v, h, plan, |q|) && Joined(plan)
  {
    plan := [];
    var i, n := 0, 0;
    ghost var step := 0;
    while i < index.Length
      invariant 0 <= step < |stops| && i == stops[step] && 0 <= n <= i <= |q|
      invariant Plan(index[..], q, v, h, plan, i - n) && Joined(plan) && (plan == [] || plan[|plan| - 1].Group?)
      invariant forall p :: i - n <= p < i ==> Alone(q, v, p)
      decreases |stops| - step
    {
      assert StepAt(index[..], q, v, h, stops, step);
      if index[i] < 0 {
        n := n - index[i];
        i := i - index[i];
      } else {
        plan := CloseRun(index, v, h, q, plan, i, n);
        n := v[index[i]] + 1 - i;
        PlanGrows(index[..], q, v, h, plan, Group(i, i + n));
        plan := plan + [Group(i, i + n)];
        i, n := i + n, 0;
      }
      step := step + 1;
    }
    plan := CloseRun(index, v, h, q, plan, i, n);
  }

  /** The finished positions seen last become one run. */
  method CloseRun(index: array<int>, v: seq<int>, h: nat, ghost q: seq<int>, plan0: seq<Segment>, i: int, n: int)
    returns (plan: seq<Segment>)
    requires 0 <= n <= i <= |q| && Plan(index[..], q, v, h, plan0, i - n) && Joined(plan0)
    requires n > 0 ==> plan0 == [] || plan0[|plan0| - 1].Group?
    requires forall p :: i - n <= p < i ==> Alone(q, v, p)
    ensures Plan(index[..], q, v, h, plan, i) && Joined(plan)
  {
    plan := plan0;
    if n != 0 {
      PlanGrows(index[..], q, v, h, plan, Run(i - n, i));
      plan := plan + [Run(i - n, i)];
    }
  }

  // ----- sorting the groups, in any order

  ghost function Members(q: seq<int>, g: Segment): (m: set<int>)
    requires IsOrder(q) && 0 <= g.a <= g.b <= |q|
  {
    set p | g.a <= p < g.b :: q[p]
  }

  lemma MembersCount(q: seq<int>, g: Segment)
    requires IsOrder(q) && 0 <= g.a <= g.b <= |q|
    ensures |Members(q, g)| == g.b - g.a
    decreases g.b - g.a
  {
    if g.a < g.b {
      var rest := if g.Run? then Run(g.a, g.b - 1) else Group(g.a, g.b - 1);
      MembersCount(q, rest);
      assert Members(q, g) == Members(q, rest) + {q[g.b - 1]};
    }
  }

  lemma MembersApart(q: seq<int>, g: Segment, f: Segment)
    requires IsOrder(q) && 0 <= g.a <= g.b <= |q| && 0 <= f.a <= f.b <= |q| && (g.b <= f.a || f.b <= g.a)
    ensures Members(q, g) !! Members(q, f)
  {
  }

  lemma GroupKeyed(index: seq<int>, q: seq<int>, v: seq<int>, h: nat, g: Segment)
    requires |index| == |q| == |v| && IsOrder(q) && g.Group? && SegmentOk(index, q, v, h, g)
    ensures Keyed(Members(q, g), v, h)
  {
  }

  /** Nothing has happened to a segment: index and q are as they were, and its suffixes have their old ranks. */
  ghost predicate Unsplit(index0: seq<int>, q0: seq<int>, index: seq<int>, v: seq<int>, v2: seq<int>, q: seq<int>,
      g: Segment)
    requires |index0| == |q0| == |index| == |v| == |v2| == |q| && IsOrder(q0) && 0 <= g.a <= g.b <= |q0|
  {
    forall p :: g.a <= p < g.b ==> index[p] == index0[p] && q[p] == q0[p] && v2[q0[p]] == v[q0[p]]
  }

  /** A segment while tasks are being run: split if it is a group whose turn has come, else untouched. */
  ghost predicate SegmentState(index0: seq<int>, q0: seq<int>, index: seq<int>, v: seq<int>, v2: seq<int>, q: seq<int>,
      h: nat, g: Segment, split: bool)
    requires |index0| == |q0| == |index| == |v| == |v2| == |q| && IsOrder(q0) && 0 <= g.a <= g.b <= |q0|
  {
    if split && g.Group? then Keyed(Members(q0, g), v, h) && Done(index, v2, q, v, h, g.a, g.b, Members(q0, g))
    else Unsplit(index0, q0, index, v, v2, q, g)
  }

  ghost predicate TasksState(index0: seq<int>, q0: seq<int>, index: seq<int>, v: seq<int>, v2: seq<int>, q: seq<int>,
      h: nat, plan: seq<Segment>, remaining: set<int>)
  {
    && |index0| == |q0| == |index| == |v| == |v2| == |q| && IsOrder(q0)
    && (forall i :: 0 <= i < |plan| ==> 0 <= plan[i].a <= plan[i].b <= |q0|)
    && forall i :: 0 <= i < |plan| ==> SegmentState(index0, q0, index, v, v2, q, h, plan[i], i !in remaining)
  }

  /** Running one task moves its group from untouched to split. */
  lemma TaskRan(index0: seq<int>, q0: seq<int>, index: seq<int>, v: seq<int>, v2: seq<int>, q: seq<int>,
      index': seq<int>, v2': seq<int>, q': seq<int>, h: nat, plan: seq<Segment>, remaining: set<int>, i: int)
    requires Plan(index0, q0, v, h, plan, |q0|) && TasksState(index0, q0, index, v, v2, q, h, plan, remaining)
    requires i in remaining && 0 <= i < |plan| && plan[i].Group? && Keyed(Members(q0, plan[i]), v, h)
    requires |index'| == |v2'| == |q'| == |q|
    requires SameBut(index', index, plan[i].a, plan[i].b) && SameBut(q', q, plan[i].a, plan[i].b)
    requires forall s :: 0 <= s < |v2| && s !in Members(q0, plan[i]) ==> v2'[s] == v2[s]
    requires Done(index', v2', q', v, h, plan[i].a, plan[i].b, Members(q0, plan[i]))
    ensures TasksState(index0, q0, index', v, v2', q', h, plan, remaining - {i})
  {
    forall j | 0 <= j < |plan| ensures SegmentState(index0, q0, index', v, v2', q', h, plan[j], j !in remaining - {i}) {
      if j != i {
        assert SegmentState(index0, q0, index, v, v2, q, h, plan[j], j !in remaining);
        assert plan[j].b <= plan[i].a || plan[i].b <= plan[j].a;
        MembersApart(q0, plan[j], plan[i]);
        if j !in remaining && plan[j].Group? {
          DoneKept(index, v2, q, index', v2', q', v, h, plan[j].a, plan[j].b, Members(q0, plan[j]),
            Members(q0, plan[i]));
        } else {
          forall p | plan[j].a <= p < plan[j].b ensures v2'[q0[p]] == v[q0[p]] {
            assert q0[p] in Members(q0, plan[j]);
          }
        }
      }
    }
  }

  /** The workers take the groups in any order. */
  method RunTasks(index: array<int>, v: seq<int>, v2: array<int>, h: nat, plan: seq<Segment>, ghost q0: seq<int>)
    returns (ghost q: seq<int>)
    requires index != v2 && index.Length == v2.Length && Plan(index[..], q0, v, h, plan, |q0|) && v2[..] == v
    modifies index, v2
    ensures TasksState(old(index[..]), q0, index[..], v, v2[..], q, h, plan, {})
  {
    ghost var index0 := index[..];
    q := q0;
    var remaining := set i | 0 <= i < |plan| && plan[i].Group?;
    while remaining != {}
      invariant forall i :: i in remaining ==> 0 <= i < |plan| && plan[i].Group?
      invariant TasksState(index0, q0, index[..], v, v2[..], q, h, plan, remaining)
      decreases |remaining|
    {
      NonEmpty(remaining);
      var i :| i in remaining;
      q := RunTask(index, v, v2, h, plan, i, remaining, index0, q0, q);
      remaining := remaining - {i};
    }
  }

  /** A group that has not been split yet can be. */
  lemma TaskReady(index: array<int>, v: seq<int>, v2: array<int>, h: nat, plan: seq<Segment>, i: int,
      remaining: set<int>, index0: seq<int>, q0: seq<int>, q1: seq<int>)
    requires index != v2 && index.Length == v2.Length && Plan(index0, q0, v, h, plan, |q0|)
    requires i in remaining && 0 <= i < |plan| && plan[i].Group?
    requires TasksState(index0, q0, index[..], v, v2[..], q1, h, plan, remaining)
    ensures 0 <= plan[i].a < plan[i].b <= |q0| && Keyed(Members(q0, plan[i]), v, h)
    ensures ReadyToSplit(index, v2, q1, v, h, plan[i].a, plan[i].b, Members(q0, plan[i]))
  {
    assert SegmentOk(index0, q0, v, h, plan[i]);
    assert SegmentState(index0, q0, index[..], v, v2[..], q1, h, plan[i], i !in remaining);
    GroupKeyed(index0, q0, v, h, plan[i]);
    MembersCount(q0, plan[i]);
  }

  method RunTask(index: array<int>, v: seq<int>, v2: array<int>, h: nat, plan: seq<Segment>, i: int,
      ghost remaining: set<int>, ghost index0: seq<int>, ghost q0: seq<int>, ghost q1: seq<int>)
    returns (ghost q: seq<int>)
    requires index != v2 && index.Length == v2.Length && Plan(index0, q0, v, h, plan, |q0|)
    requires i in remaining && 0 <= i < |plan| && plan[i].Group?
    requires TasksState(index0, q0, index[..], v, v2[..], q1, h, plan, remaining)
    modifies index, v2
    ensures TasksState(index0, q0, index[..], v, v2[..], q, h, plan, remaining - {i})
  {
    ghost var before, ranks, members := index[..], v2[..], Members(q0, plan[i]);
    ghost var end := plan[i].b;
    TaskReady(index, v, v2, h, plan, i, remaining, index0, q0, q1);
    q := Split(index, v, v2, plan[i].a, plan[i].b - plan[i].a, h, members, q1);
    assert Done(index[..], v2[..], q, v, h, plan[i].a, end, members);
    assert SameBut(index[..], before, plan[i].a, end);
    TaskRan(index0, q0, before, v, ranks, q1, index[..], v2[..], q, h, plan, remaining, i);
  }

  // ----- the level after a pass

  /** What a pass has done once all its tasks are run. */
  ghost predicate Passed(index0: seq<int>, q0: seq<int>, v: seq<int>, k: seq<int>, index: seq<int>, v2: seq<int>,
      q: seq<int>, h: nat, plan: seq<Segment>) {
    && Level(q0, v, k) && Plan(index0, q0, v, h, plan, |q0|) && TasksState(index0, q0, index, v, v2, q, h, plan, {})
    && (forall s :: 0 <= s < |v| ==> 0 <= v[s] < |v|)
  }

  lemma {:induction false} Locate(index: seq<int>, q: seq<int>, v: seq<int>, h: nat, plan: seq<Segment>, p: int,
      n: nat) returns (i: int)
    requires Plan(index, q, v, h, plan, |q|) && n < |plan| && 0 <= p < plan[n].b
    ensures 0 <= i <= n && plan[i].a <= p < plan[i].b
  {
    if p >= plan[n].a {
      i := n;
    } else {
      assert Meet(plan, n - 1);
      i := Locate(index, q, v, h, plan, p, n - 1);
    }
  }

  /** The old rank of what is at p now: it lies in p's segment. */
  lemma RankIn(index0: seq<int>, q0: seq<int>, v: seq<int>, k: seq<int>, index: seq<int>, v2: seq<int>, q: seq<int>,
      h: nat, plan: seq<Segment>, i: int, p: int)
    requires Passed(index0, q0, v, k, index, v2, q, h, plan) && 0 <= i < |plan| && plan[i].a <= p < plan[i].b
    ensures 0 <= q[p] < |q| && v[q[p]] == if plan[i].Group? then plan[i].b - 1 else p
    ensures plan[i].Group? ==> q[p] + h < |q|
    ensures plan[i].Run? ==> q[p] == q0[p] && v2[q[p]] == p
  {
    var g := plan[i];
    assert SegmentOk(index0, q0, v, h, g) && SegmentState(index0, q0, index, v, v2, q, h, g, i !in {});
    if g.Group? {
      assert q[p] in Members(q0, g);
    } else {
      AloneIsPlaced(q0, v, k, p);
    }
  }

  lemma DoubledLess(v: seq<int>, h: nat, s: int, t: int)
    requires 0 <= s < |v| && 0 <= t < |v| && forall i :: 0 <= i < |v| ==> 0 <= v[i] < |v|
    ensures v[s] < v[t] ==> Doubled(v, h)[s] < Doubled(v, h)[t]
    ensures v[s] == v[t] && s + h < |v| && t + h < |v| ==>
      (Doubled(v, h)[s] < Doubled(v, h)[t] <==> v[s + h] < v[t + h])
        && (Doubled(v, h)[s] == Doubled(v, h)[t] <==> v[s + h] == v[t + h])
  {
    MulOrder(v[s], v[t], if s + h < |v| then v[s + h] else 0, if t + h < |v| then v[t + h] else 0, |v|);
  }

  lemma InKeyOrder(index0: seq<int>, q0: seq<int>, v: seq<int>, k: seq<int>, index: seq<int>, v2: seq<int>,
      q: seq<int>, h: nat, plan: seq<Segment>, a: int, b: int)
    requires Passed(index0, q0, v, k, index, v2, q, h, plan) && 0 <= a < b < |q|
    ensures 0 <= q[a] < |q| && 0 <= q[b] < |q| && q[a] != q[b] && Doubled(v, h)[q[a]] <= Doubled(v, h)[q[b]]
  {
    var i := Locate(index0, q0, v, h, plan, a, |plan| - 1);
    var j := Locate(index0, q0, v, h, plan, b, |plan| - 1);
    RankIn(index0, q0, v, k, index, v2, q, h, plan, i, a);
    RankIn(index0, q0, v, k, index, v2, q, h, plan, j, b);
    DoubledLess(v, h, q[a], q[b]);
    if i == j && plan[i].Group? {
      assert SegmentState(index0, q0, index, v, v2, q, h, plan[i], i !in {});
    }
  }

  /** Within a group the new rank is the last position with the same key. */
  lemma GroupEnd(index0: seq<int>, q0: seq<int>, v: seq<int>, k: seq<int>, index: seq<int>, v2: seq<int>, q: seq<int>,
      h: nat, plan: seq<Segment>, i: int, p: int)
    requires Passed(index0, q0, v, k, index, v2, q, h, plan) && IsOrder(q)
    requires 0 <= i < |plan| && plan[i].Group? && plan[i].a <= p < plan[i].b
    ensures var e, kk := v2[q[p]], Doubled(v, h);
      p <= e < plan[i].b && kk[q[e]] == kk[q[p]] && forall b :: e < b < plan[i].b ==> kk[q[b]] > kk[q[p]]
  {
    var g := plan[i];
    RankIn(index0, q0, v, k, index, v2, q, h, plan, i, p);
    assert SegmentState(index0, q0, index, v, v2, q, h, g, i !in {});
    assert DoneAt(index, v2, q, v, h, g.a, g.b, p, Members(q0, g));
    var e := v2[q[p]];
    SameGroup(index0, q0, v, k, index, v2, q, h, plan, i, p, e);
    forall b | e < b < g.b ensures Doubled(v, h)[q[b]] > Doubled(v, h)[q[p]] {
      SameGroup(index0, q0, v, k, index, v2, q, h, plan, i, p, b);
    }
  }

  /** Within a group the keys decide. */
  lemma SameGroup(index0: seq<int>, q0: seq<int>, v: seq<int>, k: seq<int>, index: seq<int>, v2: seq<int>,
      q: seq<int>, h: nat, plan: seq<Segment>, i: int, p: int, b: int)
    requires Passed(index0, q0, v, k, index, v2, q, h, plan)
    requires 0 <= i < |plan| && plan[i].Group? && plan[i].a <= p < plan[i].b && plan[i].a <= b < plan[i].b
    ensures 0 <= q[p] && q[p] + h < |v| && 0 <= q[b] && q[b] + h < |v|
    ensures Doubled(v, h)[q[p]] < Doubled(v, h)[q[b]] <==> Key(v, h, q[p]) < Key(v, h, q[b])
    ensures Doubled(v, h)[q[p]] == Doubled(v, h)[q[b]] <==> Key(v, h, q[p]) == Key(v, h, q[b])
  {
    RankIn(index0, q0, v, k, index, v2, q, h, plan, i, p);
    RankIn(index0, q0, v, k, index, v2, q, h, plan, i, b);
    DoubledLess(v, h, q[p], q[b]);
  }

  lemma EndsRight(index0: seq<int>, q0: seq<int>, v: seq<int>, k: seq<int>, index: seq<int>, v2: seq<int>, q: seq<int>,
      h: nat, plan: seq<Segment>, p: int)
    requires Passed(index0, q0, v, k, index, v2, q, h, plan) && IsOrder(q) && 0 <= p < |q|
    ensures EndAt(q, v2, Doubled(v, h), p)
  {
    var i := Locate(index0, q0, v, h, plan, p, |plan| - 1);
    RankIn(index0, q0, v, k, index, v2, q, h, plan, i, p);
    if plan[i].Group? {
      GroupEnd(index0, q0, v, k, index, v2, q, h, plan, i, p);
    }
    forall b | v2[q[p]] < b < |q| ensures Doubled(v, h)[q[b]] > Doubled(v, h)[q[p]] {
      if plan[i].Run? || b >= plan[i].b {
        LaterIsGreater(index0, q0, v, k, index, v2, q, h, plan, i, p, b);
      }
    }
  }

  /** Beyond its segment, or its position in a run, everything has a greater rank. */
  lemma LaterIsGreater(index0: seq<int>, q0: seq<int>, v: seq<int>, k: seq<int>, index: seq<int>, v2: seq<int>,
      q: seq<int>, h: nat, plan: seq<Segment>, i: int, p: int, b: int)
    requires Passed(index0, q0, v, k, index, v2, q, h, plan) && IsOrder(q)
    requires 0 <= i < |plan| && plan[i].a <= p < plan[i].b && p < b < |q| && (plan[i].Run? || b >= plan[i].b)
    ensures Doubled(v, h)[q[b]] > Doubled(v, h)[q[p]]
  {
    var j := Locate(index0, q0, v, h, plan, b, |plan| - 1);
    RankIn(index0, q0, v, k, index, v2, q, h, plan, i, p);
    RankIn(index0, q0, v, k, index, v2, q, h, plan, j, b);
    DoubledLess(v, h, q[p], q[b]);
  }

  /** A pass leads from ranks by h bytes to ranks by twice as many. */
  lemma NextLevel(index0: seq<int>, q0: seq<int>, v: seq<int>, k: seq<int>, index: seq<int>, v2: seq<int>, q: seq<int>,
      h: nat, plan: seq<Segment>)
    requires Passed(index0, q0, v, k, index, v2, q, h, plan)
    ensures Level(q, v2, Doubled(v, h))
  {
    forall p | 0 <= p < |q| ensures 0 <= q[p] < |q| {
      var i := Locate(index0, q0, v, h, plan, p, |plan| - 1);
      RankIn(index0, q0, v, k, index, v2, q, h, plan, i, p);
    }
    forall a, b | 0 <= a < b < |q| ensures q[a] != q[b] && Doubled(v, h)[q[a]] <= Doubled(v, h)[q[b]] {
      InKeyOrder(index0, q0, v, k, index, v2, q, h, plan, a, b);
    }
    forall p | 0 <= p < |q| ensures EndAt(q, v2, Doubled(v, h), p) {
      EndsRight(index0, q0, v, k, index, v2, q, h, plan, p);
    }
  }

  // ----- marks, and what the next scan will see

  /** A run is marked at its start with its length. */
  method ApplyMarks(index: array<int>, plan: seq<Segment>)
    requires forall i :: 0 <= i < |plan| ==> 0 <= plan[i].a < plan[i].b <= index.Length
    requires forall i, j :: 0 <= i < j < |plan| ==> plan[i].b <= plan[j].a
    modifies index
    ensures forall i :: 0 <= i < |plan| ==> Marked(old(index[..]), index[..], plan[i])
  {
    ghost var before := index[..];
    for j := 0 to |plan|
      invariant forall i :: 0 <= i < j ==> Marked(before, index[..], plan[i])
      invariant forall i :: j <= i < |plan| ==> SameOn(before, index[..], plan[i].a, plan[i].b)
    {
      if plan[j].Run? {
        index[plan[j].a] := plan[j].a - plan[j].b;
      }
    }
  }

  ghost predicate Marked(before: seq<int>, after: seq<int>, g: Segment) {
    && |before| == |after| && 0 <= g.a < g.b <= |before|
    && if g.Run? then after[g.a] == g.a - g.b else SameOn(before, after, g.a, g.b)
  }

  lemma RunStillAlone(index0: seq<int>, q0: seq<int>, v: seq<int>, k: seq<int>, index: seq<int>, v2: seq<int>,
      q: seq<int>, h: nat, plan: seq<Segment>, i: int, p: int)
    requires Passed(index0, q0, v, k, index, v2, q, h, plan) && Level(q, v2, Doubled(v, h))
    requires 0 <= i < |plan| && plan[i].Run? && plan[i].a <= p < plan[i].b
    ensures Alone(q, v2, p)
  {
    RankIn(index0, q0, v, k, index, v2, q, h, plan, i, p);
    forall b | 0 <= b < |q| && b != p ensures v2[q[b]] != v2[q[p]] {
      var j := Locate(index0, q0, v, h, plan, b, |plan| - 1);
      RankIn(index0, q0, v, k, index, v2, q, h, plan, j, b);
      DoubledLess(v, h, q[p], q[b]);
      DoubledLess(v, h, q[b], q[p]);
      RanksAt(q, v2, Doubled(v, h), b, p);
    }
  }

  /** Where keys differ within a group, so do doubled ranks; where they agree, too. */
  lemma KeysInGroup(index0: seq<int>, q0: seq<int>, v: seq<int>, k: seq<int>, index: seq<int>, v2: seq<int>,
      q: seq<int>, h: nat, plan: seq<Segment>, i: int, a: int, b: int)
    requires Passed(index0, q0, v, k, index, v2, q, h, plan) && Level(q, v2, Doubled(v, h))
    requires 0 <= i < |plan| && plan[i].Group? && plan[i].a <= a < plan[i].b && plan[i].a <= b < plan[i].b
    ensures q[a] + h < |v| && q[b] + h < |v|
    ensures v2[q[a]] == v2[q[b]] <==> Key(v, h, q[a]) == Key(v, h, q[b])
    ensures v2[q[a]] < v2[q[b]] <==> Key(v, h, q[a]) < Key(v, h, q[b])
  {
    RankIn(index0, q0, v, k, index, v2, q, h, plan, i, a);
    RankIn(index0, q0, v, k, index, v2, q, h, plan, i, b);
    DoubledLess(v, h, q[a], q[b]);
    RanksAt(q, v2, Doubled(v, h), a, b);
  }

  lemma GroupAlone(index0: seq<int>, q0: seq<int>, v: seq<int>, k: seq<int>, index: seq<int>, v2: seq<int>,
      q: seq<int>, h: nat, plan: seq<Segment>, i: int, p: int)
    requires Passed(index0, q0, v, k, index, v2, q, h, plan) && Level(q, v2, Doubled(v, h))
    requires 0 <= i < |plan| && plan[i].Group? && plan[i].a <= p < plan[i].b && index[p] == -1
    ensures Alone(q, v2, p)
  {
    var g := plan[i];
    assert SegmentState(index0, q0, index, v, v2, q, h, g, i !in {});
    assert DoneAt(index, v2, q, v, h, g.a, g.b, p, Members(q0, g));
    RankIn(index0, q0, v, k, index, v2, q, h, plan, i, p);
    forall b | 0 <= b < |q| && b != p ensures v2[q[b]] != v2[q[p]] {
      var j := Locate(index0, q0, v, h, plan, b, |plan| - 1);
      if j == i {
        KeysInGroup(index0, q0, v, k, index, v2, q, h, plan, i, b, p);
      } else {
        SegmentsDiffer(index0, q0, v, k, index, v2, q, h, plan, i, p, j, b);
      }
    }
  }

  /** Suffixes of different segments have different ranks. */
  lemma SegmentsDiffer(index0: seq<int>, q0: seq<int>, v: seq<int>, k: seq<int>, index: seq<int>, v2: seq<int>,
      q: seq<int>, h: nat, plan: seq<Segment>, i: int, p: int, j: int, b: int)
    requires Passed(index0, q0, v, k, index, v2, q, h, plan) && Level(q, v2, Doubled(v, h))
    requires 0 <= i < |plan| && plan[i].Group? && plan[i].a <= p < plan[i].b
    requires 0 <= j < |plan| && plan[j].a <= b < plan[j].b && i != j
    ensures v2[q[b]] != v2[q[p]]
  {
    RankIn(index0, q0, v, k, index, v2, q, h, plan, i, p);
    RankIn(index0, q0, v, k, index, v2, q, h, plan, j, b);
    assert plan[i].b <= plan[j].a || plan[j].b <= plan[i].a;
    DoubledLess(v, h, q[p], q[b]);
    DoubledLess(v, h, q[b], q[p]);
    RanksAt(q, v2, Doubled(v, h), b, p);
  }

  /** c starts a subgroup: everything before it in its group has a smaller key. */
  ghost predicate SubgroupStart(q: seq<int>, v: seq<int>, v2: seq<int>, g: Segment, c: int)
    requires |q| == |v2| && IsOrder(q) && 0 <= g.a <= g.b <= |q|
  {
    g.a <= c <= g.b && forall p, r :: g.a <= p < c <= r < g.b ==> v2[q[p]] < v2[q[r]]
  }

  /** The subgroup at c is one step of the next scan. */
  lemma SubgroupStep(text: Bytes, index0: seq<int>, q0: seq<int>, v: seq<int>, k: seq<int>, index: seq<int>,
      v2: seq<int>, q: seq<int>, h: nat, plan: seq<Segment>, i: int, c: int, marked: seq<int>)
    requires Passed(index0, q0, v, k, index, v2, q, h, plan) && Level(q, v2, Doubled(v, h))
      && Orders(Doubled(v, h), text, h + h)
    requires 0 <= i < |plan| && plan[i].Group? && SubgroupStart(q, v, v2, plan[i], c) && c < plan[i].b
      && Marked(index, marked, plan[i])
    ensures var d := v2[q[c]] + 1;
      && c < d <= plan[i].b && StepOk(marked, q, v2, h + h, c, d) && SubgroupStart(q, v, v2, plan[i], d)
      && (d == c + 1 ==> marked[c] < 0)
  {
    var g, d := plan[i], v2[q[c]] + 1;
    SubgroupEnd(index0, q0, v, k, index, v2, q, h, plan, i, c);
    if index[c] == -1 {
      GroupAlone(index0, q0, v, k, index, v2, q, h, plan, i, c);
      assert EndAt(q, v2, Doubled(v, h), c);
      AloneIsPlaced(q, v2, Doubled(v, h), c);
    } else {
      var b := Twin(index0, q0, v, k, index, v2, q, h, plan, i, c);
      assert EndAt(q, v2, Doubled(v, h), b);
      assert c < b;
      forall p | c <= p < d ensures marked[p] == q[p] && q[p] + (h + h) < |q| {
        SharedStays(text, index0, q0, v, k, index, v2, q, h, plan, i, c, p);
      }
    }
  }

  /**
   * The subgroup at c reaches to the rank of c: those suffixes share it, and what follows
   * in the group has greater ones.
   */
  lemma SubgroupEnd(index0: seq<int>, q0: seq<int>, v: seq<int>, k: seq<int>, index: seq<int>, v2: seq<int>,
      q: seq<int>, h: nat, plan: seq<Segment>, i: int, c: int)
    requires Passed(index0, q0, v, k, index, v2, q, h, plan) && Level(q, v2, Doubled(v, h))
    requires 0 <= i < |plan| && plan[i].Group? && SubgroupStart(q, v, v2, plan[i], c) && c < plan[i].b
    ensures var d := v2[q[c]] + 1;
      c < d <= plan[i].b && (forall p :: c <= p < d ==> v2[q[p]] == d - 1) && SubgroupStart(q, v, v2, plan[i], d)
  {
    var g, e := plan[i], v2[q[c]];
    assert SegmentState(index0, q0, index, v, v2, q, h, g, i !in {});
    assert DoneAt(index, v2, q, v, h, g.a, g.b, c, Members(q0, g));
    forall p | c <= p <= e ensures v2[q[p]] == e {
      BetweenTwins(index0, q0, v, k, index, v2, q, h, plan, i, c, p, e);
    }
    forall p, r | g.a <= p <= e < r < g.b ensures v2[q[p]] < v2[q[r]] {
      KeysInGroup(index0, q0, v, k, index, v2, q, h, plan, i, c, r);
      if p < c {
        assert v2[q[p]] < v2[q[c]];
      }
    }
  }

  /** Between two suffixes with one key, all have it, and one rank. */
  lemma BetweenTwins(index0: seq<int>, q0: seq<int>, v: seq<int>, k: seq<int>, index: seq<int>, v2: seq<int>,
      q: seq<int>, h: nat, plan: seq<Segment>, i: int, c: int, p: int, e: int)
    requires Passed(index0, q0, v, k, index, v2, q, h, plan) && Level(q, v2, Doubled(v, h))
    requires 0 <= i < |plan| && plan[i].Group? && plan[i].a <= c <= p <= e < plan[i].b
    requires q[c] + h < |v| && q[e] + h < |v| && q[c] >= 0 && q[e] >= 0 && Key(v, h, q[c]) == Key(v, h, q[e])
    ensures v2[q[p]] == v2[q[c]]
  {
    KeysInGroup(index0, q0, v, k, index, v2, q, h, plan, i, c, p);
    KeysInGroup(index0, q0, v, k, index, v2, q, h, plan, i, p, e);
    assert SegmentState(index0, q0, index, v, v2, q, h, plan[i], i !in {});
  }

  /** A suffix that is not alone is still in the index, and long enough for the next pass. */
  lemma SharedStays(text: Bytes, index0: seq<int>, q0: seq<int>, v: seq<int>, k: seq<int>, index: seq<int>,
      v2: seq<int>, q: seq<int>, h: nat, plan: seq<Segment>, i: int, c: int, p: int)
    requires Passed(index0, q0, v, k, index, v2, q, h, plan) && Level(q, v2, Doubled(v, h))
      && Orders(Doubled(v, h), text, h + h)
    requires 0 <= i < |plan| && plan[i].Group? && plan[i].a <= c < plan[i].b && plan[i].a <= p < plan[i].b
    requires v2[q[p]] == v2[q[c]] && index[c] != -1
    ensures index[p] == q[p] && q[p] + (h + h) < |q|
  {
    var b := Twin(index0, q0, v, k, index, v2, q, h, plan, i, c);
    var other := if p == c then b else c;
    InIndex(index0, q0, v, k, index, v2, q, h, plan, i, p, other);
    RanksAt(q, v2, Doubled(v, h), other, p);
    HEqLong(text, q[p], q[other], h + h);
  }

  /** What is not marked has a twin in its group. */
  lemma Twin(index0: seq<int>, q0: seq<int>, v: seq<int>, k: seq<int>, index: seq<int>, v2: seq<int>, q: seq<int>,
      h: nat, plan: seq<Segment>, i: int, c: int) returns (b: int)
    requires Passed(index0, q0, v, k, index, v2, q, h, plan) && Level(q, v2, Doubled(v, h))
    requires 0 <= i < |plan| && plan[i].Group? && plan[i].a <= c < plan[i].b && index[c] != -1
    ensures plan[i].a <= b < plan[i].b && b != c && v2[q[b]] == v2[q[c]]
  {
    var g := plan[i];
    assert SegmentState(index0, q0, index, v, v2, q, h, g, i !in {});
    assert DoneAt(index, v2, q, v, h, g.a, g.b, c, Members(q0, g));
    b :| g.a <= b < g.b && b != c && Key(v, h, q[b]) == Key(v, h, q[c]);
    KeysInGroup(index0, q0, v, k, index, v2, q, h, plan, i, b, c);
  }

  /** With a twin it is not marked. */
  lemma InIndex(index0: seq<int>, q0: seq<int>, v: seq<int>, k: seq<int>, index: seq<int>, v2: seq<int>, q: seq<int>,
      h: nat, plan: seq<Segment>, i: int, p: int, b: int)
    requires Passed(index0, q0, v, k, index, v2, q, h, plan) && Level(q, v2, Doubled(v, h))
    requires 0 <= i < |plan| && plan[i].Group? && plan[i].a <= p < plan[i].b && plan[i].a <= b < plan[i].b && b != p
      && v2[q[b]] == v2[q[p]]
    ensures index[p] == q[p]
  {
    var g := plan[i];
    assert SegmentState(index0, q0, index, v, v2, q, h, g, i !in {});
    assert DoneAt(index, v2, q, v, h, g.a, g.b, p, Members(q0, g));
    KeysInGroup(index0, q0, v, k, index, v2, q, h, plan, i, b, p);
  }

  /** A joined run is one step of the next scan. */
  lemma RunStep(index0: seq<int>, q0: seq<int>, v: seq<int>, k: seq<int>, index: seq<int>, v2: seq<int>, q: seq<int>,
      h: nat, plan: seq<Segment>, i: int, marked: seq<int>)
    requires Passed(index0, q0, v, k, index, v2, q, h, plan) && Level(q, v2, Doubled(v, h))
    requires 0 <= i < |plan| && plan[i].Run? && Marked(index, marked, plan[i])
    ensures StepOk(marked, q, v2, h + h, plan[i].a, plan[i].b) && marked[plan[i].a] < 0
  {
    forall p | plan[i].a <= p < plan[i].b ensures Alone(q, v2, p) {
      RunStillAlone(index0, q0, v, k, index, v2, q, h, plan, i, p);
    }
  }

  /** The next scan's steps up to c, in segment i of the plan. */
  ghost predicate StopsState(q: seq<int>, v: seq<int>, v2: seq<int>, h: nat, plan: seq<Segment>, marked: seq<int>,
      stops: seq<int>, i: int, c: int) {
    && CoveredTo(marked, q, v2, h, stops, c) && Tight(marked, stops, -1) && 0 <= i <= |plan|
    && (forall j :: 0 <= j < |plan| ==> 0 <= plan[j].a < plan[j].b <= |q|)
    && if i == |plan| then c == |q|
       else if plan[i].Run? then c == plan[i].a
       else plan[i].a <= c < plan[i].b && SubgroupStart(q, v, v2, plan[i], c)
  }

  /** Behind a step that ends at c comes the rest of its segment, or the next one. */
  lemma StopsOn(index0: seq<int>, q0: seq<int>, q: seq<int>, v: seq<int>, v2: seq<int>, h: nat, plan: seq<Segment>,
      marked: seq<int>, stops: seq<int>, i: nat, c: int) returns (i': nat)
    requires Plan(index0, q0, v, h, plan, |q|) && |q0| == |q| && i < |plan|
    requires CoveredTo(marked, q, v2, h + h, stops, c) && Tight(marked, stops, -1) && plan[i].a <= c <= plan[i].b
    requires c < plan[i].b ==> plan[i].Group? && SubgroupStart(q, v, v2, plan[i], c)
    ensures StopsState(q, v, v2, h + h, plan, marked, stops, i', c) && i' >= i
  {
    i' := if c == plan[i].b then i + 1 else i;
    forall j | 0 <= j < |plan| ensures 0 <= plan[j].a < plan[j].b <= |q| {
      assert SegmentOk(index0, q0, v, h, plan[j]);
    }
    if c == plan[i].b && i + 1 < |plan| {
      assert Meet(plan, i);
    }
  }

  /** The steps of the next scan: the joined runs, and the subgroups of the groups. */
  lemma NextStops(text: Bytes, index0: seq<int>, q0: seq<int>, v: seq<int>, k: seq<int>, index: seq<int>, v2: seq<int>,
      q: seq<int>, h: nat, plan: seq<Segment>, marked: seq<int>) returns (stops: seq<int>)
    requires Passed(index0, q0, v, k, index, v2, q, h, plan) && Level(q, v2, Doubled(v, h))
      && Orders(Doubled(v, h), text, h + h)
    requires |marked| == |q| && forall i :: 0 <= i < |plan| ==> Marked(index, marked, plan[i])
    ensures Covered(marked, q, v2, h + h, stops) && Tight(marked, stops, -1)
  {
    var i: nat, c := 0, 0;
    stops := StopsStart(index0, q0, q, v, v2, h, plan, marked);
    while i < |plan|
      invariant StopsState(q, v, v2, h + h, plan, marked, stops, i, c)
      decreases |q| - c
    {
      assert Marked(index, marked, plan[i]);
      var d;
      if plan[i].Run? {
        RunStep(index0, q0, v, k, index, v2, q, h, plan, i, marked);
        d := plan[i].b;
      } else {
        SubgroupStep(text, index0, q0, v, k, index, v2, q, h, plan, i, c, marked);
        d := v2[q[c]] + 1;
      }
      CoverGrows(marked, q, v2, h + h, stops, c, d);
      TightGrows(marked, stops, -1, c, d);
      stops, c := stops + [d], d;
      i := StopsOn(index0, q0, q, v, v2, h, plan, marked, stops, i, c);
    }
  }

  lemma StopsStart(index0: seq<int>, q0: seq<int>, q: seq<int>, v: seq<int>, v2: seq<int>, h: nat, plan: seq<Segment>,
      marked: seq<int>) returns (stops: seq<int>)
    requires Plan(index0, q0, v, h, plan, |q|) && |q0| == |q| == |v2| == |marked| && IsOrder(q)
    ensures StopsState(q, v, v2, h + h, plan, marked, stops, 0, 0)
  {
    stops := [0];
    forall j | 0 <= j < |plan| ensures 0 <= plan[j].a < plan[j].b <= |q| {
      assert SegmentOk(index0, q0, v, h, plan[j]);
    }
  }

  // ----- a whole pass

  /** Index and rank arrays between passes: the suffixes are ordered by their first h bytes. */
  ghost predicate Ordered(text: Bytes, index: seq<int>, v: seq<int>, q: seq<int>, k: seq<int>, h: nat,
      stops: seq<int>) {
    && h > 0 && |q| == |text| + 1 && Level(q, v, k) && Orders(k, text, h) && Covered(index, q, v, h, stops)
  }

  method CopyRanks(v: array<int>, v2: array<int>)
    requires v != v2 && v.Length == v2.Length
    modifies v
    ensures v[..] == v2[..]
  {
    for s := 0 to v.Length
      invariant forall t :: 0 <= t < s ==> v[t] == v2[t]
    {
      v[s] := v2[s];
    }
  }

  /** Past the length of the text nothing is left to sort, and the scan makes one run of everything. */
  lemma OneRun(index: seq<int>, q: seq<int>, v: seq<int>, h: nat, plan: seq<Segment>)
    requires Plan(index, q, v, h, plan, |q|) && Joined(plan) && h >= |q| > 0
    ensures plan == [Run(0, |q|)]
  {
    forall i | 0 <= i < |plan| ensures plan[i].Run? {
      assert 0 <= plan[i].a < |q| ==> q[plan[i].a] >= 0;
      assert SegmentOk(index, q, v, h, plan[i]);
    }
    assert |plan| > 1 ==> !BothRuns(plan, 0);
  }

  /** One pass: order by twice as many bytes, and negative run lengths over exactly the suffixes that are finished. */
  method Pass(text: Bytes, index: array<int>, v: array<int>, v2: array<int>, h: nat, ghost q0: seq<int>,
      ghost k: seq<int>, ghost stops0: seq<int>)
    returns (ghost q: seq<int>, ghost stops: seq<int>)
    requires index != v && index != v2 && v != v2 && v2[..] == v[..]
      && Ordered(text, index[..], v[..], q0, k, h, stops0)
    modifies index, v, v2
    ensures v2[..] == v[..] && Ordered(text, index[..], v[..], q, Doubled(old(v[..]), h), h + h, stops)
    ensures forall p :: 0 <= p < |q| ==> (Alone(q, v[..], p) <==> UnderRun(index[..], stops, p))
    ensures h >= |text| + 1 ==> index[0] == -(|text| + 1)
  {
    ghost var index0, ranks := index[..], v[..];
    RanksOrder(q0, ranks, k, text, h);
    DoubledOrders(ranks, text, h);
    var plan := Scan(index, v[..], h, q0, stops0);
    q := RunTasks(index, v[..], v2, h, plan, q0);
    ghost var index1, ranks2 := index[..], v2[..];
    NextLevel(index0, q0, ranks, k, index1, ranks2, q, h, plan);
    forall i | 0 <= i < |plan| ensures 0 <= plan[i].a < plan[i].b <= index.Length {
      assert SegmentOk(index0, q0, ranks, h, plan[i]);
    }
    ApplyMarks(index, plan);
    stops := NextStops(text, index0, q0, ranks, k, index1, ranks2, q, h, plan, index[..]);
    CopyRanks(v, v2);
    forall p | 0 <= p < |q| ensures Alone(q, v[..], p) <==> UnderRun(index[..], stops, p) {
      FinishedIffMarked(index[..], q, v[..], h + h, stops, -1, p);
    }
    if h >= |text| + 1 {
      OneRun(index0, q0, ranks, h, plan);
      assert Marked(index1, index[..], plan[0]);
    }
  }
}
