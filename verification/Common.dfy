/** Bytes, results and the slicing facts that every component relies on. */
module Common {

  type byte = b: int | 0 <= b < 256

  type Bytes = seq<byte>

  datatype Option<+T> = None | Some(value: T)

  datatype Result<+T> = Ok(value: T) | Err(reason: string)

  function Min(a: int, b: int): (m: int)
    ensures m <= a && m <= b && (m == a || m == b)
  {
    if a < b then a else b
  }

  /** Concatenation of a sequence of pieces. */
  function Flatten<T>(pieces: seq<seq<T>>): seq<T> {
    if pieces == [] then [] else pieces[0] + Flatten(pieces[1..])
  }

  lemma {:induction false} FlattenAppend<T>(a: seq<seq<T>>, b: seq<seq<T>>)
    ensures Flatten(a + b) == Flatten(a) + Flatten(b)
  {
    if a == [] {
      assert a + b == b;
    } else {
      FlattenAppend(a[1..], b);
      assert (a + b)[1..] == a[1..] + b;
      assert a[0] + (Flatten(a[1..]) + Flatten(b)) == Flatten(a) + Flatten(b);
    }
  }

  lemma FlattenSnoc<T>(a: seq<seq<T>>, x: seq<T>)
    ensures Flatten(a + [x]) == Flatten(a) + x
  {
    FlattenAppend(a, [x]);
    assert Flatten([x]) == x + Flatten<T>([]);
  }

  lemma Associate<T>(a: seq<T>, b: seq<T>, c: seq<T>)
    ensures a + (b + c) == (a + b) + c
  {
  }

  lemma RestOfSnoc<T>(s: seq<T>, last: T)
    requires s != []
    ensures (s + [last])[0] == s[0] && (s + [last])[1..] == s[1..] + [last]
  {
  }

  lemma SliceOfSum<T>(a: seq<T>, b: seq<T>)
    ensures (a + b)[|a|..|a| + |b|] == b
    ensures forall lo, hi :: 0 <= lo <= hi <= |a| ==> (a + b)[lo..hi] == a[lo..hi]
  {
  }

  /** What a reader that fills its buffer unless it meets the end returns: at most n bytes of s from position at. */
  function ReadAt(s: Bytes, at: nat, n: nat): (r: Bytes)
    ensures |r| == if at <= |s| then Min(n, |s| - at) else 0
  {
    if at <= |s| then s[at..at + Min(n, |s| - at)] else []
  }

  /** count * size by repeated addition: where count pieces of size end. */
  function Offset(count: nat, size: nat): nat {
    if count == 0 then 0 else Offset(count - 1, size) + size
  }

  lemma {:induction false} OffsetIsProduct(count: nat, size: nat)
    ensures Offset(count, size) == count * size
  {
    if count > 0 {
      OffsetIsProduct(count - 1, size);
      MulMonotone(count - 1, count, size);
    }
  }

  lemma {:induction false} OffsetAdds(a: nat, b: nat, size: nat)
    ensures Offset(a + b, size) == Offset(a, size) + Offset(b, size)
  {
    if b > 0 {
      OffsetAdds(a, b - 1, size);
    }
  }

  lemma {:induction false} MulMonotone(a: int, b: int, q: nat)
    requires a <= b
    ensures a * q <= b * q
    ensures (a + 1) * q == a * q + q
    decreases b - a
  {
    if a < b {
      MulMonotone(a + 1, b, q);
    }
  }

  /** There is one way to write a number as a multiple and a remainder. */
  lemma DivModIs(x: int, m: nat, q: int, r: int)
    requires m > 0 && x == q * m + r && 0 <= r < m
    ensures x / m == q && x % m == r
  {
    var d := q - x / m;
    assert d * m == x % m - r;
    if d >= 1 {
      MulMonotone(1, d, m);
    } else if d <= -1 {
      MulMonotone(d, -1, m);
    }
  }

  lemma ModCongruent(x: int, y: int, k: int, m: nat)
    requires m > 0 && x == y + k * m
    ensures x % m == y % m
  {
    assert x == (y / m + k) * m + y % m;
    DivModIs(x, m, y / m + k, y % m);
  }

  lemma DivBounds(size: nat, p: nat)
    requires p > 0
    ensures size / p * p <= size < (size / p + 1) * p
    ensures size >= p ==> size / p >= 1
    ensures p * (size / p) == size / p * p
  {
  }

  /** Number of pieces of at most size that n is cut into. */
  function CeilDiv(n: nat, size: nat): nat
    requires size > 0
  {
    (n + size - 1) / size
  }

  lemma CeilDivBounds(n: nat, size: nat)
    requires n > 0 && size > 0
    ensures 0 < CeilDiv(n, size) <= n
    ensures (CeilDiv(n, size) - 1) * size < n <= CeilDiv(n, size) * size
  {
    var q := CeilDiv(n, size);
    DivBounds(n + size - 1, size);
    MulMonotone(q - 1, q, size);
    if q > n {
      MulMonotone(n + 1, q, size);
      MulMonotone(n, n, size);
      MulAtLeast(n, size);
    }
  }

  lemma {:induction false} MulAtLeast(n: nat, size: nat)
    requires size > 0
    ensures n * size >= n
  {
    if n > 0 {
      MulAtLeast(n - 1, size);
      MulMonotone(n - 1, n, size);
    }
  }

  // ----- sequences without repetition

  predicate Distinct<T(==)>(s: seq<T>) {
    forall i, j :: 0 <= i < j < |s| ==> s[i] != s[j]
  }

  lemma {:induction false} DistinctFits(s: seq<int>, pool: set<int>)
    requires Distinct(s) && forall x :: x in s ==> x in pool
    ensures |s| <= |pool|
  {
    if s != [] {
      var last := s[|s| - 1];
      forall x | x in s[..|s| - 1] ensures x in pool - {last} {
        var i :| 0 <= i < |s| - 1 && s[i] == x;
      }
      DistinctFits(s[..|s| - 1], pool - {last});
    }
  }

  ghost function Below(n: nat): (s: set<int>)
    ensures |s| == n && forall x :: x in s <==> 0 <= x < n
  {
    if n == 0 then {} else Below(n - 1) + {n - 1}
  }

  /** n different numbers below n are all of them. */
  lemma DistinctCover(s: seq<int>, x: int)
    requires Distinct(s) && (forall k :: 0 <= k < |s| ==> 0 <= s[k] < |s|) && 0 <= x < |s|
    ensures x in s
  {
    if x !in s {
      DistinctFits(s, Below(|s|) - {x});
    }
  }

  lemma NonEmpty(s: set<int>)
    requires |s| > 0
    ensures exists x :: x in s
  {
    if forall x :: x !in s {
      assert false;
    }
  }
}
