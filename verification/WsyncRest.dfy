/**
 * How much a source that shares no block with the targets leaves for the last data operation. All of it is data,
 * sent whenever maxData bytes wait, or when the buffer is wrapped to make room for another block.
 */
module WsyncRest {
  import opened Common

  // ----- turn by turn

  /** Source positions: where the buffer starts, the oldest byte that waits, and the next byte to read. */
  datatype Counters = Counters(base: int, tail: int, read: int)

  /**
   * Before the window at p is looked at: another block is read when it is not whole,
   * after a wrap when there is no room.
   */
  function Filled(c: Counters, p: int, size: nat, cap: nat): Counters {
    if p + size <= c.read then c
    else if c.read - c.base + size > cap then Counters(p, p, c.read + size)
    else c.(read := c.read + size)
  }

  function Sent(c: Counters, p: int, maxData: nat): Counters {
    if p - c.tail >= maxData then c.(tail := p) else c
  }

  function Turn(c: Counters, p: int, size: nat, maxData: nat, cap: nat): Counters {
    Sent(Filled(c, p, size, cap), p, maxData)
  }

  /** The counters before the turn at p. */
  function CountersAt(p: nat, size: nat, maxData: nat, cap: nat): Counters {
    if p == 0 then Counters(0, 0, 0) else Turn(CountersAt(p - 1, size, maxData, cap), p - 1, size, maxData, cap)
  }

  // ----- in closed form

  /** How far the window may be from the start of the buffer when a block is read without a wrap. */
  function Room(size: nat, cap: nat): int {
    cap - 2 * size + 1
  }

  /**
   * How far it is once block j + 1 has been read: all the way before the first wrap, and whole
   * blocks since the last one after it.
   */
  function Distance(j: nat, size: nat, cap: nat): int
    requires size > 0 && Room(size, cap) > 0
  {
    var room := Room(size, cap);
    if j * size + 1 <= room then j * size + 1 else (j - CeilDiv(room, size)) % (room / size + 1) * size
  }

  /** The length of the last data operation. */
  function LastLength(n: nat, size: nat, maxData: nat, cap: nat): int
    requires size > 0 && maxData > 0 && Room(size, cap) > 0
  {
    if n < size then n else Distance(n / size - 1, size, cap) % maxData + n % size + size - 1
  }

  // ----- the distance, block by block

  function Walked(j: nat, size: nat, cap: nat): int {
    if j == 0 then 1 else if Walked(j - 1, size, cap) + size > Room(size, cap) then 0
      else Walked(j - 1, size, cap) + size
  }

  lemma NextMod(x: nat, w: nat)
    requires w > 0
    ensures (x + 1) % w == if x % w + 1 == w then 0 else x % w + 1
  {
    var q, r := x / w, x % w;
    if r + 1 == w {
      assert x + 1 == (q + 1) * w + 0;
      DivModIs(x + 1, w, q + 1, 0);
    } else {
      DivModIs(x + 1, w, q, r + 1);
    }
  }

  /** A number of blocks fits the room exactly when it is at most the quotient. */
  lemma FitsRoom(m: nat, size: nat, room: nat)
    requires size > 0
    ensures m * size <= room <==> m <= room / size
  {
    var q := room / size;
    assert room == q * size + room % size;
    if m <= q {
      MulMonotone(m, q, size);
    } else {
      MulMonotone(q + 1, m, size);
      assert (q + 1) * size == q * size + size;
    }
  }

  /** The first block position behind the room. */
  lemma FirstBehind(j: nat, size: nat, room: nat)
    requires size > 0 && room > 0
    ensures j * size + 1 > room <==> j >= CeilDiv(room, size)
  {
    CeilDivBounds(room, size);
    var first := CeilDiv(room, size);
    if j >= first {
      MulMonotone(first, j, size);
    } else {
      MulMonotone(j, first - 1, size);
      assert (first - 1) * size == first * size - size;
    }
  }

  lemma {:induction false} WalkedIsDistance(j: nat, size: nat, cap: nat)
    requires size > 0 && Room(size, cap) > 0
    ensures Walked(j, size, cap) == Distance(j, size, cap)
  {
    if j > 0 {
      WalkedIsDistance(j - 1, size, cap);
      NextDistance(j - 1, size, cap);
    }
  }

  lemma NextDistance(j: nat, size: nat, cap: nat)
    requires size > 0 && Room(size, cap) > 0
    ensures Distance(j + 1, size, cap) ==
      if Distance(j, size, cap) + size > Room(size, cap) then 0 else Distance(j, size, cap) + size
  {
    var room := Room(size, cap);
    var first := CeilDiv(room, size);
    FirstBehind(j, size, room);
    FirstBehind(j + 1, size, room);
    MulMonotone(j, j + 1, size);
    if j >= first {
      NextCycle(j - first, size, room);
    } else if j + 1 == first {
      DivModIs(0, room / size + 1, 0, 0);
    }
  }

  /** Since the first wrap the distance goes around in whole blocks. */
  lemma NextCycle(x: nat, size: nat, room: nat)
    requires size > 0 && room > 0
    ensures var m := x % (room / size + 1);
      (x + 1) % (room / size + 1) * size == if m * size + size > room then 0 else m * size + size
  {
    var w, m := room / size + 1, x % (room / size + 1);
    NextMod(x, w);
    FitsRoom(m + 1, size, room);
    MulMonotone(m, m + 1, size);
  }

  // ----- the counters in terms of the distance

  /** What the counters are after the turn at p, the last read before which was of block j + 1. */
  ghost predicate Traced(c: Counters, p: int, j: nat, size: nat, maxData: nat, cap: nat)
    requires maxData > 0
  {
    && Offset(j, size) + 1 <= p <= Offset(j, size) + size
    && c.read == Offset(j, size) + 2 * size
    && c.base == Offset(j, size) + 1 - Walked(j, size, cap) && 0 <= c.base <= c.tail <= p
    && p - c.tail == (p - c.base) % maxData
  }

  lemma {:induction false} Trace(p: nat, size: nat, maxData: nat, cap: nat) returns (j: nat)
    requires p >= 1 && size > 0 && maxData > 0 && cap >= 2 * size + maxData
    ensures Traced(CountersAt(p + 1, size, maxData, cap), p, j, size, maxData, cap)
    ensures p + size > CountersAt(p, size, maxData, cap).read <==> p == Offset(j, size) + 1
  {
    if p == 1 {
      j := 0;
      FirstTurns(size, maxData, cap);
    } else {
      var i := Trace(p - 1, size, maxData, cap);
      var c := CountersAt(p, size, maxData, cap);
      j := if p > Offset(i, size) + size then i + 1 else i;
      NextTurn(c, p, i, size, maxData, cap);
    }
  }

  lemma FirstTurns(size: nat, maxData: nat, cap: nat)
    requires size > 0 && maxData > 0 && cap >= 2 * size + maxData
    ensures CountersAt(1, size, maxData, cap) == Counters(0, 0, size)
    ensures Traced(CountersAt(2, size, maxData, cap), 1, 0, size, maxData, cap)
  {
    var c := CountersAt(1, size, maxData, cap);
    assert CountersAt(0, size, maxData, cap) == Counters(0, 0, 0);
    assert c == Counters(0, 0, size);
    assert CountersAt(2, size, maxData, cap) == Turn(c, 1, size, maxData, cap);
    if maxData == 1 {
      DivModIs(1, maxData, 1, 0);
    } else {
      DivModIs(1, maxData, 0, 1);
    }
  }

  lemma NextTurn(c: Counters, p: int, i: nat, size: nat, maxData: nat, cap: nat)
    requires size > 0 && maxData > 0 && cap >= 2 * size + maxData && p >= 2
    requires Traced(c, p - 1, i, size, maxData, cap)
    ensures var j := if p > Offset(i, size) + size then i + 1 else i;
      && Traced(Turn(c, p, size, maxData, cap), p, j, size, maxData, cap)
      && (p + size > c.read <==> p == Offset(j, size) + 1)
  {
    var filled := Filled(c, p, size, cap);
    assert Offset(i + 1, size) == Offset(i, size) + size;
    if filled.base == c.base && filled.tail == c.tail {
      NextMod(p - 1 - c.base, maxData);
    } else {
      DivModIs(0, maxData, 0, 0);
    }
  }

  /**
   * The run ends on the read that finds less than a block, and what is left from the oldest waiting
   * byte on has the closed length.
   */
  lemma RunEnds(p: nat, n: nat, size: nat, maxData: nat, cap: nat)
    requires size > 0 && maxData > 0 && cap >= 2 * size + maxData
    requires var c := CountersAt(p, size, maxData, cap); p + size > c.read && c.read <= n < c.read + size
    ensures n - Turn(CountersAt(p, size, maxData, cap), p, size, maxData, cap).tail == LastLength(n, size, maxData, cap)
    ensures n > 0 && size > 1 ==> LastLength(n, size, maxData, cap) > 0
    ensures n == 0 ==> p == 0
  {
    var c := CountersAt(p, size, maxData, cap);
    if p > 0 {
      var j := Trace(p, size, maxData, cap);
      WalkedIsDistance(j, size, cap);
      OffsetIsProduct(j + 1, size);
      assert c.read == Offset(j + 1, size);
      DivModIs(n, size, j + 1, n - c.read);
    }
  }
}
