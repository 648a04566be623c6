/**
 * What ComputeDiff does, without buffer, rolling or joining: go over the source window by window, copy a window that
 * the library has, and ship a byte where there is none.
 */
module WsyncGreedy {
  import opened Common
  import opened RollingHash
  import opened WsyncOps
  import opened WsyncDiff
  import opened WsyncWindow

  /** A byte shipped, or a block copied. */
  datatype Token = Fresh | Block(fileIndex: int, blockIndex: int)

  // ----- what operations say

  function Shipped(n: int): seq<Token> {
    if n <= 0 then [] else Shipped(n - 1) + [Fresh]
  }

  function Blocks(fileIndex: int, blockIndex: int, span: int): seq<Token> {
    if span <= 0 then [] else Blocks(fileIndex, blockIndex, span - 1) + [Block(fileIndex, blockIndex + span - 1)]
  }

  function TokensOf(op: Operation): seq<Token> {
    match op
    case Data(d) => Shipped(|d|)
    case BlockRange(f, i, span) => Blocks(f, i, span)
  }

  function Tokens(ops: seq<Operation>): seq<Token> {
    if ops == [] then [] else Tokens(ops[..|ops| - 1]) + TokensOf(ops[|ops| - 1])
  }

  /** What has been said so far. */
  datatype Script = Script(tokens: seq<Token>)

  function ThenOp(s: Script, op: Operation): Script {
    Script(s.tokens + TokensOf(op))
  }

  function ThenBytes(s: Script, n: int): Script {
    Script(s.tokens + Shipped(n))
  }

  function ThenBlock(s: Script, f: int, i: int): Script {
    Script(s.tokens + [Block(f, i)])
  }

  lemma NoBytes(s: Script)
    ensures ThenBytes(s, 0) == s
  {
    assert s.tokens + [] == s.tokens;
  }

  lemma {:induction false} BytesThenBytes(s: Script, m: nat, n: nat)
    ensures ThenBytes(ThenBytes(s, m), n) == ThenBytes(s, m + n)
  {
    if n == 0 {
      NoBytes(ThenBytes(s, m));
    } else {
      BytesThenBytes(s, m, n - 1);
      assert (s.tokens + Shipped(m)) + (Shipped(n - 1) + [Fresh])
        == ((s.tokens + Shipped(m)) + Shipped(n - 1)) + [Fresh];
      assert (s.tokens + Shipped(m + n - 1)) + [Fresh] == s.tokens + (Shipped(m + n - 1) + [Fresh]);
    }
  }

  lemma BlockIsOp(s: Script, f: int, i: int)
    ensures ThenOp(s, BlockRange(f, i, 1)) == ThenBlock(s, f, i)
  {
    OneBlockTold(f, i);
  }

  /** What has been said, the range held back included. */
  function Told(out: Out): Script {
    if out.prev.Some? then ThenOp(Script(Tokens(out.sent)), out.prev.value) else Script(Tokens(out.sent))
  }

  lemma TokensSnoc(ops: seq<Operation>, op: Operation)
    ensures Tokens(ops + [op]) == Tokens(ops) + TokensOf(op)
  {
    assert (ops + [op])[..|ops|] == ops;
  }

  lemma SendTells(sent: seq<Operation>, op: Operation)
    ensures Script(Tokens(Send(sent, op))) == ThenOp(Script(Tokens(sent)), op)
  {
    TokensSnoc(sent, op);
    assert op.Data? && op.data == [] ==> TokensOf(op) == [] && Tokens(sent) + [] == Tokens(sent);
  }

  lemma FlushTells(out: Out)
    ensures Script(Tokens(FlushPrev(out).sent)) == Told(out)
  {
    if out.prev.Some? {
      SendTells(out.sent, out.prev.value);
    }
  }

  lemma OneBlockTold(f: int, i: int)
    ensures TokensOf(BlockRange(f, i, 1)) == [Block(f, i)]
  {
    assert Blocks(f, i, 0) + [Block(f, i)] == [Block(f, i)];
  }

  lemma OpThenOp(s: Script, p: Operation, op: Operation)
    requires p.BlockRange? && p.blockSpan > 0 && op == BlockRange(p.fileIndex, p.blockIndex + p.blockSpan, 1)
    ensures ThenOp(ThenOp(s, p), op) == ThenOp(s, p.(blockSpan := p.blockSpan + 1))
  {
    OneBlockTold(op.fileIndex, op.blockIndex);
    assert (s.tokens + TokensOf(p)) + TokensOf(op) == s.tokens + (TokensOf(p) + TokensOf(op));
  }

  /** Joining, holding back and cleaning do not change what is said. */
  lemma EnqueuedTells(out: Out, op: Operation)
    requires out.prev.Some? && out.prev.value.BlockRange? ==> out.prev.value.blockSpan > 0
    requires op.BlockRange? ==> op.blockSpan == 1
    ensures Told(Enqueued(out, op)) == ThenOp(Told(out), op)
  {
    if Joins(out.prev, op) {
      OpThenOp(Script(Tokens(out.sent)), out.prev.value, op);
    } else {
      FlushTells(out);
      if op.Data? {
        SendTells(FlushPrev(out).sent, op);
      }
    }
  }

  predicate Waiting(n: int) { true }

  /** said is what out and n waiting bytes say; to be looked into only where Waiting is named. */
  ghost predicate Says(said: Script, out: Out, n: int) {
    forall k: int :: Waiting(k) && k == n ==> said == ThenBytes(Told(out), k)
  }

  lemma SaysOutright(said: Script, out: Out)
    ensures Says(said, out, 0) <==> said == Told(out)
  {
    assert Waiting(0);
    NoBytes(Told(out));
  }

  lemma SaysByte(said: Script, out: Out, n: nat, next: int)
    requires Says(said, out, n) && next == n + 1
    ensures Says(ThenBytes(said, 1), out, next)
  {
    assert Waiting(n);
    BytesThenBytes(Told(out), n, 1);
  }

  /** The waiting bytes, and more perhaps, are sent. */
  lemma SaysData(said: Script, out: Out, n: nat, more: nat, data: Bytes)
    requires Says(said, out, n) && Joinable(out) && |data| == n + more
    ensures Says(ThenBytes(said, more), Enqueued(out, Data(data)), 0)
    ensures more == 0 ==> Says(said, Enqueued(out, Data(data)), 0)
  {
    assert Waiting(n);
    EnqueuedTells(out, Data(data));
    BytesThenBytes(Told(out), n, more);
    NoBytes(said);
    SaysOutright(ThenBytes(said, more), Enqueued(out, Data(data)));
  }

  lemma SaysBlock(said: Script, out: Out, f: int, i: int)
    requires Says(said, out, 0) && Joinable(out)
    ensures Says(ThenBlock(said, f, i), Enqueued(out, BlockRange(f, i, 1)), 0)
  {
    SaysOutright(said, out);
    EnqueuedTells(out, BlockRange(f, i, 1));
    BlockIsOp(Told(out), f, i);
    SaysOutright(ThenBlock(said, f, i), Enqueued(out, BlockRange(f, i, 1)));
  }

  // ----- ranges that could have been one

  predicate Adjoin(a: Operation, b: Operation) {
    && a.BlockRange? && b.BlockRange?
    && a.fileIndex == b.fileIndex && a.blockIndex + a.blockSpan == b.blockIndex
  }

  /** No two neighbours could have been one range. */
  ghost predicate Apart(ops: seq<Operation>) {
    forall i :: 0 < i < |ops| ==> ApartAt(ops, i)
  }

  predicate ApartAt(ops: seq<Operation>, i: int)
    requires 0 < i < |ops|
  {
    !Adjoin(ops[i - 1], ops[i])
  }

  /** The next range will be joined if it can be. */
  ghost predicate Joinable(out: Out) {
    && Apart(out.sent)
    && if out.prev.Some? then out.prev.value.BlockRange? && out.prev.value.blockSpan > 0
        && (out.sent != [] ==> !Adjoin(out.sent[|out.sent| - 1], out.prev.value))
       else out.sent != [] ==> out.sent[|out.sent| - 1].Data?
  }

  lemma SentApart(ops: seq<Operation>, op: Operation)
    requires Apart(ops) && (ops != [] ==> !Adjoin(ops[|ops| - 1], op))
    ensures Apart(ops + [op])
  {
    forall i | 0 < i < |ops| + 1 ensures ApartAt(ops + [op], i) {
      assert i < |ops| ==> ApartAt(ops, i);
    }
  }

  lemma EnqueuedApart(out: Out, op: Operation)
    requires Joinable(out) && (op.BlockRange? ==> op.blockSpan == 1)
    ensures Apart(FlushPrev(Enqueued(out, op)).sent)
    ensures op != Data([]) ==> Joinable(Enqueued(out, op))
  {
    if out.prev.Some? {
      SentApart(out.sent, out.prev.value);
    }
    var flushed, more := FlushPrev(out).sent, Enqueued(out, op);
    if Joins(out.prev, op) {
      SentApart(out.sent, more.prev.value);
    } else if op.BlockRange? {
      SentApart(flushed, op);
    } else {
      SentApart(flushed, op);
    }
  }

  // ----- the greedy scan

  /** The source up to its short last block. */
  function Whole(input: Input): nat
    requires input.size > 0
  {
    |input.source| - |input.source| % input.size
  }

  function WindowAt(input: Input, p: nat): Bytes
    requires p <= |input.source|
  {
    input.source[p..Min(p + input.size, |input.source|)]
  }

  /** The whole window at p has the weak hash of the one a byte before. */
  predicate SameHash(input: Input, p: nat)
    requires 0 < p && p + input.size <= |input.source|
  {
    BetaOf(WindowAt(input, p - 1)).hash == BetaOf(WindowAt(input, p)).hash
  }

  /**
   * What is found for the window at p. A window behind the one before is not looked up while the weak hash stays the
   * same, and only a window that is all of the short last block is looked up as that.
   */
  ghost function Seen(input: Input, p: nat, rolling: bool): Option<BlockHash>
    requires input.size > 0 && p <= |input.source|
  {
    if p + input.size <= Whole(input) then
      if rolling && 0 < p && SameHash(input, p) then None else LookupOf(input, WindowAt(input, p))
    else if p == Whole(input) then LookupOf(input, WindowAt(input, p))
    else None
  }

  ghost function Greedy(input: Input, p: nat, rolling: bool): seq<Token>
    requires input.size > 0 && p <= |input.source|
    decreases |input.source| - p
  {
    match Seen(input, p, rolling)
    case Some(h) =>
      [Block(h.fileIndex, h.blockIndex)] +
        if p + input.size <= Whole(input) then Greedy(input, p + input.size, false) else []
    case None =>
      if p + input.size <= Whole(input) then [Fresh] + Greedy(input, p + 1, true) else Shipped(|input.source| - p)
  }

  ghost predicate Sees(input: Input, p: int, rolling: bool, found: Option<BlockHash>) {
    input.size > 0 && 0 <= p <= |input.source| && found == Seen(input, p, rolling)
  }

  predicate Scanning(p: int) { true }

  /** The scan from p, with said already said, comes to this; to be looked into only where Scanning is named. */
  ghost predicate Ends(input: Input, p: int, rolling: bool, said: Script, told: Script) {
    forall n: int :: Scanning(n) && n == p ==>
      input.size > 0 && 0 <= n <= |input.source| && told.tokens == said.tokens + Greedy(input, n, rolling)
  }

  /** The scan from p, with said already said, comes to the same as the one from q, with more said. */
  ghost predicate LeadsOn(input: Input, p: int, rolling: bool, said: Script, q: int, rolling': bool, more: Script) {
    forall n: int :: Scanning(n) && n == p ==>
      && input.size > 0 && 0 <= n <= |input.source| && 0 <= q <= |input.source|
      && more.tokens + Greedy(input, q, rolling') == said.tokens + Greedy(input, n, rolling)
  }

  lemma LeadsFurther(input: Input, a: int, ra: bool, sa: Script, b: int, rb: bool, sb: Script, c: int, rc: bool,
      sc: Script)
    requires LeadsOn(input, a, ra, sa, b, rb, sb) && LeadsOn(input, b, rb, sb, c, rc, sc)
    ensures LeadsOn(input, a, ra, sa, c, rc, sc)
  {
    assert Scanning(a) && Scanning(b);
  }

  lemma LeadsToEnd(input: Input, a: int, ra: bool, sa: Script, b: int, rb: bool, sb: Script, told: Script)
    requires LeadsOn(input, a, ra, sa, b, rb, sb) && Ends(input, b, rb, sb, told)
    ensures Ends(input, a, ra, sa, told)
  {
    assert Scanning(a) && Scanning(b);
  }

  lemma SaidThen(said: seq<Token>, t: Token, rest: seq<Token>)
    ensures (said + [t]) + rest == said + ([t] + rest)
  {
  }

  lemma MatchEnds(input: Input, p: nat, rolling: bool, said: Script, h: BlockHash, told: Script)
    requires Sees(input, p, rolling, Some(h)) && p + input.size > Whole(input)
    requires told == ThenBlock(said, h.fileIndex, h.blockIndex)
    ensures Ends(input, p, rolling, said, told)
  {
  }

  lemma GreedyMatches(input: Input, p: nat, rolling: bool, h: BlockHash)
    requires Sees(input, p, rolling, Some(h)) && p + input.size <= Whole(input)
    ensures Greedy(input, p, rolling) == [Block(h.fileIndex, h.blockIndex)] + Greedy(input, p + input.size, false)
  {
  }

  lemma MatchLeadsOn(input: Input, p: nat, rolling: bool, said: Script, h: BlockHash, q: int, more: Script)
    requires Sees(input, p, rolling, Some(h)) && p + input.size <= Whole(input) && q == p + input.size
    requires more == ThenBlock(said, h.fileIndex, h.blockIndex)
    ensures LeadsOn(input, p, rolling, said, q, false, more)
  {
    ghost var t := Block(h.fileIndex, h.blockIndex);
    GreedyMatches(input, p, rolling, h);
    SaidThen(said.tokens, t, Greedy(input, q, false));
  }

  lemma MissEnds(input: Input, p: nat, rolling: bool, said: Script, left: int, told: Script)
    requires Sees(input, p, rolling, None) && p + input.size > Whole(input)
    requires left == |input.source| - p && told == ThenBytes(said, left)
    ensures Ends(input, p, rolling, said, told)
  {
  }

  lemma MissLeadsOn(input: Input, p: nat, rolling: bool, said: Script, q: int, more: Script)
    requires Sees(input, p, rolling, None) && p + input.size <= Whole(input) && q == p + 1
    requires more == ThenBytes(said, 1)
    ensures LeadsOn(input, p, rolling, said, q, true, more)
  {
    assert Shipped(0) + [Fresh] == [Fresh];
    SaidThen(said.tokens, Fresh, Greedy(input, q, true));
  }

  lemma SameHashIs(input: Input, p: int, before: Beta, beta: Beta)
    requires 1 <= p && p + input.size <= |input.source|
    requires HashAt(before, input.source, p - 1, input.size) && HashAt(beta, input.source, p, input.size)
    ensures SameHash(input, p) <==> before.hash == beta.hash
  {
    assert Hashing(WindowAt(input, p - 1)) && Hashing(WindowAt(input, p));
  }

  lemma WholeIs(n: nat, size: nat, k: nat)
    requires size > 0 && k % size == 0 && k <= n
    ensures k <= n - n % size
    ensures k + size > n <==> k == n - n % size
    ensures k < n - n % size ==> k + size <= n - n % size
    ensures (k + size) % size == 0
  {
    MultipleBelow(k, n, k / size, n / size, n % size, size);
    DivModIs(k + size, size, k / size + 1, 0);
  }

  lemma MultipleBelow(k: nat, n: nat, a: nat, b: nat, r: nat, size: nat)
    requires r < size && k == a * size && n == b * size + r && k <= n
    ensures k <= n - r && k + size == (a + 1) * size
    ensures k + size > n <==> k == n - r
    ensures k < n - r ==> k + size <= n - r
  {
    MulMonotone(a, a, size);
    MulMonotone(b, b, size);
    if a > b {
      MulMonotone(b + 1, a, size);
    } else if a < b {
      MulMonotone(a + 1, b, size);
    }
  }

  // ----- what the scan says, token by token

  /** The bytes of the source that token t at p stands for. */
  function Width(input: Input, t: Token, p: int): int {
    if t.Fresh? then 1 else Min(input.size, |input.source| - p)
  }

  /** Where in the source token j is, when the first one is at p. */
  function Place(input: Input, tokens: seq<Token>, j: nat, p: int): int
    requires j <= |tokens|
  {
    if j == 0 then p else Place(input, tokens[1..], j - 1, p + Width(input, tokens[0], p))
  }

  /** A token at q, behind a byte shipped or not, is what the window there gives. */
  ghost predicate TokenIs(input: Input, t: Token, q: int, afterByte: bool)
    requires input.size > 0
  {
    && 0 <= q <= |input.source|
    && (q + input.size <= Whole(input) ==>
      match Seen(input, q, afterByte)
      case Some(h) => t == Block(h.fileIndex, h.blockIndex)
      case None => t == Fresh)
    && (q + input.size > Whole(input) && q != Whole(input) ==> t == Fresh)
  }

  lemma {:induction false} ShippedIs(n: nat)
    ensures |Shipped(n)| == n && forall k :: 0 <= k < n ==> Shipped(n)[k] == Fresh
  {
    if n > 0 {
      ShippedIs(n - 1);
    }
  }

  lemma {:induction false} PlaceFresh(input: Input, tokens: seq<Token>, j: nat, p: int)
    requires j <= |tokens| && forall k :: 0 <= k < |tokens| ==> tokens[k] == Fresh
    ensures Place(input, tokens, j, p) == p + j
    decreases j
  {
    if j > 0 {
      PlaceFresh(input, tokens[1..], j - 1, p + 1);
    }
  }

  /** Token j is what the window at its place gives. */
  ghost predicate TellsAt(input: Input, tokens: seq<Token>, p: int, rolling: bool, j: nat)
    requires input.size > 0 && j < |tokens|
  {
    TokenIs(input, tokens[j], Place(input, tokens, j, p), if j == 0 then rolling else tokens[j - 1].Fresh?)
  }

  lemma TellsBehind(input: Input, t: Token, rest: seq<Token>, p: int, rolling: bool, j: nat)
    requires input.size > 0 && 0 < j <= |rest|
    requires TellsAt(input, rest, p + Width(input, t, p), t.Fresh?, j - 1)
    ensures TellsAt(input, [t] + rest, p, rolling, j)
  {
    var tokens := [t] + rest;
    assert tokens[1..] == rest && tokens[j] == rest[j - 1];
    assert tokens[j - 1] == if j == 1 then t else rest[j - 2];
  }

  /** How the scan starts, unless it goes to the end at once. */
  lemma GreedyFront(input: Input, p: nat, rolling: bool) returns (t: Token, q: nat, rest: seq<Token>)
    requires input.size > 0 && p <= |input.source| && (p + input.size <= Whole(input) || Seen(input, p, rolling).Some?)
    ensures Greedy(input, p, rolling) == [t] + rest && TokenIs(input, t, p, rolling)
    ensures rest != [] ==> p < q == p + Width(input, t, p) <= |input.source| && rest == Greedy(input, q, t.Fresh?)
  {
    var found := Seen(input, p, rolling);
    t := if found.Some? then Block(found.value.fileIndex, found.value.blockIndex) else Fresh;
    q := if found.Some? then p + input.size else p + 1;
    rest := if p + input.size <= Whole(input) then Greedy(input, q, t.Fresh?) else [];
  }

  lemma {:induction false} GreedyTells(input: Input, p: nat, rolling: bool, j: nat)
    requires input.size > 0 && p <= |input.source| && j < |Greedy(input, p, rolling)|
    ensures TellsAt(input, Greedy(input, p, rolling), p, rolling, j)
    decreases j
  {
    if Seen(input, p, rolling).None? && p + input.size > Whole(input) {
      ShippedIs(|input.source| - p);
      PlaceFresh(input, Greedy(input, p, rolling), j, p);
    } else {
      var t, q, rest := GreedyFront(input, p, rolling);
      if j > 0 {
        GreedyTells(input, q, t.Fresh?, j - 1);
        TellsBehind(input, t, rest, p, rolling, j);
      }
    }
  }

  /** A window hashed afresh that is found. */
  lemma GreedyBlock(input: Input, p: nat)
    requires input.size > 0 && p <= |input.source| && (p + input.size <= Whole(input) || p == Whole(input))
    requires LookupOf(input, WindowAt(input, p)).Some?
    ensures var h := LookupOf(input, WindowAt(input, p)).value;
      Greedy(input, p, false) == [Block(h.fileIndex, h.blockIndex)] +
        if p + input.size <= Whole(input) then Greedy(input, p + input.size, false) else []
  {
    assert Seen(input, p, false) == LookupOf(input, WindowAt(input, p));
  }

  lemma GreedyAtEnd(input: Input)
    requires input.size > 0 && Whole(input) == |input.source|
    ensures Greedy(input, |input.source|, false) == []
  {
    assert WindowAt(input, |input.source|) == [];
  }

  /** With nothing found in its one whole window but the last byte, all of the source is shipped. */
  lemma OnlyWindowMissed(input: Input)
    requires input.size >= 2 && |input.source| == input.size + 1 && LookupOf(input, WindowAt(input, 0)).None?
    ensures Whole(input) == input.size && Greedy(input, 0, false) == Shipped(input.size + 1)
  {
    DivModIs(input.size + 1, input.size, 1, 1);
    assert Greedy(input, 1, true) == Shipped(input.size);
    assert [Fresh] + Shipped(input.size) == Shipped(input.size + 1) by {
      ShippedIs(input.size);
      ShippedIs(input.size + 1);
    }
  }
}
