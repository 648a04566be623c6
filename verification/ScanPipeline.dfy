/**
 The concurrent part of Do: a dispatcher hands blocks to workers in turn, each worker scans one block at a time
 and sends its matches, a collector reads the workers in turn and forwards to one consumer. Every step is one
 channel operation of one goroutine; any enabled step may come next.
 */
module ScanPipeline {
  import opened Common

  const MATCHES_CAPACITY := 256

  datatype Item<T> = Found(match_: T) | EndOfBlock

  datatype Scan = Scan(block: nat, sent: nat)

  /**
   * One worker's channels (consumed holds at most one token, work at most one block) and its goroutine. nextBlock is
   * history: the next of its blocks the collector has not finished.
   */
  datatype Worker<T> = Worker(consumed: bool, work: Option<nat>, scanning: Option<Scan>, matches: seq<Item<T>>,
      nextBlock: nat)

  /** taken is history: how many matches of block collected the collector has read. */
  datatype State<T> = State( dispatched: nat, holdsToken: bool, workClosed: bool, workers: seq<Worker<T>>,
      collected: nat, taken: nat, holding: Option<T>, sawEnd: bool, matches: seq<T>, matchesClosed: bool,
      received: seq<T>)

  function Init<T>(numWorkers: nat): State<T> {
    State(0, false, false, seq(numWorkers, w requires 0 <= w => Worker(true, None, None, [], w)), 0, 0, None, false, [],
      false, [])
  }

  // ----- the steps

  datatype Action =
    | TakeToken | SendWork | CloseWork
    | StartScan(w: nat) | SendMatch(w: nat)
    | ReadMatch | Forward | ReturnToken | CloseMatches
    | Receive

  ghost predicate Enabled<T>(blocks: seq<seq<T>>, s: State<T>, a: Action) {
    && |s.workers| > 0
    && match a
      case TakeToken => s.dispatched < |blocks| && !s.holdsToken && s.workers[s.dispatched % |s.workers|].consumed
      case SendWork => s.dispatched < |blocks| && s.holdsToken && s.workers[s.dispatched % |s.workers|].work.None?
      case CloseWork => s.dispatched == |blocks| && !s.workClosed
      case StartScan(w) => w < |s.workers| && s.workers[w].work.Some? && s.workers[w].scanning.None?
      case SendMatch(w) => w < |s.workers| && s.workers[w].scanning.Some? && |s.workers[w].matches| < MATCHES_CAPACITY
      case ReadMatch => s.collected < |blocks| && !s.sawEnd && s.holding.None?
        && s.workers[s.collected % |s.workers|].matches != []
      case Forward => s.holding.Some? && |s.matches| < MATCHES_CAPACITY
      case ReturnToken => s.collected < |blocks| && s.sawEnd && !s.workers[s.collected % |s.workers|].consumed
      case CloseMatches => s.collected == |blocks| && s.holding.None? && !s.matchesClosed
      case Receive => s.matches != []
  }

  function SetWorker<T>(s: State<T>, w: nat, worker: Worker<T>): State<T>
    requires w < |s.workers|
  {
    s.(workers := s.workers[w := worker])
  }

  ghost function Next<T>(blocks: seq<seq<T>>, s: State<T>, a: Action): State<T>
    requires Enabled(blocks, s, a)
  {
    var dw, cw := s.dispatched % |s.workers|, s.collected % |s.workers|;
    match a
    case TakeToken => SetWorker(s, dw, s.workers[dw].(consumed := false)).(holdsToken := true)
    case SendWork => SetWorker(s, dw, s.workers[dw].(work := Some(s.dispatched))).(holdsToken := false,
      dispatched := s.dispatched + 1)
    case CloseWork => s.(workClosed := true)
    case StartScan(w) => SetWorker(s, w, s.workers[w].(work := None,
      scanning := Some(Scan(s.workers[w].work.value, 0))))
    case SendMatch(w) =>
      var worker := s.workers[w];
      var scan := worker.scanning.value;
      if scan.block < |blocks| && scan.sent < |blocks[scan.block]| then
        SetWorker(s, w, worker.(scanning := Some(Scan(scan.block, scan.sent + 1)),
          matches := worker.matches + [Found(blocks[scan.block][scan.sent])]))
      else
        SetWorker(s, w, worker.(scanning := None, matches := worker.matches + [EndOfBlock]))
    case ReadMatch =>
      var worker := s.workers[cw];
      var s' := SetWorker(s, cw, worker.(matches := worker.matches[1..]));
      if worker.matches[0].EndOfBlock? then s'.(sawEnd := true)
      else s'.(holding := Some(worker.matches[0].match_), taken := s.taken + 1)
    case Forward => s.(matches := s.matches + [s.holding.value], holding := None)
    case ReturnToken =>
      SetWorker(s, cw, s.workers[cw].(consumed := true, nextBlock := s.workers[cw].nextBlock + |s.workers|))
        .(collected := s.collected + 1, taken := 0, sawEnd := false)
    case CloseMatches => s.(matchesClosed := true)
    case Receive => s.(received := s.received + [s.matches[0]], matches := s.matches[1..])
  }

  ghost predicate Done<T>(blocks: seq<seq<T>>, s: State<T>) {
    s.workClosed && s.matchesClosed && s.matches == []
  }

  // ----- the invariant

  ghost function Items<T>(block: seq<T>): (items: seq<Item<T>>)
    ensures |items| == |block| + 1
  {
    seq(|block|, i requires 0 <= i < |block| => Found(block[i])) + [EndOfBlock]
  }

  /** How many items of its current block a worker's reader has taken: the collector reads only from block collected. */
  ghost function TakenFrom<T>(s: State<T>, b: nat): nat {
    if b != s.collected then 0 else s.taken + if s.sawEnd then 1 else 0
  }

  ghost predicate Undispatched<T>(s: State<T>, b: nat) {
    b >= s.dispatched
  }

  /** The dispatcher has taken this worker's token and not sent it a block yet. */
  ghost predicate TokenTaken<T>(s: State<T>, w: nat) {
    |s.workers| > 0 && s.holdsToken && s.dispatched % |s.workers| == w
  }

  /**
   * A worker with no block in flight is empty; with one, its channels hold exactly the items sent and not yet taken.
   */
  ghost predicate WorkerOk<T>(blocks: seq<seq<T>>, s: State<T>, w: nat)
    requires w < |s.workers|
  {
    var k := s.workers[w];
    var b := k.nextBlock;
    && b % |s.workers| == w && s.collected <= b < s.collected + |s.workers|
    && if Undispatched(s, b) then
        k.work.None? && k.scanning.None? && k.matches == [] && k.consumed == !TokenTaken(s, w)
      else
        && b < |blocks| && !k.consumed && !TokenTaken(s, w)
        && TakenFrom(s, b) <= |Items(blocks[b])|
        && if k.work.Some? then k.work == Some(b) && k.scanning.None? && k.matches == [] && TakenFrom(s, b) == 0
          else if k.scanning.Some? then
            && k.scanning.value.block == b && TakenFrom(s, b) <= k.scanning.value.sent <= |blocks[b]|
            && k.matches == Items(blocks[b])[TakenFrom(s, b)..k.scanning.value.sent]
          else k.matches == Items(blocks[b])[TakenFrom(s, b)..]
  }

  /** What the consumer has or will next receive is exactly the sequential scan's output so far. */
  ghost predicate OutputOk<T>(blocks: seq<seq<T>>, s: State<T>) {
    && s.collected <= s.dispatched <= |blocks| && s.dispatched <= s.collected + |s.workers|
    && (s.collected < |blocks| ==> s.taken <= |blocks[s.collected]| && (s.sawEnd ==> s.taken == |blocks[s.collected]|))
    && (s.collected == |blocks| ==> s.taken == 0 && !s.sawEnd)
    && s.received + s.matches + (if s.holding.Some? then [s.holding.value] else [])
      == Flatten(blocks[..s.collected]) + (if s.collected < |blocks| then blocks[s.collected][..s.taken] else [])
    && (s.collected == s.dispatched ==> s.taken == 0 && !s.sawEnd)
    && (s.holdsToken ==> s.dispatched < |blocks|)
    && (s.workClosed ==> s.dispatched == |blocks|) && (s.matchesClosed ==> s.collected == |blocks| && s.holding.None?)
    && (s.sawEnd ==> s.holding.None?)
  }

  ghost predicate Inv<T>(blocks: seq<seq<T>>, s: State<T>) {
    && |s.workers| > 0 && OutputOk(blocks, s)
    && forall w :: 0 <= w < |s.workers| ==> WorkerOk(blocks, s, w)
  }

  // ----- whose turn it is

  lemma SameTurn(a: nat, b: nat, n: nat)
    requires n > 0 && a % n == b % n && a <= b < a + n
    ensures a == b
  {
    var k := b / n - a / n;
    assert b - a == k * n;
    DivModIs(b - a, n, k, 0);
    DivModIs(b - a, n, 0, b - a);
  }

  lemma NextTurn(a: nat, n: nat)
    requires n > 0
    ensures (a + n) % n == a % n
  {
    DivModIs(a + n, n, a / n + 1, a % n);
  }

  lemma CollectorsTurn<T>(blocks: seq<seq<T>>, s: State<T>)
    requires Inv(blocks, s)
    ensures s.workers[s.collected % |s.workers|].nextBlock == s.collected
  {
    var w := s.collected % |s.workers|;
    assert WorkerOk(blocks, s, w);
    SameTurn(s.collected, s.workers[w].nextBlock, |s.workers|);
  }

  lemma DispatchersTurn<T>(blocks: seq<seq<T>>, s: State<T>)
    requires Inv(blocks, s) && s.workers[s.dispatched % |s.workers|].nextBlock >= s.dispatched
    ensures s.workers[s.dispatched % |s.workers|].nextBlock == s.dispatched
  {
    var w := s.dispatched % |s.workers|;
    assert WorkerOk(blocks, s, w);
    SameTurn(s.dispatched, s.workers[w].nextBlock, |s.workers|);
  }

  // ----- every step keeps the invariant

  lemma InitInv<T>(blocks: seq<seq<T>>, numWorkers: nat)
    requires 0 < numWorkers <= |blocks|
    ensures Inv(blocks, Init<T>(numWorkers))
  {
    var s := Init<T>(numWorkers);
    assert blocks[..0] == [];
  }

  /** A step that touches one worker, and nothing the other workers' condition mentions, keeps the others. */
  lemma OthersKept<T>(blocks: seq<seq<T>>, s: State<T>, s': State<T>, w: nat)
    requires Inv(blocks, s) && |s'.workers| == |s.workers| && w < |s.workers| && WorkerOk(blocks, s', w)
    requires forall v :: 0 <= v < |s.workers| && v != w ==> s'.workers[v] == s.workers[v]
    requires s'.collected == s.collected && (forall b {:trigger TakenFrom(s', b)} :: b != s.workers[w].nextBlock ==>
      TakenFrom(s', b) == TakenFrom(s, b))
    requires forall b {:trigger Undispatched(s', b)} :: b != s.workers[w].nextBlock ==>
      Undispatched(s', b) == Undispatched(s, b)
    requires forall v {:trigger TokenTaken(s', v)} :: v != w ==> TokenTaken(s', v) == TokenTaken(s, v)
    ensures forall v :: 0 <= v < |s.workers| ==> WorkerOk(blocks, s', v)
  {
    forall v | 0 <= v < |s.workers| && v != w ensures WorkerOk(blocks, s', v) {
      assert WorkerOk(blocks, s, v) && WorkerOk(blocks, s', w);
      assert s.workers[v].nextBlock != s.workers[w].nextBlock by {
        assert WorkerOk(blocks, s, w);
      }
    }
  }

  lemma TakeTokenKeeps<T>(blocks: seq<seq<T>>, s: State<T>)
    requires Inv(blocks, s) && Enabled(blocks, s, TakeToken)
    ensures Inv(blocks, Next(blocks, s, TakeToken))
  {
    var w := s.dispatched % |s.workers|;
    assert WorkerOk(blocks, s, w);
    DispatchersTurn(blocks, s);
    OthersKept(blocks, s, Next(blocks, s, TakeToken), w);
  }

  lemma SendWorkKeeps<T>(blocks: seq<seq<T>>, s: State<T>)
    requires Inv(blocks, s) && Enabled(blocks, s, SendWork)
    ensures Inv(blocks, Next(blocks, s, SendWork))
  {
    var w := s.dispatched % |s.workers|;
    assert WorkerOk(blocks, s, w);
    DispatchersTurn(blocks, s);
    OthersKept(blocks, s, Next(blocks, s, SendWork), w);
  }

  lemma StartScanKeeps<T>(blocks: seq<seq<T>>, s: State<T>, w: nat)
    requires Inv(blocks, s) && Enabled(blocks, s, StartScan(w))
    ensures Inv(blocks, Next(blocks, s, StartScan(w)))
  {
    StartScanWorker(blocks, s, w);
    OthersKept(blocks, s, Next(blocks, s, StartScan(w)), w);
  }

  lemma StartScanWorker<T>(blocks: seq<seq<T>>, s: State<T>, w: nat)
    requires Inv(blocks, s) && Enabled(blocks, s, StartScan(w))
    ensures WorkerOk(blocks, Next(blocks, s, StartScan(w)), w)
  {
    assert WorkerOk(blocks, s, w);
  }

  lemma SliceGrows<T>(s: seq<T>, lo: nat, hi: nat)
    requires lo <= hi < |s|
    ensures s[lo..hi] + [s[hi]] == s[lo..hi + 1]
  {
  }

  lemma AppendOutput<T>(a: seq<T>, b: seq<T>, f: seq<T>, p: seq<T>, x: T)
    requires a + b + [] == f + p
    ensures a + b + [x] == f + (p + [x])
  {
    assert a + b + [x] == (a + b + []) + [x];
  }

  lemma SendFoundWorker<T>(blocks: seq<seq<T>>, s: State<T>, w: nat)
    requires Inv(blocks, s) && Enabled(blocks, s, SendMatch(w))
    requires WorkerOk(blocks, s, w) && s.workers[w].scanning.value.sent < |blocks[s.workers[w].nextBlock]|
    ensures WorkerOk(blocks, Next(blocks, s, SendMatch(w)), w)
  {
    var k, s' := s.workers[w], Next(blocks, s, SendMatch(w));
    var b, sent := k.nextBlock, k.scanning.value.sent;
    SliceGrows(Items(blocks[b]), TakenFrom(s, b), sent);
    assert s'.workers[w].matches == k.matches + [Items(blocks[b])[sent]];
  }

  lemma SendEndWorker<T>(blocks: seq<seq<T>>, s: State<T>, w: nat)
    requires Inv(blocks, s) && Enabled(blocks, s, SendMatch(w))
    requires WorkerOk(blocks, s, w) && s.workers[w].scanning.value.sent == |blocks[s.workers[w].nextBlock]|
    ensures WorkerOk(blocks, Next(blocks, s, SendMatch(w)), w)
  {
    var k, s' := s.workers[w], Next(blocks, s, SendMatch(w));
    var b, sent := k.nextBlock, k.scanning.value.sent;
    SliceGrows(Items(blocks[b]), TakenFrom(s, b), sent);
    assert s'.workers[w].matches == Items(blocks[b])[TakenFrom(s, b)..sent + 1];
  }

  lemma SendMatchWorker<T>(blocks: seq<seq<T>>, s: State<T>, w: nat)
    requires Inv(blocks, s) && Enabled(blocks, s, SendMatch(w))
    ensures WorkerOk(blocks, Next(blocks, s, SendMatch(w)), w)
  {
    assert WorkerOk(blocks, s, w);
    if s.workers[w].scanning.value.sent < |blocks[s.workers[w].nextBlock]| {
      SendFoundWorker(blocks, s, w);
    } else {
      SendEndWorker(blocks, s, w);
    }
  }

  lemma SendMatchKeeps<T>(blocks: seq<seq<T>>, s: State<T>, w: nat)
    requires Inv(blocks, s) && Enabled(blocks, s, SendMatch(w))
    ensures Inv(blocks, Next(blocks, s, SendMatch(w)))
  {
    SendMatchWorker(blocks, s, w);
    OthersKept(blocks, s, Next(blocks, s, SendMatch(w)), w);
  }

  lemma ReadMatchKeeps<T>(blocks: seq<seq<T>>, s: State<T>)
    requires Inv(blocks, s) && Enabled(blocks, s, ReadMatch)
    ensures Inv(blocks, Next(blocks, s, ReadMatch))
  {
    var w := s.collected % |s.workers|;
    assert WorkerOk(blocks, s, w);
    CollectorsTurn(blocks, s);
    var block, s' := blocks[s.collected], Next(blocks, s, ReadMatch);
    assert s.workers[w].matches[0] == Items(block)[s.taken];
    if s.taken < |block| {
      assert block[..s'.taken] == block[..s.taken] + [block[s.taken]];
      AppendOutput(s.received, s.matches, Flatten(blocks[..s.collected]), block[..s.taken], block[s.taken]);
    }
    OthersKept(blocks, s, s', w);
  }

  lemma ReturnTokenKeeps<T>(blocks: seq<seq<T>>, s: State<T>)
    requires Inv(blocks, s) && Enabled(blocks, s, ReturnToken)
    ensures Inv(blocks, Next(blocks, s, ReturnToken))
  {
    var w, n, s' := s.collected % |s.workers|, |s.workers|, Next(blocks, s, ReturnToken);
    assert WorkerOk(blocks, s, w);
    CollectorsTurn(blocks, s);
    NextTurn(s.collected, n);
    assert blocks[..s'.collected] == blocks[..s.collected] + [blocks[s.collected]];
    FlattenSnoc(blocks[..s.collected], blocks[s.collected]);
    assert blocks[s.collected][..s.taken] == blocks[s.collected];
    assert OutputOk(blocks, s');
    forall v | 0 <= v < n && v != w ensures WorkerOk(blocks, s', v) {
      assert WorkerOk(blocks, s, v);
    }
  }

  /** Steps that touch no worker keep every worker's condition. */
  lemma WorkersKept<T>(blocks: seq<seq<T>>, s: State<T>, s': State<T>)
    requires Inv(blocks, s) && s'.workers == s.workers && s'.collected == s.collected && s'.taken == s.taken
      && s'.sawEnd == s.sawEnd
    requires s'.dispatched == s.dispatched && s'.holdsToken == s.holdsToken
    ensures forall w :: 0 <= w < |s.workers| ==> WorkerOk(blocks, s', w)
  {
    forall w | 0 <= w < |s.workers| ensures WorkerOk(blocks, s', w) {
      assert WorkerOk(blocks, s, w);
    }
  }

  lemma OutputStepsKeep<T>(blocks: seq<seq<T>>, s: State<T>, a: Action)
    requires Inv(blocks, s) && Enabled(blocks, s, a) && (a.CloseWork? || a.Forward? || a.CloseMatches? || a.Receive?)
    ensures Inv(blocks, Next(blocks, s, a))
  {
    var s' := Next(blocks, s, a);
    WorkersKept(blocks, s, s');
    if a.Forward? {
      assert s.received + s'.matches + [] == s.received + s.matches + [s.holding.value];
    } else if a.Receive? {
      assert s.received + s.matches == s'.received + s'.matches;
    }
  }

  lemma StepKeeps<T>(blocks: seq<seq<T>>, s: State<T>, a: Action)
    requires Inv(blocks, s) && Enabled(blocks, s, a)
    ensures Inv(blocks, Next(blocks, s, a))
  {
    match a
    case TakeToken => TakeTokenKeeps(blocks, s);
    case SendWork => SendWorkKeeps(blocks, s);
    case StartScan(w) => StartScanKeeps(blocks, s, w);
    case SendMatch(w) => SendMatchKeeps(blocks, s, w);
    case ReadMatch => ReadMatchKeeps(blocks, s);
    case ReturnToken => ReturnTokenKeeps(blocks, s);
    case _ => OutputStepsKeep(blocks, s, a);
  }

  // ----- whole runs

  /** actions is a run from the initial state to s: any interleaving of enabled steps. */
  ghost predicate Run<T(!new)>(blocks: seq<seq<T>>, numWorkers: nat, actions: seq<Action>, s: State<T>) {
    if actions == [] then s == Init(numWorkers)
    else
      var n := |actions| - 1;
      exists s0 :: Run(blocks, numWorkers, actions[..n], s0) && Enabled(blocks, s0, actions[n])
        && s == Next(blocks, s0, actions[n])
  }

  lemma {:induction false} RunKeeps<T(!new)>(blocks: seq<seq<T>>, numWorkers: nat, actions: seq<Action>, s: State<T>)
    requires 0 < numWorkers <= |blocks| && Run(blocks, numWorkers, actions, s)
    ensures Inv(blocks, s)
  {
    if actions == [] {
      InitInv(blocks, numWorkers);
    } else {
      var n := |actions| - 1;
      var s0 :| Run(blocks, numWorkers, actions[..n], s0) && Enabled(blocks, s0, actions[n])
        && s == Next(blocks, s0, actions[n]);
      RunKeeps(blocks, numWorkers, actions[..n], s0);
      StepKeeps(blocks, s0, actions[n]);
    }
  }

  /** The first blocks and a part of the next one begin what all blocks make. */
  lemma ScanSoFar<T>(blocks: seq<seq<T>>, collected: nat, taken: nat)
    requires collected <= |blocks| && (collected < |blocks| ==> taken <= |blocks[collected]|)
    ensures Flatten(blocks[..collected]) + (if collected < |blocks| then blocks[collected][..taken] else [])
      <= Flatten(blocks)
    ensures collected == |blocks| ==> Flatten(blocks[..collected]) == Flatten(blocks)
  {
    var rest := blocks[collected..];
    FlattenAppend(blocks[..collected], rest);
    assert blocks[..collected] + rest == blocks;
    if collected < |blocks| {
      assert Flatten(rest) == blocks[collected] + Flatten(rest[1..]);
    }
  }

  /**
   * Whatever the interleaving, the consumer has received a prefix of the sequential scan, and
   * all of it when the run is done.
   */
  lemma RunReceivesScan<T(!new)>(blocks: seq<seq<T>>, numWorkers: nat, actions: seq<Action>, s: State<T>)
    requires 0 < numWorkers <= |blocks| && Run(blocks, numWorkers, actions, s)
    ensures s.received <= Flatten(blocks)
    ensures Done(blocks, s) ==> s.received == Flatten(blocks)
  {
    RunKeeps(blocks, numWorkers, actions, s);
    ScanSoFar(blocks, s.collected, s.taken);
    if s.collected < |blocks| {
      assert s.received <= Flatten(blocks[..s.collected]) + blocks[s.collected][..s.taken];
    } else {
      assert s.received <= Flatten(blocks[..s.collected]);
    }
  }

  /** Blocks handed to worker w that the collector has not finished. */
  ghost function InFlight<T>(s: State<T>, w: nat): set<int>
    requires |s.workers| > 0
  {
    set b | s.collected <= b < s.dispatched && b % |s.workers| == w
  }

  /** Tokens waiting, tokens taken and blocks in flight add up to one per worker, always. */
  lemma OneTokenPerWorker<T(!new)>(blocks: seq<seq<T>>, numWorkers: nat, actions: seq<Action>, s: State<T>, w: nat)
    requires 0 < numWorkers <= |blocks| && Run(blocks, numWorkers, actions, s) && w < |s.workers|
    ensures |s.workers| > 0
    ensures (if s.workers[w].consumed then 1 else 0) + (if TokenTaken(s, w) then 1 else 0) + |InFlight(s, w)| == 1
  {
    RunKeeps(blocks, numWorkers, actions, s);
    assert WorkerOk(blocks, s, w);
    var next := s.workers[w].nextBlock;
    forall b | b in InFlight(s, w) ensures b == next {
      if b <= next {
        SameTurn(b, next, |s.workers|);
      } else {
        SameTurn(next, b, |s.workers|);
      }
    }
    assert InFlight(s, w) == if next < s.dispatched then {next} else {};
  }

  /** No reachable unfinished state is stuck. */
  lemma NeverStuck<T(!new)>(blocks: seq<seq<T>>, numWorkers: nat, actions: seq<Action>, s: State<T>)
    requires 0 < numWorkers <= |blocks| && Run(blocks, numWorkers, actions, s)
    ensures Done(blocks, s) || exists a :: Enabled(blocks, s, a)
  {
    RunKeeps(blocks, numWorkers, actions, s);
    if s.matches != [] {
      assert Enabled(blocks, s, Receive);
    } else if s.holding.Some? {
      assert Enabled(blocks, s, Forward);
    } else if s.collected == |blocks| {
      assert Done(blocks, s) || Enabled(blocks, s, CloseMatches) || Enabled(blocks, s, CloseWork);
    } else {
      CollectorCanMove(blocks, s);
    }
  }

  lemma CollectorCanMove<T>(blocks: seq<seq<T>>, s: State<T>)
    requires Inv(blocks, s) && s.collected < |blocks| && s.holding.None?
    ensures exists a :: Enabled(blocks, s, a)
  {
    var w := s.collected % |s.workers|;
    CollectorsTurn(blocks, s);
    assert WorkerOk(blocks, s, w);
    if s.collected == s.dispatched {
      assert Enabled(blocks, s, TakeToken) || Enabled(blocks, s, SendWork);
    } else if s.sawEnd {
      assert Enabled(blocks, s, ReturnToken);
    } else if s.workers[w].matches != [] {
      assert Enabled(blocks, s, ReadMatch);
    } else {
      assert Enabled(blocks, s, StartScan(w)) || Enabled(blocks, s, SendMatch(w));
    }
  }
}
