/** The whole differ: partitions, blocks, scan and messages, and the round trip with the patcher. */
module BsdiffDiff {
  import opened Common
  import opened SuffixSearch
  import opened BsdiffScan
  import opened BsdiffPatch
  import ScanPipeline

  const BLOCK_SIZE := 128 * 1024

  /** Too many partitions for the old file, or none asked for, mean one. */
  function Partitions(asked: nat, oldSize: nat): (p: nat)
    ensures p > 0
    ensures oldSize > 0 ==> p <= oldSize
  {
    if asked == 0 || asked >= oldSize - 1 then 1 else asked
  }

  datatype BlockPlan = BlockPlan(size: nat, count: nat)

  lemma NoPartition(newSize: nat, partitions: nat)
    requires partitions > 0
    ensures newSize / partitions == 0 <==> newSize < partitions
  {
    if newSize < partitions {
      DivModIs(newSize, partitions, 0, newSize);
    }
  }

  /** Block size and count. It divides by zero exactly when new is shorter than the number of partitions. */
  function PlanBlocks(newSize: nat, partitions: nat): (plan: Option<BlockPlan>)
    requires newSize > 0 && partitions > 0
    ensures plan.Some? <==> newSize >= partitions
    ensures plan.Some? ==> plan.value.size > 0 && plan.value.count == CeilDiv(newSize, plan.value.size)
  {
    var count := CeilDiv(newSize, BLOCK_SIZE);
    CeilDivBounds(newSize, BLOCK_SIZE);
    if count < partitions then
      var size := newSize / partitions;
      NoPartition(newSize, partitions);
      if size == 0 then None else Some(BlockPlan(size, CeilDiv(newSize, size)))
    else
      Some(BlockPlan(BLOCK_SIZE, count))
  }

  /** Blocks of 128 KiB, if that makes at least one block for every partition; else one of equal size for each. */
  lemma BlockSizeIs(newSize: nat, partitions: nat)
    requires newSize > 0 && partitions > 0 && PlanBlocks(newSize, partitions).Some?
    ensures PlanBlocks(newSize, partitions).value.size ==
      if newSize > 0x2_0000 * (partitions - 1) then 0x2_0000 else newSize / partitions
  {
    CeilDivBounds(newSize, BLOCK_SIZE);
  }

  /** Block b of the plan starts here; the last one takes what is left. */
  function BlockStart(plan: BlockPlan, b: nat): nat {
    plan.size * b
  }

  function BlockEnd(plan: BlockPlan, newSize: nat, b: nat): nat {
    if b == plan.count - 1 then newSize else plan.size * b + plan.size
  }

  ghost predicate PlanFor(plan: BlockPlan, newSize: nat) {
    newSize > 0 && plan.size > 0 && plan.count == CeilDiv(newSize, plan.size)
  }

  lemma BlockFits(plan: BlockPlan, newSize: nat, b: nat)
    requires PlanFor(plan, newSize) && b < plan.count
    ensures BlockStart(plan, b) < BlockEnd(plan, newSize, b) <= newSize
    ensures b + 1 < plan.count ==> BlockEnd(plan, newSize, b) == BlockStart(plan, b + 1)
  {
    CeilDivBounds(newSize, plan.size);
    MulMonotone(b, plan.count - 1, plan.size);
    if b + 1 < plan.count {
      MulMonotone(b + 1, plan.count - 1, plan.size);
    }
  }

  lemma TilesJoin(a: seq<Match>, b: seq<Match>, oldSize: int, start: int, mid: int, end: int)
    requires Tiles(a, oldSize, start, mid) && Tiles(b, oldSize, mid, end)
    ensures Tiles(a + b, oldSize, start, end)
  {
    forall k | 0 <= k < |a + b| ensures TileAt(a + b, start, k) && InOld((a + b)[k], oldSize) {
      if k < |a| {
        assert TileAt(a, start, k);
      } else {
        assert TileAt(b, mid, k - |a|);
      }
    }
  }

  /** ms is what every finished run of the pipeline, with any number of workers, makes of these blocks. */
  ghost predicate Delivered(blocks: seq<seq<Match>>, ms: seq<Match>) {
    forall workers, actions, s ::
      0 < workers <= |blocks| && ScanPipeline.Run(blocks, workers, actions, s) && ScanPipeline.Done(blocks, s) ==>
        s.received == ms
  }

  lemma PipelineDelivers(blocks: seq<seq<Match>>)
    ensures Delivered(blocks, Flatten(blocks))
  {
    forall workers, actions, s
      | 0 < workers <= |blocks| && ScanPipeline.Run(blocks, workers, actions, s) && ScanPipeline.Done(blocks, s)
      ensures s.received == Flatten(blocks)
    {
      ScanPipeline.RunReceivesScan(blocks, workers, actions, s);
    }
  }

  /** The matches of block b are those of its scan. */
  ghost predicate ScannedAt(psa: PSA, new_: Bytes, plan: BlockPlan, blocks: seq<seq<Match>>, b: nat)
    requires psa.Valid() && PlanFor(plan, |new_|) && b < plan.count && b < |blocks|
  {
    BlockFits(plan, |new_|, b);
    BlockScanned(psa, new_[BlockStart(plan, b)..BlockEnd(plan, |new_|, b)], BlockStart(plan, b), blocks[b])
  }

  /** The matches of all blocks, one block after the other, which is how the pipeline delivers them. */
  method ScanBlocks(psa: PSA, new_: Bytes, plan: BlockPlan) returns (ms: seq<Match>, ghost blocks: seq<seq<Match>>)
    requires psa.Valid() && PlanFor(plan, |new_|)
    ensures ms != [] && ms[0].addOldStart == 0 && Tiles(ms, |psa.buf|, 0, |new_|)
    ensures |blocks| == plan.count && ms == Flatten(blocks) && Delivered(blocks, ms)
    ensures forall b :: 0 <= b < plan.count ==> ScannedAt(psa, new_, plan, blocks, b)
  {
    CeilDivBounds(|new_|, plan.size);
    ms, blocks := [], [];
    var b, done := 0, 0;
    while b < plan.count
      invariant 0 <= b <= plan.count && |blocks| == b && ms == Flatten(blocks)
      invariant done == if b < plan.count then BlockStart(plan, b) else |new_|
      invariant Tiles(ms, |psa.buf|, 0, done)
      invariant if b == 0 then ms == [] else ms != [] && ms[0].addOldStart == 0
      invariant forall k :: 0 <= k < b ==> ScannedAt(psa, new_, plan, blocks, k)
    {
      BlockFits(plan, |new_|, b);
      var boundary, end := BlockStart(plan, b), BlockEnd(plan, |new_|, b);
      var blockMatches, t := AnalyzeBlock(psa, new_[boundary..end], boundary);
      TilesJoin(ms, blockMatches, |psa.buf|, 0, boundary, end);
      FlattenSnoc(blocks, blockMatches);
      ghost var before := blocks;
      ms, blocks := ms + blockMatches, blocks + [blockMatches];
      assert BlockScanned(psa, new_[boundary..end], boundary, blockMatches);
      assert forall k :: 0 <= k < b ==> ScannedAt(psa, new_, plan, before, k) ==> ScannedAt(psa, new_, plan, blocks, k);
      b, done := b + 1, end;
    }
    PipelineDelivers(blocks);
  }

  /**
   * The stream holds one message for each match of the scans, block by block, of new against the partitions of old;
   * partitions and blocks have the sizes they should have.
   */
  ghost predicate DiffedBy(psa: PSA, plan: BlockPlan, blocks: seq<seq<Match>>, old_: Bytes, new_: Bytes, asked: nat,
      msgs: seq<Control>)
  {
    && psa.Valid() && psa.buf == old_ && psa.p == (if 0 < asked < |old_| - 1 then asked else 1) && psa.Even()
    && PlanFor(plan, |new_|)
    && plan.size == (if |new_| > 0x2_0000 * (psa.p - 1) then 0x2_0000 else |new_| / psa.p)
    && |blocks| == plan.count && (forall b :: 0 <= b < plan.count ==> ScannedAt(psa, new_, plan, blocks, b))
    && Encodes(old_, new_, Flatten(blocks), msgs)
  }

  /** What the differ sends: for an empty new file just the end. */
  ghost predicate Diffed(old_: Bytes, new_: Bytes, asked: nat, msgs: seq<Control>) {
    if new_ == [] then msgs == [END_CONTROL]
    else exists psa, plan, blocks :: DiffedBy(psa, plan, blocks, old_, new_, asked, msgs)
  }

  /**
   * Do: the control stream of a diff, or a panic: of the first search, which reads the first suffix of an empty old
   * file, or of dividing by a zero block size. The stream always rebuilds new from old.
   */
  method Do(old_: Bytes, new_: Bytes, asked: nat, sorter: Bytes -> seq<int>) returns (msgs: Result<seq<Control>>)
    requires SortsSuffixes(sorter)
    ensures msgs.Ok? <==> new_ == [] || (old_ != [] && |new_| >= Partitions(asked, |old_|))
    ensures msgs.Ok? ==> RunPatch(old_, 0, msgs.value) == Some(new_) && OnlyLastEof(msgs.value)
    ensures msgs.Ok? ==> Diffed(old_, new_, asked, msgs.value)
  {
    if new_ == [] {
      return Ok([END_CONTROL]);
    }
    if old_ == [] {
      return Err("index out of range");
    }
    var partitions := Partitions(asked, |old_|);
    var psa := NewPSA(partitions, old_, sorter);
    var plan := PlanBlocks(|new_|, partitions);
    if plan.None? {
      return Err("integer divide by zero");
    }
    var ms, blocks := ScanBlocks(psa, new_, plan.value);
    forall k | 0 <= k < |ms| ensures CanWrite(old_, new_, ms[k]) {
      TilesCanWrite(old_, new_, ms, 0, k);
    }
    var stream := WriteMessages(old_, new_, ms);
    StreamRebuilds(old_, new_, ms, stream, 0);
    assert TileAt(ms, 0, 0);
    forall k | 0 <= k < |ms| ensures !stream[k].eof {
      assert EncodesAt(old_, new_, ms, stream, k);
    }
    assert stream[0..] == stream && new_[0..] == new_;
    BlockSizeIs(|new_|, partitions);
    assert DiffedBy(psa, plan.value, blocks, old_, new_, asked, stream);
    msgs := Ok(stream);
  }
}
