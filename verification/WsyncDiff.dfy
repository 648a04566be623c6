/** ComputeDiff: the block library, the sliding window over a wrapping buffer, range joining and op cleaning. */
module WsyncDiff {
  import opened Common
  import opened WsyncOps

  // ----- library and lookup

  function WithWeak(hashes: seq<BlockHash>, weak: int): seq<BlockHash> {
    if hashes == [] then []
    else WithWeak(hashes[..|hashes| - 1], weak) + if hashes[|hashes| - 1].weakHash == weak then [hashes[|hashes| - 1]]
      else []
  }

  function Bucket(lookup: map<int, seq<BlockHash>>, weak: int): seq<BlockHash> {
    if weak in lookup then lookup[weak] else []
  }

  method NewBlockLibrary(hashes: seq<BlockHash>) returns (lookup: map<int, seq<BlockHash>>)
    ensures forall weak :: Bucket(lookup, weak) == WithWeak(hashes, weak)
  {
    lookup := map[];
    for i := 0 to |hashes|
      invariant forall weak :: Bucket(lookup, weak) == WithWeak(hashes[..i], weak)
    {
      var key := hashes[i].weakHash;
      assert hashes[..i + 1][..i] == hashes[..i];
      ghost var before := lookup;
      assert Bucket(before, key) == WithWeak(hashes[..i], key);
      if key !in lookup {
        lookup := lookup[key := [hashes[i]]];
      } else {
        lookup := lookup[key := lookup[key] + [hashes[i]]];
      }
      assert forall weak :: weak != key ==> Bucket(lookup, weak) == Bucket(before, weak);
    }
    assert hashes[..|hashes|] == hashes;
  }

  predicate Wanted(h: BlockHash, strong: Bytes, shortSize: int, file: Option<int>) {
    (file.Some? ==> h.fileIndex == file.value) && h.shortSize == shortSize && h.strongHash == strong
  }

  /** The first entry with this strong hash and short size, in one file or in any. */
  function FirstWanted(hh: seq<BlockHash>, strong: Bytes, shortSize: int, file: Option<int>): (r: Option<BlockHash>)
    ensures r.Some? ==> r.value in hh && Wanted(r.value, strong, shortSize, file)
    ensures r.None? ==> forall h :: h in hh ==> !Wanted(h, strong, shortSize, file)
  {
    if hh == [] then None
    else if Wanted(hh[0], strong, shortSize, file) then Some(hh[0])
    else FirstWanted(hh[1..], strong, shortSize, file)
  }

  /**
   * What findUniqueHash answers: nothing for an empty window; a block of the preferred file if it has one; else any.
   */
  function Found(hh: seq<BlockHash>, data: Bytes, strong: Bytes, shortSize: int, preferred: int): (r: Option<BlockHash>)
    ensures r.Some? ==> data != [] && r.value in hh && r.value.shortSize == shortSize && r.value.strongHash == strong
  {
    if data == [] then None
    else if preferred != -1 && FirstWanted(hh, strong, shortSize, Some(preferred)).Some?
      then FirstWanted(hh, strong, shortSize, Some(preferred))
    else FirstWanted(hh, strong, shortSize, None)
  }

  method FindUniqueHash(strong: StrongHash, hh: seq<BlockHash>, data: Bytes, shortSize: int, preferred: int)
    returns (r: Option<BlockHash>)
    ensures r == Found(hh, data, strong(data), shortSize, preferred)
  {
    if |data| == 0 {
      return None;
    }
    var hashValue := strong(data);
    if preferred != -1 {
      for i := 0 to |hh|
        invariant FirstWanted(hh, hashValue, shortSize, Some(preferred)) ==
          FirstWanted(hh[i..], hashValue, shortSize, Some(preferred))
      {
        assert hh[i..][1..] == hh[i + 1..];
        if hh[i].fileIndex == preferred && hh[i].shortSize == shortSize && hh[i].strongHash == hashValue {
          return Some(hh[i]);
        }
      }
    }
    for i := 0 to |hh|
      invariant FirstWanted(hh, hashValue, shortSize, None) == FirstWanted(hh[i..], hashValue, shortSize, None)
    {
      assert hh[i..][1..] == hh[i + 1..];
      if hh[i].shortSize == shortSize && hh[i].strongHash == hashValue {
        return Some(hh[i]);
      }
    }
    r := None;
  }

  lemma {:induction false} WithWeakMembers(hashes: seq<BlockHash>, weak: int)
    ensures forall h :: h in WithWeak(hashes, weak) <==> h in hashes && h.weakHash == weak
  {
    if hashes != [] {
      var n := |hashes| - 1;
      WithWeakMembers(hashes[..n], weak);
      assert hashes == hashes[..n] + [hashes[n]];
    }
  }

  // ----- what the strong hash is trusted with

  /** No block of the targets collides with a different window of the source. */
  ghost predicate Separates(strong: StrongHash, size: nat, files: seq<Bytes>, source: Bytes) {
    forall f, i, lo, hi :: 0 <= f < |files| && 0 <= i && 0 <= lo <= hi <= |source| ==>
      Same(strong, BlockAt(files[f], size, i), source[lo..hi])
  }

  ghost predicate Same(strong: StrongHash, a: Bytes, b: Bytes) {
    strong(a) == strong(b) ==> a == b
  }

  /** A block found for a window of the source is that window, so copying it produces the window. */
  lemma FoundIsWindow(strong: StrongHash, size: nat, files: seq<Bytes>, source: Bytes, h: BlockHash, lo: int, hi: int)
    requires size > 0 && Separates(strong, size, files, source) && Names(strong, size, files, h)
    requires 0 <= lo < hi <= |source| && h.strongHash == strong(source[lo..hi])
    ensures ValidOp(files, size, BlockRange(h.fileIndex, h.blockIndex, 1))
    ensures OpBytes(files, size, BlockRange(h.fileIndex, h.blockIndex, 1)) == source[lo..hi]
    ensures h.shortSize == if hi - lo < size then hi - lo else 0
    ensures hi - lo <= size
  {
    var file := files[h.fileIndex];
    assert Same(strong, BlockAt(file, size, h.blockIndex), source[lo..hi]);
    OneBlockBytes(files, size, h.fileIndex, h.blockIndex);
  }

  // ----- joining and cleaning

  /** Operations already handed on, and the block range held back in case it can grow. */
  datatype Out = Out(sent: seq<Operation>, prev: Option<Operation>)

  /** The operation cleaner: empty data operations are dropped unless they come first. */
  function Send(sent: seq<Operation>, op: Operation): seq<Operation> {
    if |sent| > 0 && op.Data? && op.data == [] then sent else sent + [op]
  }

  function FlushPrev(out: Out): Out {
    if out.prev.Some? then Out(Send(out.sent, out.prev.value), None) else out
  }

  predicate Joins(prev: Option<Operation>, op: Operation) {
    && prev.Some? && prev.value.BlockRange? && op.BlockRange?
    && prev.value.fileIndex == op.fileIndex && prev.value.blockIndex + prev.value.blockSpan == op.blockIndex
  }

  function Enqueued(out: Out, op: Operation): Out {
    if Joins(out.prev, op) then out.(prev := Some(out.prev.value.(blockSpan := out.prev.value.blockSpan +
      op.blockSpan)))
    else if op.BlockRange? then FlushPrev(out).(prev := Some(op))
    else var flushed := FlushPrev(out); flushed.(sent := Send(flushed.sent, op))
  }

  ghost function Produced(files: seq<Bytes>, size: nat, out: Out): Bytes {
    OpsBytes(files, size, out.sent) + if out.prev.Some? then OpBytes(files, size, out.prev.value) else []
  }

  ghost predicate OutOk(files: seq<Bytes>, size: nat, out: Out) {
    && (forall i :: 0 <= i < |out.sent| ==> ValidOp(files, size, out.sent[i]))
    && (out.prev.Some? ==> out.prev.value.BlockRange? && ValidOp(files, size, out.prev.value))
  }

  lemma SendProduces(files: seq<Bytes>, size: nat, sent: seq<Operation>, op: Operation)
    ensures OpsBytes(files, size, Send(sent, op)) == OpsBytes(files, size, sent) + OpBytes(files, size, op)
  {
    OpsBytesSnoc(files, size, sent, op);
  }

  lemma FlushPrevProduces(files: seq<Bytes>, size: nat, out: Out)
    requires OutOk(files, size, out)
    ensures OutOk(files, size, FlushPrev(out)) && FlushPrev(out).prev == None
    ensures OpsBytes(files, size, FlushPrev(out).sent) == Produced(files, size, out)
  {
    if out.prev.Some? {
      SendProduces(files, size, out.sent, out.prev.value);
    } else {
      assert Produced(files, size, out) == OpsBytes(files, size, out.sent) + [];
    }
  }

  lemma JoinedProduces(files: seq<Bytes>, size: nat, out: Out, op: Operation)
    requires OutOk(files, size, out) && ValidOp(files, size, op) && Joins(out.prev, op) && op.blockSpan == 1
    ensures OutOk(files, size, Enqueued(out, op))
    ensures Produced(files, size, Enqueued(out, op)) == Produced(files, size, out) + OpBytes(files, size, op)
  {
    var p := out.prev.value;
    assert op == BlockRange(p.fileIndex, p.blockIndex + p.blockSpan, 1);
    RangesJoin(files, size, p.fileIndex, p.blockIndex, p.blockSpan);
    var x, y, z := OpsBytes(files, size, out.sent), OpBytes(files, size, p), OpBytes(files, size, op);
    assert x + (y + z) == (x + y) + z;
  }

  /** Joining, holding back and cleaning never change the bytes the operations stand for. */
  lemma EnqueuedProduces(files: seq<Bytes>, size: nat, out: Out, op: Operation)
    requires OutOk(files, size, out) && ValidOp(files, size, op) && (op.BlockRange? ==> op.blockSpan == 1)
    ensures OutOk(files, size, Enqueued(out, op))
    ensures Produced(files, size, Enqueued(out, op)) == Produced(files, size, out) + OpBytes(files, size, op)
  {
    if Joins(out.prev, op) {
      JoinedProduces(files, size, out, op);
    } else {
      FlushPrevProduces(files, size, out);
      if op.Data? {
        SendProduces(files, size, FlushPrev(out).sent, op);
        assert Produced(files, size, Enqueued(out, op)) == OpsBytes(files, size, Enqueued(out, op).sent) + [];
      }
    }
  }

  /** Handed on before the last window: every data operation is non-empty and within the limit. */
  ghost predicate Tidy(sent: seq<Operation>, maxData: nat) {
    forall i :: 0 <= i < |sent| && sent[i].Data? ==> 0 < |sent[i].data| <= maxData
  }

  lemma EnqueuedTidy(out: Out, op: Operation, maxData: nat)
    requires out.prev.Some? ==> out.prev.value.BlockRange?
    ensures Tidy(out.sent, maxData) && (op.Data? ==> 0 < |op.data| <= maxData) ==> Tidy(Enqueued(out, op).sent, maxData)
  {
  }
}
