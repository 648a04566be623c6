/** What ComputeDiff is given, windows of the source and their hashes, and looking a window up in the library. */
module WsyncWindow {
  import opened Common
  import opened RollingHash
  import opened WsyncOps
  import opened WsyncDiff

  /**
   * What ComputeDiff is given, and what the round trip may rely on. maxData is MaxDataOp, a constant of 4 MiB
   * in the code; any limit will do.
   */
  datatype Input = Input(strong: StrongHash, size: nat, maxData: nat, ghost files: seq<Bytes>,
      lookup: map<int, seq<BlockHash>>, preferred: int, source: Bytes) {
    ghost predicate Ok() {
      && size >= 2 && maxData > 0 && Separates(strong, size, files, source)
      && forall weak, h :: h in Bucket(lookup, weak) ==> Names(strong, size, files, h)
    }
  }

  // ----- windows of the source, element by element

  /** piece is what the source has from pos on. */
  ghost predicate IsAt(piece: Bytes, source: Bytes, pos: int) {
    && 0 <= pos && pos + |piece| <= |source|
    && forall i :: 0 <= i < |piece| ==> piece[i] == source[pos + i]
  }

  lemma IsAtSlice(piece: Bytes, source: Bytes, pos: int)
    requires IsAt(piece, source, pos)
    ensures piece == source[pos..pos + |piece|]
  {
  }

  lemma IsAtExtends(head: Bytes, piece: Bytes, source: Bytes, pos: int)
    requires IsAt(head, source, 0) && |head| == pos && IsAt(piece, source, pos)
    ensures IsAt(head + piece, source, 0)
  {
  }

  lemma RestIsAt(head: Bytes, rest: Bytes, source: Bytes, pos: int)
    requires IsAt(head, source, 0) && |head| == pos && IsAt(rest, source, pos) && pos + |rest| == |source|
    ensures head + rest == source
  {
  }

  /** beta is the hash of the n bytes of the source at pos. */
  ghost predicate HashAt(beta: Beta, source: Bytes, pos: int, n: int) {
    forall window :: Hashing(window) && |window| == n && IsAt(window, source, pos) ==> beta == BetaOf(window)
  }

  method HashBlock(window: Bytes, ghost source: Bytes, ghost pos: int) returns (beta: Beta)
    requires IsAt(window, source, pos)
    ensures HashAt(beta, source, pos, |window|)
  {
    beta := BetaHash(window);
    forall other | |other| == |window| && IsAt(other, source, pos) ensures other == window {
      IsAtSlice(other, source, pos);
      IsAtSlice(window, source, pos);
    }
  }

  /** Roll the hash by one byte; on a whole window that gives the hash of the next window. */
  method RollBeta(beta: Beta, n: int, pop: byte, push: byte, ghost source: Bytes, ghost pos: int) returns (next: Beta)
    ensures 1 <= pos < pos + n <= |source| && HashAt(beta, source, pos - 1, n) && pop == source[pos - 1]
      && push == source[pos + n - 1]
      ==> HashAt(next, source, pos, n)
  {
    next := Roll(beta, n, pop, push);
    if 1 <= pos < pos + n <= |source| && HashAt(beta, source, pos - 1, n) && pop == source[pos - 1]
      && push == source[pos + n - 1] {
      RollsOnSource(source, pos, n, beta, next);
    }
  }

  lemma RollsOnSource(source: Bytes, pos: int, n: int, beta: Beta, next: Beta)
    requires 1 <= pos < pos + n <= |source| && HashAt(beta, source, pos - 1, n)
    requires next == Roll(beta, n, source[pos - 1], source[pos + n - 1])
    ensures HashAt(next, source, pos, n)
  {
    var window, rest := source[pos - 1..pos - 1 + n], source[pos..pos + n - 1];
    assert Hashing(window);
    assert window == [source[pos - 1]] + rest;
    RollIsBetaOf(source[pos - 1], rest, source[pos + n - 1]);
    forall w | |w| == n && IsAt(w, source, pos) ensures w == rest + [source[pos + n - 1]] {
      IsAtSlice(w, source, pos);
    }
  }

  // ----- lookup

  /** Only ever used to say which block a lookup is about. */
  ghost predicate LookingUp(block: Bytes) { true }

  /** What looking up a block should find. */
  ghost function LookupOf(input: Input, block: Bytes): Option<BlockHash> {
    Found(Bucket(input.lookup, BetaOf(block).hash), block, input.strong(block), if |block| < input.size then |block|
      else 0, input.preferred)
  }

  /** found is what the library has for the block of the source at p. */
  ghost predicate FoundAt(input: Input, p: int, found: Option<BlockHash>) {
    forall block ::
      LookingUp(block) && 0 <= p <= |input.source| && |block| == Min(input.size, |input.source| - p)
      && IsAt(block, input.source, p)
      ==> found == LookupOf(input, block)
  }

  lemma FoundIsLookup(input: Input, p: int, block: Bytes, found: Option<BlockHash>)
    requires FoundAt(input, p, found) && 0 <= p <= |input.source|
    requires |block| == Min(input.size, |input.source| - p) && IsAt(block, input.source, p)
    ensures found == LookupOf(input, block)
  {
    assert LookingUp(block);
  }

  method LookupIn(input: Input, beta: Beta, window: Bytes, shortSize: int, ghost p: int)
    returns (found: Option<BlockHash>)
    requires IsAt(window, input.source, p)
    ensures found.Some? ==>
      window != [] && found.value in Bucket(input.lookup, beta.hash) && found.value.strongHash == input.strong(window)
      && found.value.shortSize == shortSize
    ensures HashAt(beta, input.source, p, |window|) && |window| == Min(input.size, |input.source| - p)
      && shortSize == (if |window| < input.size then |window| else 0)
      ==> FoundAt(input, p, found)
  {
    if beta.hash in input.lookup {
      found := FindUniqueHash(input.strong, input.lookup[beta.hash], window, shortSize, input.preferred);
    } else {
      found := None;
    }
    assert found == Found(Bucket(input.lookup, beta.hash), window, input.strong(window), shortSize, input.preferred);
    assert Hashing(window);
    forall other | |other| == |window| && IsAt(other, input.source, p) ensures other == window {
      IsAtSlice(other, input.source, p);
      IsAtSlice(window, input.source, p);
    }
  }

  /** Copying this block produces the k bytes of the source at p. */
  ghost predicate Copies(input: Input, op: Operation, p: int, k: int) {
    && op.BlockRange? && op.blockSpan == 1 && ValidOp(input.files, input.size, op)
    && |OpBytes(input.files, input.size, op)| == k && IsAt(OpBytes(input.files, input.size, op), input.source, p)
  }

  /** No block of a target file occurs in the source. */
  ghost predicate NothingShared(input: Input) {
    forall f, i, p :: 0 <= f < |input.files| && 0 <= i && BlockAt(input.files[f], input.size, i) != [] ==>
      !IsAt(BlockAt(input.files[f], input.size, i), input.source, p)
  }

  lemma NothingToCopy(input: Input, f: int, i: int, p: int, k: int)
    requires NothingShared(input) && Copies(input, BlockRange(f, i, 1), p, k)
    ensures k <= 0
  {
    OneBlockBytes(input.files, input.size, f, i);
  }

  lemma BlockCopies(input: Input, h: BlockHash, weak: int, window: Bytes, p: int)
    requires input.Ok() && IsAt(window, input.source, p) && window != [] && h in Bucket(input.lookup, weak)
      && h.strongHash == input.strong(window)
    ensures Copies(input, BlockRange(h.fileIndex, h.blockIndex, 1), p, |window|)
    ensures |window| <= input.size && h.shortSize == if |window| < input.size then |window| else 0
  {
    IsAtSlice(window, input.source, p);
    FoundIsWindow(input.strong, input.size, input.files, input.source, h, p, p + |window|);
  }
}
