/** What the plain scan means when the library is the signature of the target files. */
module WsyncKnown {
  import opened Common
  import opened RollingHash
  import opened WsyncOps
  import opened WsyncDiff
  import opened WsyncWindow
  import opened WsyncGreedy

  /** The library holds the signature of the target files, in order. */
  ghost predicate FromSignature(input: Input) {
    input.size > 0
    && forall weak ::
      Bucket(input.lookup, weak) == WithWeak(Signature(input.strong, input.size, input.files, 0), weak)
  }

  lemma FromSignatureOk(input: Input)
    requires input.size >= 2 && input.maxData > 0 && Separates(input.strong, input.size, input.files, input.source)
      && FromSignature(input)
    ensures input.Ok()
  {
    SignatureNames(input.strong, input.size, input.files, 0);
    assert input.files[0..] == input.files;
    forall weak, h | h in Bucket(input.lookup, weak) ensures Names(input.strong, input.size, input.files, h) {
      WithWeakMembers(Signature(input.strong, input.size, input.files, 0), weak);
    }
  }

  // ----- the first wanted entry

  lemma {:induction false} WithWeakAppend(a: seq<BlockHash>, b: seq<BlockHash>, weak: int)
    ensures WithWeak(a + b, weak) == WithWeak(a, weak) + WithWeak(b, weak)
  {
    if b == [] {
      assert a + b == a;
    } else {
      var n := |b| - 1;
      WithWeakAppend(a, b[..n], weak);
      assert (a + b)[..|a + b| - 1] == a + b[..n];
    }
  }

  lemma {:induction false} FirstWantedAppend(a: seq<BlockHash>, b: seq<BlockHash>, strong: Bytes, shortSize: int,
      file: Option<int>)
    ensures FirstWanted(a + b, strong, shortSize, file) ==
      if FirstWanted(a, strong, shortSize, file).Some? then FirstWanted(a, strong, shortSize, file)
        else FirstWanted(b, strong, shortSize, file)
  {
    if a == [] {
      assert a + b == b;
    } else {
      FirstWantedAppend(a[1..], b, strong, shortSize, file);
      assert (a + b)[1..] == a[1..] + b;
    }
  }

  ghost predicate Matches(h: BlockHash, weak: int, strong: Bytes, shortSize: int, file: Option<int>) {
    h.weakHash == weak && Wanted(h, strong, shortSize, file)
  }

  ghost predicate FirstMatch(list: seq<BlockHash>, m: nat, j: int, h: BlockHash, weak: int, strong: Bytes,
      shortSize: int, file: Option<int>) {
    && 0 <= j < m <= |list| && list[j] == h && Matches(list[j], weak, strong, shortSize, file)
    && forall i :: 0 <= i < j ==> !Matches(list[i], weak, strong, shortSize, file)
  }

  /** In a list, the first wanted entry of a bucket is the first matching entry of the list. */
  lemma {:induction false} FirstInList(list: seq<BlockHash>, m: nat, weak: int, strong: Bytes, shortSize: int,
      file: Option<int>) returns (j: int)
    requires m <= |list|
    ensures var r := FirstWanted(WithWeak(list[..m], weak), strong, shortSize, file);
      if r.None? then forall i :: 0 <= i < m ==> !Matches(list[i], weak, strong, shortSize, file)
      else FirstMatch(list, m, j, r.value, weak, strong, shortSize, file)
  {
    j := 0;
    if m > 0 {
      j := FirstInList(list, m - 1, weak, strong, shortSize, file);
      assert list[..m][..m - 1] == list[..m - 1];
      var last := list[m - 1];
      var tail := if last.weakHash == weak then [last] else [];
      FirstWantedAppend(WithWeak(list[..m - 1], weak), tail, strong, shortSize, file);
      assert FirstWanted(tail, strong, shortSize, file) == if Matches(last, weak, strong, shortSize, file)
        then Some(last) else None;
      if FirstWanted(WithWeak(list[..m - 1], weak), strong, shortSize, file).None? {
        j := m - 1;
      }
    }
  }

  // ----- the first block

  /** Block i of target file f is the window at p. */
  ghost predicate IsTargetBlock(input: Input, f: int, i: int, p: nat)
    requires p <= |input.source|
  {
    0 <= f < |input.files| && 0 <= i && BlockAt(input.files[f], input.size, i) == WindowAt(input, p)
  }

  predicate Earlier(a: BlockHash, b: BlockHash) {
    a.fileIndex < b.fileIndex || (a.fileIndex == b.fileIndex && a.blockIndex < b.blockIndex)
  }

  ghost predicate Ordered(sig: seq<BlockHash>, first: int) {
    && (forall j :: 0 <= j < |sig| ==> sig[j].fileIndex >= first)
    && (forall j, k :: 0 <= j < k < |sig| ==> Earlier(sig[j], sig[k]))
  }

  lemma OrderedJoin(own: seq<BlockHash>, rest: seq<BlockHash>, first: int)
    requires forall j :: 0 <= j < |own| ==> own[j].fileIndex == first && own[j].blockIndex == j
    requires Ordered(rest, first + 1)
    ensures Ordered(own + rest, first)
  {
  }

  /** The signature is in the order of files and blocks. */
  lemma {:induction false} SignatureOrdered(strong: StrongHash, size: nat, files: seq<Bytes>, first: int)
    requires size > 0
    ensures Ordered(Signature(strong, size, files, first), first)
  {
    if files != [] {
      SignatureOrdered(strong, size, files[1..], first + 1);
      OrderedJoin(FileHashes(strong, size, first, files[0]), Signature(strong, size, files[1..], first + 1), first);
    }
  }

  /** It has every block of every file. */
  lemma {:induction false} SignatureHas(strong: StrongHash, size: nat, files: seq<Bytes>, first: int, f: nat, i: nat)
    returns (j: nat)
    requires size > 0 && f < |files| && Offset(i, size) < |files[f]|
    ensures j < |Signature(strong, size, files, first)|
    ensures Signature(strong, size, files, first)[j] == HashOf(strong, size, first + f, i, BlockAt(files[f], size, i))
    decreases f
  {
    if f == 0 {
      NumBlocksOffsets(|files[0]|, size, i);
      j := i;
    } else {
      j := SignatureHas(strong, size, files[1..], first + 1, f - 1, i);
      j := j + |FileHashes(strong, size, first, files[0])|;
    }
  }

  /** h is the first entry for the window at p, of one file or of any. */
  ghost predicate FirstFor(input: Input, p: nat, h: BlockHash, file: Option<int>)
    requires p <= |input.source|
  {
    && IsTargetBlock(input, h.fileIndex, h.blockIndex, p) && (file.Some? ==> h.fileIndex == file.value)
    && forall f, i :: IsTargetBlock(input, f, i, p) && (file.Some? ==> f == file.value) ==>
      h.fileIndex < f || (h.fileIndex == f && h.blockIndex <= i)
  }

  function ShortSize(input: Input, window: Bytes): int {
    if |window| < input.size then |window| else 0
  }

  lemma FirstWantedIsFirst(input: Input, p: nat, file: Option<int>)
    requires input.Ok() && FromSignature(input) && p < |input.source|
    ensures var window := WindowAt(input, p);
      var r := FirstWanted(Bucket(input.lookup, BetaOf(window).hash), input.strong(window), ShortSize(input, window),
        file);
      if r.Some? then FirstFor(input, p, r.value, file)
      else forall f, i :: IsTargetBlock(input, f, i, p) && (file.Some? ==> f == file.value) ==> false
  {
    var window := WindowAt(input, p);
    var weak, s, short := BetaOf(window).hash, input.strong(window), ShortSize(input, window);
    var sig := Signature(input.strong, input.size, input.files, 0);
    var r := FirstWanted(WithWeak(sig, weak), s, short, file);
    var j := FirstInList(sig, |sig|, weak, s, short, file);
    assert sig[..|sig|] == sig;
    SignatureOrdered(input.strong, input.size, input.files, 0);
    if r.Some? {
      assert r.value in Bucket(input.lookup, weak);
      FoundIsTarget(input, p, r.value);
    }
    forall f, i | IsTargetBlock(input, f, i, p) && (file.Some? ==> f == file.value)
      ensures r.Some? && (r.value.fileIndex < f || (r.value.fileIndex == f && r.value.blockIndex <= i))
    {
      var k := SignatureHas(input.strong, input.size, input.files, 0, f, i);
      assert Matches(sig[k], weak, s, short, file);
    }
  }

  lemma FoundIsTarget(input: Input, p: nat, h: BlockHash)
    requires input.Ok() && p < |input.source| && h in Bucket(input.lookup, BetaOf(WindowAt(input, p)).hash)
      && h.strongHash == input.strong(WindowAt(input, p))
    ensures IsTargetBlock(input, h.fileIndex, h.blockIndex, p)
  {
    var hi := p + |WindowAt(input, p)|;
    assert WindowAt(input, p) == input.source[p..hi];
    FoundIsWindow(input.strong, input.size, input.files, input.source, h, p, hi);
    OneBlockBytes(input.files, input.size, h.fileIndex, h.blockIndex);
  }

  /**
   * Looking a window up finds something just if it is a block of a target file: the first one of the preferred file
   * that it is, and else the first one of all.
   */
  lemma LookupIsFirst(input: Input, p: nat)
    requires input.Ok() && FromSignature(input) && p < |input.source|
    ensures var found := LookupOf(input, WindowAt(input, p));
      if found.None? then forall f, i :: !IsTargetBlock(input, f, i, p)
      else if input.preferred != -1 && exists i :: IsTargetBlock(input, input.preferred, i, p)
      then FirstFor(input, p, found.value, Some(input.preferred))
      else FirstFor(input, p, found.value, None)
  {
    FirstWantedIsFirst(input, p, None);
    FirstWantedIsFirst(input, p, Some(input.preferred));
  }

  /**
   * The scan misses no block: wherever it comes to a whole window that is a block of a target file, and that is not a
   * byte behind one with the same weak hash, it copies the block if and only if the window ends before the short last
   * block of the source.
   */
  lemma KnownIsCopiedIff(input: Input, ops: seq<Operation>, j: nat, f: int, i: int)
    requires input.Ok() && FromSignature(input) && Tokens(ops) == Greedy(input, 0, false) && j < |Tokens(ops)|
    requires var p := Place(input, Tokens(ops), j, 0);
      && 0 <= p && p + input.size <= |input.source| && IsTargetBlock(input, f, i, p)
      && (j == 0 || Tokens(ops)[j - 1].Block? || (p > 0 && !SameHash(input, p)))
    ensures var t, p := Tokens(ops)[j], Place(input, Tokens(ops), j, 0);
      if p + input.size <= Whole(input) then t.Block? && IsTargetBlock(input, t.fileIndex, t.blockIndex, p)
      else t.Fresh?
  {
    var p := Place(input, Tokens(ops), j, 0);
    GreedyTells(input, 0, false, j);
    LookupIsFirst(input, p);
  }

  /** What is copied is the window, wherever the scan copies. */
  lemma CopiedIsWindow(input: Input, ops: seq<Operation>, j: nat)
    requires input.Ok() && FromSignature(input) && Tokens(ops) == Greedy(input, 0, false) && j < |Tokens(ops)|
    requires Tokens(ops)[j].Block? && 0 <= Place(input, Tokens(ops), j, 0) < |input.source|
    requires Place(input, Tokens(ops), j, 0) + input.size <= Whole(input)
    ensures var t := Tokens(ops)[j];
      IsTargetBlock(input, t.fileIndex, t.blockIndex, Place(input, Tokens(ops), j, 0))
  {
    GreedyTells(input, 0, false, j);
    LookupIsFirst(input, Place(input, Tokens(ops), j, 0));
  }

  lemma OnlyBlockOf(input: Input, block: Bytes)
    requires input.size > 0 && input.files == [block] && |block| == input.size <= |input.source|
      && block != WindowAt(input, 0)
    ensures BlockAt(block, input.size, 0) == block && forall f, i :: !IsTargetBlock(input, f, i, 0)
  {
    forall f, i | 0 <= f < |input.files| && 0 <= i ensures !IsTargetBlock(input, f, i, 0) {
      NumBlocksOffsets(|block|, input.size, i);
      if i > 0 {
        OffsetIsProduct(i, input.size);
        MulMonotone(1, i, input.size);
        assert BlockAt(block, input.size, i) == [];
      } else {
        assert BlockAt(block, input.size, 0) == block;
      }
    }
  }

  /** One byte in front of a block that the target has, and nothing behind it: all of it is shipped. */
  lemma LastBlockIsMissed(input: Input, x: byte, block: Bytes, ops: seq<Operation>)
    requires input.Ok() && FromSignature(input) && input.files == [block] && |block| == input.size
      && input.source == [x] + block && block != ([x] + block)[..input.size]
    requires Tokens(ops) == Greedy(input, 0, false)
    ensures IsTargetBlock(input, 0, 0, 1) && Tokens(ops) == Shipped(input.size + 1)
  {
    assert WindowAt(input, 0) == input.source[..input.size] && WindowAt(input, 1) == block;
    OnlyBlockOf(input, block);
    LookupIsFirst(input, 0);
    OnlyWindowMissed(input);
  }
}
