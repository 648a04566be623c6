/**
 * The overlay format: a writer that encodes only what differs from the old file, and the
 * patcher that applies it in place.
 */
module OverlayCodec {
  import opened Common

  /** An overlay message. The empty OverlayHeader at the start of a file reads back as Skip(0). */
  datatype Op = Skip(len: nat) | Fresh(data: Bytes) | End

  const HEADER := Skip(0)

  // ----- what applying means

  /** A file open for writing at a position. */
  datatype Open = Open(data: Bytes, pos: nat)

  function PadTo(data: Bytes, n: nat): (r: Bytes)
    ensures |r| >= n && |r| >= |data|
  {
    if n <= |data| then data else data + seq(n - |data|, _ => 0)
  }

  function WriteAt(f: Open, d: Bytes): Open {
    var padded := PadTo(f.data, f.pos + |d|);
    Open(padded[..f.pos] + d + padded[f.pos + |d|..], f.pos + |d|)
  }

  function Step(f: Open, op: Op): Open {
    match op
    case Skip(n) => f.(pos := f.pos + n)
    case Fresh(d) => WriteAt(f, d)
    case End => f
  }

  function ApplyOps(f: Open, ops: seq<Op>): Open {
    if ops == [] then f else Step(ApplyOps(f, ops[..|ops| - 1]), ops[|ops| - 1])
  }

  /** The patcher stops at the first End; it fails when the messages run out before one. */
  function PatchRun(f: Open, msgs: seq<Op>): Option<Open>
    decreases |msgs|
  {
    if msgs == [] then None
    else if msgs[0].End? then Some(f)
    else PatchRun(Step(f, msgs[0]), msgs[1..])
  }

  method Patch(msgs: seq<Op>, f: Open) returns (r: Option<Open>)
    ensures r == PatchRun(f, msgs)
  {
    var w, i := f, 0;
    while i < |msgs|
      invariant 0 <= i <= |msgs| && PatchRun(w, msgs[i..]) == PatchRun(f, msgs)
    {
      assert msgs[i..][1..] == msgs[i + 1..];
      match msgs[i] {
        case End => return Some(w);
        case Skip(n) => w := w.(pos := w.pos + n);
        case Fresh(d) => w := WriteAt(w, d);
      }
      i := i + 1;
    }
    r := None;
  }

  function Truncate(f: Open): Bytes {
    PadTo(f.data, f.pos)[..f.pos]
  }

  /** applyOverlays on one file: patch it from the start, then cut it at the final position. */
  function ApplyOverlay(old_: Bytes, msgs: seq<Op>): Option<Bytes> {
    var r := PatchRun(Open(old_, 0), msgs);
    if r.None? then None else Some(Truncate(r.value))
  }

  predicate NoEnd(ops: seq<Op>) {
    forall i :: 0 <= i < |ops| ==> !ops[i].End?
  }

  /** What follows the end message is never read. */
  lemma {:induction false} PatchIgnoresTail(f: Open, ops: seq<Op>, junk: seq<Op>)
    requires NoEnd(ops)
    ensures PatchRun(f, ops + [End] + junk) == Some(ApplyOps(f, ops))
    decreases |ops|
  {
    if ops == [] {
      assert ([] + [End] + junk)[0] == End;
    } else {
      assert (ops + [End] + junk)[1..] == ops[1..] + [End] + junk;
      PatchIgnoresTail(Step(f, ops[0]), ops[1..], junk);
      ApplyOpsFront(f, ops);
    }
  }

  lemma {:induction false} ApplyOpsFront(f: Open, ops: seq<Op>)
    requires ops != []
    ensures ApplyOps(f, ops) == ApplyOps(Step(f, ops[0]), ops[1..])
  {
    var n := |ops| - 1;
    if n == 0 {
      assert ops[..0] == [] && ops[1..] == [];
    } else {
      ApplyOpsFront(f, ops[..n]);
      assert ops[..n][1..] == ops[1..][..n - 1];
    }
  }

  lemma ApplyOpsSnoc(f: Open, ops: seq<Op>, op: Op)
    ensures ApplyOps(f, ops + [op]) == Step(ApplyOps(f, ops), op)
  {
    assert (ops + [op])[..|ops|] == ops;
  }

  // ----- what the messages so far stand for

  /** f is old with its head overwritten by head, open right behind it. */
  ghost predicate Overwritten(f: Open, old_: Bytes, head: Bytes) {
    && f.pos == |head| && |f.data| == (if |head| < |old_| then |old_| else |head|)
    && (forall i :: 0 <= i < |head| ==> f.data[i] == head[i])
    && (forall i :: |head| <= i < |old_| ==> f.data[i] == old_[i])
  }

  ghost predicate Encodes(old_: Bytes, ops: seq<Op>, head: Bytes) {
    NoEnd(ops) && Overwritten(ApplyOps(Open(old_, 0), ops), old_, head)
  }

  /** What a write leaves at i. */
  lemma WrittenAt(f: Open, d: Bytes, i: int)
    requires f.pos <= |f.data| && 0 <= i < |WriteAt(f, d).data|
    ensures |WriteAt(f, d).data| == if f.pos + |d| < |f.data| then |f.data| else f.pos + |d|
    ensures WriteAt(f, d).data[i] == if f.pos <= i < f.pos + |d| then d[i - f.pos] else f.data[i]
  {
  }

  lemma WriteOverwrites(f: Open, old_: Bytes, head: Bytes, d: Bytes)
    requires Overwritten(f, old_, head)
    ensures Overwritten(WriteAt(f, d), old_, head + d)
  {
    var g := WriteAt(f, d);
    assert |g.data| == if |head + d| < |old_| then |old_| else |head + d|;
    forall i | 0 <= i < |g.data| ensures g.data[i] == if i < |head + d| then (head + d)[i] else old_[i] {
      WrittenAt(f, d, i);
    }
  }

  lemma FreshEncodes(old_: Bytes, ops: seq<Op>, head: Bytes, d: Bytes)
    requires Encodes(old_, ops, head)
    ensures Encodes(old_, ops + [Fresh(d)], head + d)
  {
    ApplyOpsSnoc(Open(old_, 0), ops, Fresh(d));
    WriteOverwrites(ApplyOps(Open(old_, 0), ops), old_, head, d);
  }

  lemma SkipEncodes(old_: Bytes, ops: seq<Op>, head: Bytes, d: Bytes)
    requires Encodes(old_, ops, head) && |head| + |d| <= |old_|
    requires forall i :: 0 <= i < |d| ==> old_[|head| + i] == d[i]
    ensures Encodes(old_, ops + [Skip(|d|)], head + d)
  {
    ApplyOpsSnoc(Open(old_, 0), ops, Skip(|d|));
  }

  /** With its end message, and whatever stale bytes follow it, an overlay turns old into what it encodes. */
  lemma EncodedApplies(old_: Bytes, ops: seq<Op>, new_: Bytes, junk: seq<Op>)
    requires Encodes(old_, ops, new_)
    ensures ApplyOverlay(old_, ops + [End] + junk) == Some(new_)
  {
    PatchIgnoresTail(Open(old_, 0), ops, junk);
    var f := ApplyOps(Open(old_, 0), ops);
    assert f.data[..f.pos] == new_;
  }

  // ----- the writer

  /** The threshold + 1 bytes of d from a on are unchanged from old, where d is written at p. */
  ghost predicate LongRun(old_: Bytes, p: int, d: Bytes, threshold: nat, a: int) {
    && 0 <= a && a + threshold < |d| && 0 <= p && p + a + threshold < |old_|
    && forall t :: a <= t <= a + threshold ==> old_[p + t] == d[t]
  }

  lemma LongRunInSlice(old_: Bytes, p: int, buf: Bytes, lo: int, data: Bytes, threshold: nat, a: int)
    requires 0 <= lo && lo + |data| <= |buf| && data == buf[lo..lo + |data|]
    ensures LongRun(old_, p + lo, data, threshold, a) && p >= 0 ==> LongRun(old_, p, buf, threshold, lo + a)
  {
    if LongRun(old_, p + lo, data, threshold, a) && p >= 0 {
      forall t | lo + a <= t <= lo + a + threshold ensures old_[p + t] == buf[t] {
        assert old_[p + lo + (t - lo)] == data[t - lo];
      }
    }
  }

  ghost predicate NoLongRunIn(old_: Bytes, p: int, d: Bytes, threshold: nat) {
    forall a :: !LongRun(old_, p, d, threshold, a)
  }

  /**
   * Behind the header no fresh data is empty or holds more than threshold consecutive unchanged bytes, and every skip
   * is longer than the threshold.
   */
  ghost predicate AllCompact(old_: Bytes, ops: seq<Op>, threshold: nat) {
    ops != [] ==>
      var before, last := ops[..|ops| - 1], ops[|ops| - 1];
      AllCompact(old_, before, threshold) && CompactNext(old_, before, last, threshold)
  }

  predicate Counting(n: int) { true }

  /** The same, to be looked into only where Counting is named. */
  ghost predicate Compact(old_: Bytes, ops: seq<Op>, threshold: nat) {
    forall n :: Counting(n) && n == |ops| ==> AllCompact(old_, ops[..n], threshold)
  }

  ghost predicate CompactNext(old_: Bytes, before: seq<Op>, op: Op, threshold: nat) {
    if before == [] then op == HEADER
    else
      match op
      case Skip(n) => n > threshold
      case Fresh(d) => d != [] && NoLongRunIn(old_, ApplyOps(Open(old_, 0), before).pos, d, threshold)
      case End => false
  }

  lemma NoneCompact(old_: Bytes, threshold: nat)
    ensures Compact(old_, [], threshold)
  {
  }

  lemma CompactSnoc(old_: Bytes, ops: seq<Op>, head: Bytes, op: Op, threshold: nat)
    requires Compact(old_, ops, threshold) && Encodes(old_, ops, head)
    requires if ops == [] then op == HEADER else if op.Skip? then op.len > threshold
      else op.Fresh? && op.data != [] && NoLongRunIn(old_, |head|, op.data, threshold)
    ensures Compact(old_, ops + [op], threshold)
  {
    var more := ops + [op];
    assert Counting(|ops|) && ops[..|ops|] == ops;
    assert more[..|more|] == more && more[..|more| - 1] == ops;
  }

  /** A compact overlay with its end message. */
  ghost predicate Closed(old_: Bytes, ops: seq<Op>, threshold: nat) {
    ops != [] && ops[|ops| - 1] == End && Compact(old_, ops[..|ops| - 1], threshold)
  }

  /** Of two neighbours one is a skip and one is fresh; both may be fresh only where the old file ends. */
  ghost predicate NeatAt(old_: Bytes, ops: seq<Op>, k: nat)
    requires k + 1 < |ops|
  {
    ops[k].Skip? != ops[k + 1].Skip? || (ops[k].Fresh? && ApplyOps(Open(old_, 0), ops[..k + 1]).pos >= |old_|)
  }

  ghost predicate AllNeat(old_: Bytes, ops: seq<Op>, from: nat) {
    forall k :: from <= k < |ops| - 1 ==> NeatAt(old_, ops, k)
  }

  /** The operations from one on alternate; to be looked into only where Counting is named. */
  ghost predicate Neat(old_: Bytes, ops: seq<Op>, from: nat) {
    forall n: nat :: Counting(n) && n == from ==> AllNeat(old_, ops, n)
  }

  lemma NoneNeat(old_: Bytes, ops: seq<Op>)
    ensures Neat(old_, ops, |ops|)
  {
  }

  lemma NeatSnoc(old_: Bytes, ops: seq<Op>, head: Bytes, from: nat, op: Op)
    requires from <= |ops| && Neat(old_, ops, from) && Encodes(old_, ops, head)
    requires |ops| > from ==>
      ops[|ops| - 1].Skip? != op.Skip? || (ops[|ops| - 1].Fresh? && |head| >= |old_|)
    ensures Neat(old_, ops + [op], from)
  {
    var more := ops + [op];
    assert Counting(from);
    forall k | from <= k < |more| - 1 ensures NeatAt(old_, more, k) {
      assert more[..k + 1] == ops[..k + 1];
      if k < |ops| - 1 {
        assert NeatAt(old_, ops, k);
      } else {
        assert ops[..k + 1] == ops;
      }
    }
  }

  lemma SliceJoins(head: Bytes, buf: Bytes, lo: nat, hi: nat)
    requires lo <= hi <= |buf|
    ensures (head + buf[..lo]) + buf[lo..hi] == head + buf[..hi]
  {
    assert buf[..lo] + buf[lo..hi] == buf[..hi];
  }

  class OverlayWriter {
    /** The old file and how far its reader is. */
    const base: Bytes
    var readerPos: nat
    var readOffset: nat
    /** overlayBufSize and overlaySameThreshold: 128 KiB and 8 KiB in the code. */
    const bufSize: nat
    const threshold: nat
    var buffered: Bytes
    var messages: seq<Op>
    ghost var processed: Bytes

    /** Everything but the reader's position, which is ahead while a block is being encoded. */
    ghost predicate Consistent()
      reads this
    {
      && bufSize > 0 && |buffered| <= bufSize && messages != []
      && readOffset == |processed| && Encodes(base, messages, processed) && Compact(base, messages, threshold)
    }

    ghost predicate Valid()
      reads this
    {
      Consistent() && (readerPos == readOffset || (readerPos >= |base| && readOffset >= |base|))
    }

    /** A writer for a new overlay, which starts with the header. */
    constructor (base: Bytes, bufSize: nat, threshold: nat)
      requires bufSize > 0
      ensures Valid() && this.base == base && this.threshold == threshold && processed == [] && buffered == []
    {
      this.base, this.bufSize, this.threshold := base, bufSize, threshold;
      readerPos, readOffset, buffered, processed := 0, 0, [], [];
      messages := [HEADER];
      new;
      assert Encodes(base, [], []);
      SkipEncodes(base, [], [], []);
      NoneCompact(base, threshold);
      CompactSnoc(base, [], [], Skip(0), threshold);
      assert [] + [Skip(0)] == [HEADER];
    }

    /** A writer that goes on from a checkpoint: reader and overlay are seeked to the saved offsets. */
    constructor Resume(base: Bytes, bufSize: nat, threshold: nat, readOffset: nat, file: seq<Op>, overlayOffset: nat,
        ghost head: Bytes)
      requires bufSize > 0 && 0 < overlayOffset <= |file| && readOffset == |head|
      requires Encodes(base, file[..overlayOffset], head) && Compact(base, file[..overlayOffset], threshold)
      ensures Valid() && this.base == base && this.threshold == threshold && processed == head && buffered == []
        && messages == file[..overlayOffset]
    {
      this.base, this.bufSize, this.threshold := base, bufSize, threshold;
      readerPos, this.readOffset, buffered, processed := readOffset, readOffset, [], head;
      messages := file[..overlayOffset];
    }

    method WriteFresh(data: Bytes)
      requires Consistent() && data != [] && NoLongRunIn(base, |processed|, data, threshold)
      modifies this`messages, this`readOffset, this`processed
      ensures Consistent() && processed == old(processed) + data && messages == old(messages) + [Fresh(data)]
    {
      FreshEncodes(base, messages, processed, data);
      CompactSnoc(base, messages, processed, Fresh(data), threshold);
      messages := messages + [Fresh(data)];
      readOffset := readOffset + |data|;
      processed := processed + data;
    }

    method WriteSkip(n: nat, ghost data: Bytes)
      requires Consistent() && n == |data| > threshold && |processed| + n <= |base|
      requires forall i :: 0 <= i < n ==> base[|processed| + i] == data[i]
      modifies this`messages, this`readOffset, this`processed
      ensures Consistent() && processed == old(processed) + data && messages == old(messages) + [Skip(n)]
    {
      SkipEncodes(base, messages, processed, data);
      CompactSnoc(base, messages, processed, Skip(n), threshold);
      messages := messages + [Skip(n)];
      readOffset := readOffset + n;
      processed := processed + data;
    }

    /** Byte t of rbuf and buf agree. */
    ghost predicate Agree(rbuf: Bytes, buf: Bytes, lo: int, hi: int) {
      0 <= lo <= hi <= |rbuf| <= |buf| && forall t :: lo <= t < hi ==> rbuf[t] == buf[t]
    }

    /** rbuf is what the old file has behind head, as far as it goes. */
    ghost predicate IsTail(rbuf: Bytes, head: Bytes) {
      && (rbuf != [] ==> |head| + |rbuf| <= |base|)
      && forall i :: 0 <= i < |rbuf| ==> rbuf[i] == base[|head| + i]
    }

    /** No long unchanged run lies in [lo, hi). */
    ghost predicate NoLongRun(buf: Bytes, head: Bytes, lo: int, hi: int) {
      forall a :: lo <= a && a + threshold < hi ==> !LongRun(base, |head|, buf, threshold, a)
    }

    /** The messages of the block so far, from from on, alternate. */
    ghost predicate Neatly(from: nat)
      reads `messages
    {
      from <= |messages| && Neat(base, messages, from)
    }

    ghost predicate LastIsFresh(from: nat)
      reads `messages
    {
      from < |messages| && messages[|messages| - 1].Fresh?
    }

    ghost predicate LastIsSkip(from: nat)
      reads `messages
    {
      from < |messages| && messages[|messages| - 1].Skip?
    }

    lemma NoLongRunInSlice(buf: Bytes, lo: int, hi: int, head: Bytes)
      requires 0 <= lo < hi <= |buf| && NoLongRun(buf, head, lo, hi)
      ensures NoLongRunIn(base, |head| + lo, buf[lo..hi], threshold)
    {
      var p, data := |head| + lo, buf[lo..hi];
      forall a ensures !LongRun(base, p, data, threshold, a) {
        LongRunInSlice(base, |head|, buf, lo, data, threshold, a);
      }
    }

    /** The fresh bytes [lo, hi) of the block. */
    method FreshPart(buf: Bytes, lo: int, hi: int, ghost head: Bytes, ghost from: nat)
      requires Consistent() && 0 <= lo < hi <= |buf| && processed == head + buf[..lo]
      requires NoLongRun(buf, head, lo, hi) && Neatly(from)
      requires |messages| > from ==> LastIsSkip(from) || (LastIsFresh(from) && |head| + lo >= |base|)
      modifies this`messages, this`readOffset, this`processed
      ensures Consistent() && processed == head + buf[..hi] && Neatly(from) && LastIsFresh(from)
      ensures old(messages) <= messages
    {
      var data := buf[lo..hi];
      NoLongRunInSlice(buf, lo, hi, head);
      NeatSnoc(base, messages, processed, from, Fresh(data));
      WriteFresh(data);
      SliceJoins(head, buf, lo, hi);
    }

    /** The skip over [lo, hi), which the old file has too. */
    method SkipPart(rbuf: Bytes, buf: Bytes, lo: int, hi: int, ghost head: Bytes, ghost from: nat)
      requires Consistent() && 0 <= lo && lo + threshold < hi && Neatly(from)
        && (|messages| > from ==> LastIsFresh(from))
      requires Agree(rbuf, buf, lo, hi) && IsTail(rbuf, head)
        && processed == head + buf[..lo]
      modifies this`messages, this`readOffset, this`processed
      ensures Consistent() && processed == head + buf[..hi] && Neatly(from) && LastIsSkip(from)
      ensures old(messages) <= messages
    {
      ghost var streak := buf[lo..hi];
      forall t | 0 <= t < hi - lo ensures base[|processed| + t] == streak[t] {
        assert streak[t] == rbuf[lo + t] == base[|head| + (lo + t)];
      }
      NeatSnoc(base, messages, processed, from, Skip(hi - lo));
      WriteSkip(hi - lo, streak);
      SliceJoins(head, buf, lo, hi);
    }

    /** commit: what is fresh before the streak of equal bytes that ends at i, then the streak as a skip. */
    method Commit(rbuf: Bytes, buf: Bytes, i: int, same: int, lastOp: int, ghost head: Bytes, ghost from: nat)
      requires Consistent() && 0 <= lastOp <= i - same && threshold < same && Agree(rbuf, buf, i - same, i)
      requires processed == head + buf[..lastOp] && IsTail(rbuf, head) && NoLongRun(buf, head, lastOp, i - same)
      requires Neatly(from) && (|messages| > from ==> LastIsSkip(from) && lastOp < i - same)
      modifies this`messages, this`readOffset, this`processed
      ensures Consistent() && processed == head + buf[..i] && Neatly(from) && LastIsSkip(from)
      ensures old(messages) <= messages
    {
      if i - same - lastOp > 0 {
        FreshPart(buf, lastOp, i - same, head, from);
      }
      SkipPart(rbuf, buf, i - same, i, head, from);
    }

    /**
     * What the loop knows at i: the streak of equal bytes that ends there, and no other
     * long unchanged run since lastOp.
     */
    ghost predicate Streak(rbuf: Bytes, buf: Bytes, head: Bytes, lastOp: int, same: int, i: int) {
      && 0 <= same && 0 <= lastOp <= i - same && Agree(rbuf, buf, i - same, i)
      && (i - same > lastOp ==> rbuf[i - same - 1] != buf[i - same - 1])
      && forall a :: lastOp <= a && a + threshold < i && LongRun(base, |head|, buf, threshold, a) ==> a >= i - same
    }

    lemma StreakGrows(rbuf: Bytes, buf: Bytes, head: Bytes, lastOp: int, same: int, i: int)
      requires Streak(rbuf, buf, head, lastOp, same, i) && i < |rbuf| && rbuf[i] == buf[i] && IsTail(rbuf, head)
      ensures Streak(rbuf, buf, head, lastOp, same + 1, i + 1)
    {
      if i - same > lastOp {
        assert rbuf[i - same - 1] == base[|head| + (i - same - 1)];
      }
    }

    lemma StreakBreaks(rbuf: Bytes, buf: Bytes, head: Bytes, lastOp: int, same: int, i: int)
      requires Streak(rbuf, buf, head, lastOp, same, i) && i < |rbuf| && rbuf[i] != buf[i] && IsTail(rbuf, head)
      ensures same <= threshold ==> Streak(rbuf, buf, head, lastOp, 0, i + 1)
      ensures Streak(rbuf, buf, head, i, 0, i + 1)
      ensures NoLongRun(buf, head, lastOp, i - same)
    {
      assert rbuf[i] == base[|head| + i];
    }

    /** write: compare one block with its counterpart in the old file and encode it. */
    method EncodeBlock(block: Bytes) returns (n: int)
      requires Valid() && block != []
      modifies this`messages, this`readOffset, this`readerPos, this`processed
      ensures Valid() && n == (if |block| > bufSize then bufSize else |block|)
        && processed == old(processed) + block[..n]
      ensures old(messages) <= messages && Neat(base, messages, old(|messages|))
    {
      n := if |block| > bufSize then bufSize else |block|;
      var buf := block[..n];
      ghost var head := processed;
      var rbuf := ReadAt(base, readerPos, n);
      readerPos := readerPos + |rbuf|;
      ghost var before := messages;
      var lastOp, same := EncodeCommon(rbuf, buf, head, |before|);
      FinishBlock(rbuf, buf, same, lastOp, head, |before|);
    }

    /** What the comparison loop knows at i. */
    ghost predicate Comparing(rbuf: Bytes, buf: Bytes, head: Bytes, lastOp: int, same: int, i: int, from: nat)
      reads this
    {
      && Consistent() && Streak(rbuf, buf, head, lastOp, same, i) && processed == head + buf[..lastOp]
      && Neatly(from) && (|messages| > from ==> LastIsSkip(from) && lastOp < i - same)
    }

    /** The comparison loop over the bytes both files have. */
    method EncodeCommon(rbuf: Bytes, buf: Bytes, ghost head: Bytes, ghost from: nat) returns (lastOp: int, same: int)
      requires Consistent() && IsTail(rbuf, head) && |rbuf| <= |buf| && processed == head && from == |messages|
      modifies this`messages, this`readOffset, this`processed
      ensures Comparing(rbuf, buf, head, lastOp, same, |rbuf|, from) && old(messages) <= messages
    {
      lastOp, same := 0, 0;
      var i := 0;
      StartsComparing(rbuf, buf, head, from);
      while i < |rbuf|
        invariant 0 <= i <= |rbuf| && Comparing(rbuf, buf, head, lastOp, same, i, from) && old(messages) <= messages
      {
        lastOp, same := CompareByte(rbuf, buf, i, lastOp, same, head, from);
        i := i + 1;
      }
      assert i == |rbuf|;
    }

    lemma StartsComparing(rbuf: Bytes, buf: Bytes, head: Bytes, from: nat)
      requires Consistent() && |rbuf| <= |buf| && processed == head && from == |messages|
      ensures Comparing(rbuf, buf, head, 0, 0, 0, from)
    {
      NoneNeat(base, messages);
      assert head + buf[..0] == head;
    }

    /** One turn: the streak grows or breaks, and a long one is committed. */
    method CompareByte(rbuf: Bytes, buf: Bytes, i: int, lastOp0: int, same0: int, ghost head: Bytes, ghost from: nat)
      returns (lastOp: int, same: int)
      requires 0 <= i < |rbuf| <= |buf| && IsTail(rbuf, head) && Comparing(rbuf, buf, head, lastOp0, same0, i, from)
      modifies this`messages, this`readOffset, this`processed
      ensures Comparing(rbuf, buf, head, lastOp, same, i + 1, from) && old(messages) <= messages
    {
      lastOp, same := lastOp0, same0;
      if rbuf[i] == buf[i] {
        StreakGrows(rbuf, buf, head, lastOp, same, i);
        same := same + 1;
      } else {
        StreakBreaks(rbuf, buf, head, lastOp, same, i);
        if same > threshold {
          Commit(rbuf, buf, i, same, lastOp, head, from);
          lastOp := i;
        }
        same := 0;
      }
    }

    /** After the comparison: a last streak, what is fresh behind it, and what lies beyond the old file. */
    method FinishBlock(rbuf: Bytes, buf: Bytes, same: int, lastOp0: int, ghost head: Bytes, ghost from: nat)
      requires IsTail(rbuf, head) && Comparing(rbuf, buf, head, lastOp0, same, |rbuf|, from)
      requires |rbuf| < |buf| ==> |head| + |rbuf| >= |base|
      modifies this`messages, this`readOffset, this`processed
      ensures Consistent() && processed == head + buf && old(messages) <= messages && Neatly(from)
    {
      var lastOp := lastOp0;
      if same > threshold {
        Commit(rbuf, buf, |rbuf|, same, lastOp, head, from);
        lastOp := |rbuf|;
      }
      if lastOp < |rbuf| {
        FreshPart(buf, lastOp, |rbuf|, head, from);
      }
      if |rbuf| < |buf| {
        FreshPart(buf, |rbuf|, |buf|, head, from);
      }
      assert buf[..|buf|] == buf;
    }

    /**
     * The processor's Write compares what is written with what is left, so it takes everything exactly when that
     * fits one buffer, and stops early otherwise; it reports how far it got.
     */
    method ProcessorWrite(data: Bytes) returns (written: int)
      requires Valid()
      modifies this`messages, this`readOffset, this`readerPos, this`processed
      ensures Valid() && 0 <= written <= |data| && processed == old(processed) + data[..written]
      ensures old(messages) <= messages
      ensures data != [] ==> written > 0
      ensures written == |data| <==> |data| <= bufSize
    {
      written := 0;
      var rest := data;
      assert old(processed) + data[..0] == processed;
      while written < |rest|
        invariant Valid() && 0 <= written <= |data| && rest == data[written..]
          && processed == old(processed) + data[..written]
        invariant (written == 0 || written >= Min(bufSize, |data|)) && old(messages) <= messages
        invariant |data| > bufSize ==> rest != [] && (written < |rest| ==> |rest| > bufSize)
        decreases |rest|
      {
        var n := EncodeBlock(rest);
        assert data[..written] + rest[..n] == data[..written + n];
        written := written + n;
        rest := rest[n..];
      }
    }

    method Flush()
      requires Valid()
      modifies this
      ensures Valid() && buffered == [] && processed == old(processed) + old(buffered) && old(messages) <= messages
    {
      if buffered != [] {
        var n := ProcessorWrite(buffered);
        assert buffered[..n] == buffered;
      }
      assert buffered == [] ==> processed == old(processed) + old(buffered);
      buffered := [];
    }

    /**
     * bufio.Writer's Write: what does not fit goes straight to the processor, and what that left over is written again.
     */
    method Write(data: Bytes)
      requires Valid()
      modifies this
      ensures Valid() && processed + buffered == old(processed) + old(buffered) + data && old(messages) <= messages
    {
      var rest := data;
      ghost var target := processed + buffered + data;
      while |rest| > bufSize - |buffered|
        invariant Valid() && processed + buffered + rest == target && old(messages) <= messages
        decreases |rest| + |buffered|, |rest|
      {
        rest := WriteSome(rest);
      }
      assert processed + (buffered + rest) == target;
      buffered := buffered + rest;
    }

    /** One turn of that loop. */
    method WriteSome(data: Bytes) returns (rest: Bytes)
      requires Valid() && |data| > bufSize - |buffered|
      modifies this
      ensures Valid() && processed + buffered + rest == old(processed) + old(buffered) + data
        && old(messages) <= messages
      ensures |rest| + |buffered| < |data| + old(|buffered|)
    {
      if buffered == [] {
        var n := ProcessorWrite(data);
        rest := data[n..];
        assert old(processed) + [] + data == (old(processed) + data[..n]) + [] + rest;
      } else {
        var n := bufSize - |buffered|;
        ghost var before := processed + buffered;
        buffered := buffered + data[..n];
        rest := data[n..];
        ghost var full := buffered;
        Flush();
        assert processed + [] + rest == before + data;
      }
    }

    /**
     * Finalize: flush, then the end message. Whatever stale messages follow in the file, applying it to the old file
     * gives all that was written.
     */
    method Finalize()
      requires Valid()
      modifies this
      ensures processed == old(processed) + old(buffered) && buffered == [] && old(messages) <= messages
      ensures forall junk :: ApplyOverlay(base, messages + junk) == Some(processed)
      ensures Closed(base, messages, threshold)
    {
      Flush();
      forall junk ensures ApplyOverlay(base, messages + [End] + junk) == Some(processed) {
        EncodedApplies(base, messages, processed, junk);
      }
      messages := messages + [End];
    }
  }
}
