/** bsdiff control messages: how the differ writes them and how the patcher applies them. */
module BsdiffPatch {
  import opened Common
  import opened BsdiffScan
  import LruFile

  datatype Control = Control(add: Bytes, copy: Bytes, seek: int, eof: bool)

  const END_CONTROL := Control([], [], 0, true)

  // ----- byte arithmetic

  function Plus(a: byte, b: byte): byte { (a + b) % 256 }

  function Minus(a: byte, b: byte): byte { (a - b) % 256 }

  function Sum(x: Bytes, y: Bytes): (r: Bytes)
    requires |x| == |y|
    ensures |r| == |x|
  {
    seq(|x|, i requires 0 <= i < |x| => Plus(x[i], y[i]))
  }

  function Difference(x: Bytes, y: Bytes): (r: Bytes)
    requires |x| == |y|
    ensures |r| == |x|
  {
    seq(|x|, i requires 0 <= i < |x| => Minus(x[i], y[i]))
  }

  lemma PlusMinus(a: byte, b: byte)
    ensures Plus(Minus(a, b), b) == a
  {
  }

  lemma SumDifference(x: Bytes, y: Bytes)
    requires |x| == |y|
    ensures Sum(Difference(x, y), y) == x
  {
    forall i | 0 <= i < |x| ensures Sum(Difference(x, y), y)[i] == x[i] {
      PlusMinus(x[i], y[i]);
    }
  }

  // ----- what applying means

  datatype Applied = Applied(piece: Bytes, next: int)

  /** One control message at oldOffset: the bytes it produces and the next old offset; None when it is corrupt. */
  function ApplyControl(old_: Bytes, oldOffset: int, ctrl: Control): Option<Applied> {
    if !(0 <= oldOffset <= |old_|) || (ctrl.add != [] && oldOffset + |ctrl.add| > |old_|) then None
    else Some(Applied(Sum(ctrl.add, old_[oldOffset..oldOffset + |ctrl.add|]) + ctrl.copy,
      oldOffset + |ctrl.add| + ctrl.seek))
  }

  function Prepend(piece: Bytes, rest: Option<Bytes>): Option<Bytes> {
    if rest.None? then None else Some(piece + rest.value)
  }

  /** A whole stream up to its end message. */
  function RunPatch(old_: Bytes, oldOffset: int, msgs: seq<Control>): Option<Bytes>
    decreases |msgs|
  {
    if msgs == [] then None
    else if msgs[0].eof then Some([])
    else
      var applied := ApplyControl(old_, oldOffset, msgs[0]);
      if applied.None? then None else Prepend(applied.value.piece, RunPatch(old_, applied.value.next, msgs[1..]))
  }

  /** A stream that ends where its messages end. */
  predicate OnlyLastEof(msgs: seq<Control>) {
    msgs != [] && forall k :: 0 <= k < |msgs| ==> (msgs[k].eof <==> k == |msgs| - 1)
  }

  // ----- writing

  ghost predicate CanWrite(old_: Bytes, new_: Bytes, m: Match) {
    && InOld(m, |old_|)
    && 0 <= m.addNewStart && m.addNewStart + m.addLength <= m.copyEnd <= |new_|
  }

  function AddOf(old_: Bytes, new_: Bytes, m: Match): Bytes
    requires CanWrite(old_, new_, m)
  {
    Difference(new_[m.addNewStart..m.addNewStart + m.addLength], old_[m.addOldStart..m.addOldStart + m.addLength])
  }

  /** The seek after match k leads from the end of its add region to the start of the next one, wherever that is. */
  function SeekAfter(ms: seq<Match>, k: int): int
    requires 0 <= k < |ms|
  {
    if k + 1 < |ms| then ms[k + 1].addOldStart - (ms[k].addOldStart + ms[k].addLength) else 0
  }

  function MessageFor(old_: Bytes, new_: Bytes, ms: seq<Match>, k: int): Control
    requires 0 <= k < |ms| && CanWrite(old_, new_, ms[k])
  {
    Control(AddOf(old_, new_, ms[k]), new_[ms[k].addNewStart + ms[k].addLength..ms[k].copyEnd], SeekAfter(ms, k), false)
  }

  ghost predicate Encodes(old_: Bytes, new_: Bytes, ms: seq<Match>, msgs: seq<Control>) {
    && |msgs| == |ms| + 1 && msgs[|ms|] == END_CONTROL
    && (forall k {:trigger EncodesAt(old_, new_, ms, msgs, k)} :: 0 <= k < |ms| ==> EncodesAt(old_, new_, ms, msgs, k))
  }

  ghost predicate EncodesAt(old_: Bytes, new_: Bytes, ms: seq<Match>, msgs: seq<Control>, k: int)
    requires 0 <= k < |ms| && k < |msgs|
  {
    CanWrite(old_, new_, ms[k]) && msgs[k] == MessageFor(old_, new_, ms, k)
  }

  method WriteMessages(old_: Bytes, new_: Bytes, ms: seq<Match>) returns (msgs: seq<Control>)
    requires ms != [] && forall k :: 0 <= k < |ms| ==> CanWrite(old_, new_, ms[k])
    ensures Encodes(old_, new_, ms, msgs)
  {
    msgs := [];
    var bsdc := Control([], [], 0, false);
    var i := 0;
    while i < |ms|
      invariant 0 <= i <= |ms| && |msgs| == if i == 0 then 0 else i - 1
      invariant forall k :: 0 <= k < |msgs| ==> EncodesAt(old_, new_, ms, msgs, k)
      invariant !bsdc.eof && (i > 0 ==> bsdc.(seek := SeekAfter(ms, i - 1)) == MessageFor(old_, new_, ms, i - 1))
    {
      var m := ms[i];
      if i > 0 {
        bsdc := bsdc.(seek := m.addOldStart - (ms[i - 1].addOldStart + ms[i - 1].addLength));
        ghost var before := msgs;
        msgs := msgs + [bsdc];
        assert forall k :: 0 <= k < |before| ==>
          EncodesAt(old_, new_, ms, before, k) == EncodesAt(old_, new_, ms, msgs, k);
      }
      var db := WriteAdd(old_, new_, m);
      bsdc := bsdc.(add := db, copy := new_[m.addNewStart + m.addLength..m.copyEnd]);
      i := i + 1;
    }
    bsdc := bsdc.(seek := 0);
    ghost var before := msgs;
    msgs := msgs + [bsdc];
    msgs := msgs + [END_CONTROL];
    assert forall k :: 0 <= k < |before| ==> EncodesAt(old_, new_, ms, before, k) == EncodesAt(old_, new_, ms, msgs, k);
  }

  method WriteAdd(old_: Bytes, new_: Bytes, m: Match) returns (db: Bytes)
    requires CanWrite(old_, new_, m)
    ensures db == AddOf(old_, new_, m)
  {
    db := [];
    for i := 0 to m.addLength
      invariant db == AddOf(old_, new_, m)[..i]
    {
      db := db + [Minus(new_[m.addNewStart + i], old_[m.addOldStart + i])];
    }
  }

  /**
   * Applying message k at its match's old start gives that match's share of the new file
   * and leads to the next old start.
   */
  lemma MessageRebuilds(old_: Bytes, new_: Bytes, ms: seq<Match>, k: int)
    requires 0 <= k < |ms| && CanWrite(old_, new_, ms[k])
    ensures ApplyControl(old_, ms[k].addOldStart, MessageFor(old_, new_, ms, k)) ==
      Some(Applied(new_[ms[k].addNewStart..ms[k].copyEnd], ms[k].addOldStart + ms[k].addLength + SeekAfter(ms, k)))
  {
    var m := ms[k];
    var share, taken := new_[m.addNewStart..m.addNewStart + m.addLength],
      old_[m.addOldStart..m.addOldStart + m.addLength];
    SumDifference(share, taken);
    assert MessageFor(old_, new_, ms, k).add == Difference(share, taken);
    assert share + new_[m.addNewStart + m.addLength..m.copyEnd] == new_[m.addNewStart..m.copyEnd];
  }

  lemma MessageThenRest(old_: Bytes, new_: Bytes, ms: seq<Match>, k: int, rest: seq<Control>, tail: Bytes)
    requires 0 <= k < |ms| && CanWrite(old_, new_, ms[k])
    requires RunPatch(old_, ms[k].addOldStart + ms[k].addLength + SeekAfter(ms, k), rest) == Some(tail)
    ensures RunPatch(old_, ms[k].addOldStart, [MessageFor(old_, new_, ms, k)] + rest) ==
      Some(new_[ms[k].addNewStart..ms[k].copyEnd] + tail)
  {
    MessageRebuilds(old_, new_, ms, k);
    RunPatchStep(old_, ms[k].addOldStart, MessageFor(old_, new_, ms, k), rest);
  }

  /** The stream from message k on, started at that match's old offset, rebuilds the new file from that match on. */
  lemma {:induction false} StreamRebuilds(old_: Bytes, new_: Bytes, ms: seq<Match>, msgs: seq<Control>, k: int)
    requires Encodes(old_, new_, ms, msgs) && Tiles(ms, |old_|, 0, |new_|) && 0 <= k < |ms|
    ensures 0 <= ms[k].addNewStart <= |new_|
    ensures RunPatch(old_, ms[k].addOldStart, msgs[k..]) == Some(new_[ms[k].addNewStart..])
    decreases |ms| - k
  {
    var m := ms[k];
    assert EncodesAt(old_, new_, ms, msgs, k);
    var tail := new_[m.copyEnd..];
    if k + 1 < |ms| {
      StreamRebuilds(old_, new_, ms, msgs, k + 1);
      assert TileAt(ms, 0, k + 1);
      assert SeekAfter(ms, k) == ms[k + 1].addOldStart - (m.addOldStart + m.addLength);
    } else {
      assert tail == [];
      assert msgs[k + 1..] == [END_CONTROL];
    }
    assert RunPatch(old_, m.addOldStart + m.addLength + SeekAfter(ms, k), msgs[k + 1..]) == Some(tail);
    MessageThenRest(old_, new_, ms, k, msgs[k + 1..], tail);
    assert [msgs[k]] + msgs[k + 1..] == msgs[k..];
    assert new_[m.addNewStart..m.copyEnd] + tail == new_[m.addNewStart..];
  }

  lemma RunPatchStep(old_: Bytes, oldOffset: int, msg: Control, rest: seq<Control>)
    requires !msg.eof
    ensures var applied := ApplyControl(old_, oldOffset, msg);
      RunPatch(old_, oldOffset, [msg] + rest) ==
      if applied.None? then None else Prepend(applied.value.piece, RunPatch(old_, applied.value.next, rest))
  {
    assert ([msg] + rest)[1..] == rest;
  }

  lemma {:induction false} TilesCanWrite(old_: Bytes, new_: Bytes, ms: seq<Match>, start: int, k: int)
    requires Tiles(ms, |old_|, start, |new_|) && 0 <= k < |ms| && start >= 0
    ensures start <= ms[k].addNewStart && CanWrite(old_, new_, ms[k])
  {
    TilesOrdered(old_, ms, start, k);
    TilesBelow(old_, ms, start, |new_|, k);
    assert TileAt(ms, start, k);
  }

  lemma {:induction false} TilesOrdered(old_: Bytes, ms: seq<Match>, start: int, k: int)
    requires 0 <= k < |ms| && forall j :: 0 <= j < |ms| ==> TileAt(ms, start, j) && InOld(ms[j], |old_|)
    ensures start <= ms[k].addNewStart <= ms[k].copyEnd
  {
    assert TileAt(ms, start, k);
    if k > 0 {
      TilesOrdered(old_, ms, start, k - 1);
    }
  }

  lemma {:induction false} TilesBelow(old_: Bytes, ms: seq<Match>, start: int, end: int, k: int)
    requires Tiles(ms, |old_|, start, end) && 0 <= k < |ms|
    ensures ms[k].copyEnd <= end
    decreases |ms| - k
  {
    if k + 1 < |ms| {
      assert TileAt(ms, start, k + 1) && InOld(ms[k + 1], |old_|);
      TilesBelow(old_, ms, start, end, k + 1);
    } else {
      assert TileEnd(ms, start) == ms[k].copyEnd;
    }
  }

  // ----- the patcher

  /** Adds its buffer to what it reads. A short read at end of file hands its bytes through unadded. */
  class AdderReader {
    const buffer: Bytes
    const reader: LruFile.File
    var offset: nat

    constructor (buffer: Bytes, reader: LruFile.File)
      ensures this.buffer == buffer && this.reader == reader && offset == 0
    {
      this.buffer, this.reader, offset := buffer, reader, 0;
    }

    method Read(p: array<byte>) returns (n: int, eof: bool)
      requires reader.Valid() && p != reader.storage && p as object != reader.allocations
      requires offset + p.Length <= |buffer|
      modifies this, reader, reader.storage, reader.allocations, p
      ensures reader.Valid() && reader.contents == old(reader.contents)
      ensures n == Min(p.Length, |reader.contents| - old(reader.offset)) && reader.offset == old(reader.offset) + n
      ensures eof == (n < p.Length)
      ensures var piece := reader.contents[old(reader.offset)..reader.offset];
        p[..n] == if eof then piece else Sum(buffer[old(offset)..old(offset) + n], piece)
      ensures offset == old(offset) + if eof then 0 else n
    {
      n, eof := reader.Read(p);
      ghost var piece := p[..n];
      if eof {
        return;
      }
      AddInto(p, n, buffer[offset..offset + n]);
      offset := offset + n;
    }
  }

  method AddInto(p: array<byte>, n: int, b: Bytes)
    requires 0 <= n == |b| <= p.Length
    modifies p
    ensures p[..n] == Sum(b, old(p[..n]))
  {
    for i := 0 to n
      invariant forall k :: 0 <= k < i ==> p[k] == Plus(b[k], old(p[..n])[k])
      invariant forall k :: i <= k < n ==> p[k] == old(p[k])
    {
      p[i] := Plus(p[i], b[i]);
    }
  }

  class PatchContext {
    const buffer: array<byte>
    const lf: LruFile.File
    var oldOffset: int
    var out: Bytes

    ghost predicate Ready()
      reads this, lf, lf.storage, lf.allocations
    {
      && lf.Shape() && buffer.Length > 0 && buffer != lf.storage && buffer as object != lf.allocations
    }

    ghost predicate Valid()
      reads this, lf, lf.storage, lf.allocations
    {
      Ready() && lf.Valid()
    }

    constructor (bufferSize: nat, lf: LruFile.File)
      requires bufferSize > 0 && lf.Shape()
      ensures Ready() && this.lf == lf && fresh(buffer)
    {
      buffer := new byte[bufferSize];
      this.lf, oldOffset, out := lf, 0, [];
    }

    method NewIndividualPatchContext(old_: Bytes, oldOffset: int)
      requires Ready()
      modifies this, lf, lf.allocations
      ensures Valid() && lf.contents == old_ && this.oldOffset == oldOffset && out == []
    {
      lf.Reset(old_);
      this.oldOffset, out := oldOffset, [];
    }

    /** io.CopyBuffer over a reader limited to the add bytes: what the old file has too little of is not copied. */
    method CopyAdd(add: Bytes) returns (copied: int)
      requires Valid()
      modifies this`out, buffer, lf, lf.storage, lf.allocations
      ensures Valid() && lf.contents == old(lf.contents) && old(out) <= out && copied <= |add|
      ensures copied == |add| <==> old(lf.offset) + |add| <= |lf.contents|
      ensures copied == |add| ==> out == old(out) + Sum(add, lf.contents[old(lf.offset)..old(lf.offset) + |add|])
    {
      var ar := new AdderReader(add, lf);
      copied := 0;
      var eof := false;
      while !eof && copied < |add|
        invariant Valid() && lf.contents == old(lf.contents) && 0 <= copied <= |add| && ar.reader == lf
          && ar.buffer == add
        invariant old(out) <= out && lf.offset == old(lf.offset) + copied
        invariant !eof ==>
          ar.offset == copied && out == old(out) + Sum(add[..copied], lf.contents[old(lf.offset)..lf.offset])
        invariant eof ==> copied < |add| && lf.offset == |lf.contents|
        decreases !eof, |add| - copied
      {
        var n;
        n, eof := CopyOnce(ar, |add| - copied);
        copied := copied + n;
      }
    }

    /** One turn: read into the buffer at most what is still wanted and write it out. */
    method CopyOnce(ar: AdderReader, want: int) returns (n: int, eof: bool)
      requires Valid() && ar.reader == lf && want > 0 && ar.offset + want == |ar.buffer|
      modifies this`out, ar, buffer, lf, lf.storage, lf.allocations
      ensures Valid() && lf.contents == old(lf.contents)
      ensures 0 <= n <= want && lf.offset == old(lf.offset) + n && old(out) <= out
      ensures if eof then n < want && lf.offset == |lf.contents| else n > 0 && ar.offset == old(ar.offset) + n
      ensures !eof ==> out == old(out) + Sum(ar.buffer[old(ar.offset)..ar.offset],
        lf.contents[old(lf.offset)..lf.offset])
    {
      if want < buffer.Length {
        var limited := new byte[want];
        n, eof := ar.Read(limited);
        out := out + limited[..n];
      } else {
        n, eof := ar.Read(buffer);
        out := out + buffer[..n];
      }
    }

    /** Apply one control message. On a corrupt one (seek outside the old file, or add past its end) it fails. */
    method Apply(ctrl: Control) returns (ok: bool)
      requires Valid()
      modifies this`out, this`oldOffset, buffer, lf, lf.storage, lf.allocations
      ensures Valid() && lf.contents == old(lf.contents) && old(out) <= out
      ensures ok == ApplyControl(lf.contents, old(oldOffset), ctrl).Some?
      ensures ok ==>
        var applied := ApplyControl(lf.contents, old(oldOffset), ctrl).value;
        out == old(out) + applied.piece && oldOffset == applied.next
    {
      ok := lf.Seek(oldOffset, LruFile.SEEK_START);
      if !ok {
        return;
      }
      ghost var piece := [];
      if |ctrl.add| > 0 {
        var copied := CopyAdd(ctrl.add);
        if copied != |ctrl.add| {
          return false;
        }
        piece := Sum(ctrl.add, lf.contents[oldOffset..oldOffset + |ctrl.add|]);
        oldOffset := oldOffset + |ctrl.add|;
      }
      assert old(out) + piece == out;
      if |ctrl.copy| > 0 {
        out := out + ctrl.copy;
      }
      oldOffset := oldOffset + ctrl.seek;
      assert out == old(out) + (piece + ctrl.copy);
    }

    /**
     * Patch succeeds exactly when the stream is intact and gives newSize bytes, and then it
     * gives the bytes the stream means.
     */
    method Patch(old_: Bytes, msgs: seq<Control>, newSize: int) returns (ok: bool)
      requires Ready()
      modifies this, buffer, lf, lf.storage, lf.allocations
      ensures Valid()
      ensures var r := RunPatch(old_, 0, msgs); ok == (r.Some? && |r.value| == newSize) && (ok ==> out == r.value)
    {
      NewIndividualPatchContext(old_, 0);
      var i := 0;
      assert msgs[0..] == msgs && forall rest: Bytes :: [] + rest == rest;
      while i < |msgs| && !msgs[i].eof
        invariant Valid() && lf.contents == old_ && 0 <= i <= |msgs|
        invariant Prepend(out, RunPatch(old_, oldOffset, msgs[i..])) == RunPatch(old_, 0, msgs)
      {
        RunPatchStep(old_, oldOffset, msgs[i], msgs[i + 1..]);
        assert [msgs[i]] + msgs[i + 1..] == msgs[i..];
        ghost var outBefore, offsetBefore := out, oldOffset;
        ok := Apply(msgs[i]);
        if !ok {
          return;
        }
        PrependTwice(outBefore, ApplyControl(old_, offsetBefore, msgs[i]).value.piece,
          RunPatch(old_, oldOffset, msgs[i + 1..]));
        i := i + 1;
      }
      ok := i < |msgs| && |out| == newSize;
      assert i < |msgs| ==> RunPatch(old_, oldOffset, msgs[i..]) == Some([]);
      assert out + [] == out;
    }
  }

  lemma PrependTwice(a: Bytes, b: Bytes, rest: Option<Bytes>)
    ensures Prepend(a, Prepend(b, rest)) == Prepend(a + b, rest)
  {
    if rest.Some? {
      assert a + (b + rest.value) == (a + b) + rest.value;
    }
  }
}
