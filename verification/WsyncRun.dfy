/** The sliding-window loop of ComputeDiff over its wrapping buffer. */
module WsyncRun {
  import opened Common
  import opened RollingHash
  import opened WsyncOps
  import opened WsyncDiff
  import opened WsyncRest
  import opened WsyncWindow
  import opened WsyncGreedy

  // ----- the last window

  /** The last operation is data of this length. */
  ghost predicate LastData(out: Out, length: int) {
    out.prev.None? && out.sent != [] && out.sent[|out.sent| - 1].Data? && |out.sent[|out.sent| - 1].data| == length
  }

  /**
   * After the last window: all data operations but the last are bounded and non-empty, and an empty last one is alone.
   */
  ghost predicate FinalTidy(sent: seq<Operation>, maxData: nat, size: int) {
    && (forall i :: 0 <= i < |sent| - 1 && sent[i].Data? ==> 0 < |sent[i].data| <= maxData)
    && (sent != [] && sent[|sent| - 1].Data? ==>
      |sent[|sent| - 1].data| < maxData + 2 * size && (sent[|sent| - 1].data == [] ==> |sent| == 1))
  }

  lemma RestIsTidy(out: Out, data: Bytes, maxData: nat, size: int)
    requires size > 0 && Tidy(out.sent, maxData) && |data| < maxData + 2 * size
      && (out.prev.Some? ==> out.prev.value.BlockRange?)
    ensures FinalTidy(Enqueued(out, Data(data)).sent, maxData, size) && Enqueued(out, Data(data)).sent != []
  {
  }

  // ----- the buffer

  method MoveToFront(buffer: array<byte>, lo: int, hi: int)
    requires 0 <= lo <= hi <= buffer.Length
    modifies buffer
    ensures forall i :: 0 <= i < hi - lo ==> buffer[i] == old(buffer[lo + i])
  {
    forall i | 0 <= i < hi - lo {
      buffer[i] := buffer[lo + i];
    }
  }

  method Fill(buffer: array<byte>, at: int, source: Bytes, lo: int, n: int)
    requires 0 <= at && 0 <= n && at + n <= buffer.Length && 0 <= lo && lo + n <= |source|
    modifies buffer
    ensures forall i :: 0 <= i < at ==> buffer[i] == old(buffer[i])
    ensures forall i :: at <= i < at + n ==> buffer[i] == source[lo + i - at]
  {
    forall i | at <= i < at + n {
      buffer[i] := source[lo + i - at];
    }
  }

  method Extract(buffer: array<byte>, lo: int, hi: int) returns (piece: Bytes)
    requires 0 <= lo <= hi <= buffer.Length
    ensures |piece| == hi - lo && forall i :: 0 <= i < hi - lo ==> piece[i] == buffer[lo + i]
  {
    piece := buffer[lo..hi];
  }

  class Differ {
    const input: Input
    const buffer: array<byte>
    /** How much of the source has been read. */
    var read: nat
    var validTo: int
    var sumTail: int
    var dataTail: int
    var dataHead: int
    var lastRun: bool
    var shortSize: int
    var rolling: bool
    var beta: Beta
    var alphaPop: byte
    var out: Out
    ghost var said: Script

    /** Source position of the window. */
    ghost function Pos(): int
      reads `read, `validTo, `sumTail
    {
      read - validTo + sumTail
    }

    /** The counters in terms of source positions. */
    ghost function Counted(): Counters
      reads `read, `validTo, `dataTail
    {
      Counters(read - validTo, read - validTo + dataTail, read)
    }

    /** The buffer holds the last validTo bytes read; data waits in [dataTail, dataHead) just before the window. */
    ghost predicate Buffered()
      reads `read, `validTo, `sumTail, `dataTail, `dataHead, buffer
    {
      && input.size >= 2 && input.maxData > 0 && buffer.Length >= input.size * 2 + input.maxData
      && 0 <= dataTail <= dataHead == sumTail <= validTo <= buffer.Length && validTo <= read <= |input.source|
      && (forall i :: 0 <= i < validTo ==> buffer[i] == input.source[read - validTo + i])
      && dataHead - dataTail <= input.maxData
    }

    /** The operations so far stand for the first pos bytes of the source. */
    ghost predicate Emitted(pos: int)
      reads `out
    {
      && OutOk(input.files, input.size, out) && Tidy(out.sent, input.maxData) && Joinable(out)
      && |Produced(input.files, input.size, out)| == pos
        && IsAt(Produced(input.files, input.size, out), input.source, 0)
    }

    /** said is what has been said of the source, the waiting data included. */
    ghost predicate Telling()
      reads `said, `out, `dataTail, `dataHead
    {
      Says(said, out, dataHead - dataTail)
    }

    /** While rolling, the hash is that of the window one byte before pos, and that byte is remembered. */
    ghost predicate Rolled(pos: int)
      reads `rolling, `beta, `alphaPop
    {
      rolling ==>
        && 1 <= pos && pos - 1 + input.size <= |input.source| && 0 < input.size
        && HashAt(beta, input.source, pos - 1, input.size) && alphaPop == input.source[pos - 1]
    }

    ghost predicate Hashable()
      reads `read, `validTo, `sumTail, `dataTail, `dataHead, `rolling, `beta, `alphaPop, buffer
    {
      Buffered() && Rolled(Pos()) && (rolling ==> validTo - sumTail >= input.size - 1)
    }

    ghost predicate Valid()
      reads `read, `validTo, `sumTail, `dataTail, `dataHead, `rolling, `beta, `alphaPop, `out, buffer
    {
      Hashable() && Emitted(Pos() - (dataHead - dataTail))
    }

    /** Either a whole window is buffered, or the source is exhausted and shortSize is what its last read gave. */
    ghost predicate Windowed()
      reads `read, `validTo, `sumTail, `lastRun, `shortSize
    {
      if lastRun then read == |input.source| && 0 <= shortSize < input.size
        && 0 <= validTo - sumTail - shortSize < input.size
      else sumTail + input.size <= validTo && shortSize == 0
    }

    method Enqueue(op: Operation)
      requires OutOk(input.files, input.size, out) && ValidOp(input.files, input.size, op) && Joinable(out)
        && (op.BlockRange? ==> op.blockSpan == 1)
      modifies this`out
      ensures out == Enqueued(old(out), op) && OutOk(input.files, input.size, out)
      ensures Apart(FlushPrev(out).sent) && (op != Data([]) ==> Joinable(out))
      ensures Produced(input.files, input.size, out) == old(Produced(input.files, input.size, out)) +
        OpBytes(input.files, input.size, op)
      ensures Tidy(old(out.sent), input.maxData) && (op.Data? ==> 0 < |op.data| <= input.maxData) ==>
        Tidy(out.sent, input.maxData)
    {
      EnqueuedProduces(input.files, input.size, out, op);
      EnqueuedTidy(out, op, input.maxData);
      EnqueuedApart(out, op);
      match op
      case BlockRange(_, _, _) =>
        if Joins(out.prev, op) {
          out := out.(prev := Some(out.prev.value.(blockSpan := out.prev.value.blockSpan + op.blockSpan)));
          return;
        }
        out := FlushPrev(out).(prev := Some(op));
      case Data(_) =>
        out := FlushPrev(out);
        out := out.(sent := Send(out.sent, op));
    }

    /** Send the waiting data off. */
    method SendData()
      requires Buffered() && Emitted(Pos() - (dataHead - dataTail)) && Telling()
      modifies this`out, this`dataTail
      ensures Buffered() && Emitted(Pos()) && dataTail == dataHead && Telling()
      ensures old(dataTail) == dataHead ==> out == old(out)
    {
      if dataTail < dataHead {
        var data := Extract(buffer, dataTail, dataHead);
        SendPiece(data, Pos() - (dataHead - dataTail));
        dataTail := dataHead;
      }
    }

    /** A piece of the source, of no more than the limit, goes out as data. */
    method SendPiece(data: Bytes, ghost pos: int)
      requires Emitted(pos) && IsAt(data, input.source, pos) && 0 < |data| <= input.maxData && Says(said, out, |data|)
      modifies this`out
      ensures Emitted(pos + |data|) && Says(said, out, 0)
    {
      IsAtExtends(Produced(input.files, input.size, out), data, input.source, pos);
      SaysData(said, out, |data|, 0, data);
      Enqueue(Data(data));
    }

    method MoveWindow()
      requires Hashable() && dataTail == dataHead
      modifies this`validTo, this`sumTail, this`dataTail, this`dataHead, buffer
      ensures Hashable() && sumTail == dataTail == dataHead == 0 && validTo == old(validTo) - old(sumTail)
    {
      MoveBytes(validTo - sumTail);
      validTo, sumTail, dataTail, dataHead := validTo - sumTail, 0, 0, 0;
    }

    /** What is left of the window, n bytes, to the front of the buffer. */
    method MoveBytes(n: int)
      requires Buffered() && n == validTo - sumTail
      modifies buffer
      ensures forall i :: 0 <= i < n ==> buffer[i] == input.source[read - n + i]
    {
      ghost var before := buffer[..];
      MoveToFront(buffer, sumTail, validTo);
      forall i | 0 <= i < n ensures buffer[i] == input.source[read - n + i] {
        assert buffer[i] == before[sumTail + i];
      }
    }

    /** Send the waiting data, then move what is left of the window to the front of the buffer. */
    method Wrap()
      requires Valid() && Telling()
      modifies this`out, this`validTo, this`sumTail, this`dataTail, this`dataHead, buffer
      ensures Valid() && sumTail == 0 && validTo == old(validTo) - old(sumTail) && Pos() == old(Pos())
      ensures Telling()
      ensures old(dataTail) == old(dataHead) ==> out == old(out) && dataTail == dataHead
    {
      SendData();
      MoveWindow();
    }

    /** ReadAtLeast of one block: less than a block means the end. */
    method ReadBlock()
      requires Hashable() && validTo + input.size <= buffer.Length && sumTail + input.size > validTo && !lastRun
        && shortSize == 0
      modifies this`read, this`validTo, this`lastRun, this`shortSize, buffer
      ensures Hashable() && Windowed() && Pos() == old(Pos())
      ensures lastRun == (old(read) + input.size > |input.source|) && (!lastRun ==> read == old(read) + input.size)
      ensures read - validTo == old(read - validTo) && (lastRun ==> shortSize == |input.source| - old(read))
    {
      var n := Min(input.size, |input.source| - read);
      Fill(buffer, validTo, input.source, read, n);
      read, validTo := read + n, validTo + n;
      if n < input.size {
        lastRun, shortSize := true, n;
      }
    }

    /** Whole blocks have been read, and hashes have been rolled over windows of them only. */
    ghost predicate Paced()
      reads `read, `validTo, `sumTail, `rolling
    {
      input.size > 0 && read % input.size == 0 && (rolling ==> Pos() - 1 + input.size <= Whole(input))
    }

    /**
     * The run is the last one when the window reaches beyond the whole blocks, and shortSize is what is beyond them.
     */
    ghost predicate Placed()
      reads `read, `validTo, `sumTail, `rolling, `lastRun, `shortSize
    {
      && input.size > 0 && lastRun == (Pos() + input.size > Whole(input)) && Pos() <= Whole(input)
      && (lastRun ==> shortSize == |input.source| - Whole(input))
      && (rolling ==> Pos() - 1 + input.size <= Whole(input))
    }

    /** After a refill from a state that was paced; before is what had been read. */
    lemma RefillPlaces(before: nat)
      requires Hashable() && Windowed() && before % input.size == 0 && before <= |input.source|
      requires Pos() <= before && (rolling ==> Pos() - 1 + input.size <= Whole(input))
      requires lastRun == (Pos() + input.size > before && before + input.size > |input.source|)
      requires !lastRun ==> read == if Pos() + input.size > before then before + input.size else before
      requires lastRun ==> shortSize == |input.source| - before
      ensures Placed() && (!lastRun ==> Paced())
    {
      WholeIs(|input.source|, input.size, before);
    }

    method Refill()
      requires Valid() && !lastRun && shortSize == 0 && Telling()
      modifies this`out, this`validTo, this`sumTail, this`dataTail, this`dataHead, this`read, this`lastRun,
        this`shortSize, buffer
      ensures Valid() && Windowed() && Pos() == old(Pos())
      ensures Telling()
      ensures lastRun ==> shortSize == |input.source| - old(read)
      ensures lastRun == (Pos() + input.size > old(read) && old(read) + input.size > |input.source|)
      ensures Counted() == Filled(old(Counted()), Pos(), input.size, buffer.Length).(read := read)
      ensures !lastRun ==> Counted() == Filled(old(Counted()), Pos(), input.size, buffer.Length)
      ensures old(out) == Out([], None) && old(Pos()) == 0 && old(dataTail == dataHead) ==> out == Out([], None)
    {
      if sumTail + input.size > validTo {
        if validTo + input.size > buffer.Length {
          Wrap();
        }
        assert Pos() == old(Pos()) && read == old(read);
        ReadBlock();
      }
    }

    /** Roll the hash, or compute it afresh. On a whole window it is the window's hash either way. */
    method HashWindow(sumHead: int) returns (skip: bool)
      requires Hashable() && sumTail <= sumHead == Min(sumTail + input.size, validTo)
      modifies this`rolling, this`beta
      ensures rolling
      ensures sumHead - sumTail == input.size ==> HashAt(beta, input.source, Pos(), input.size)
      ensures !old(rolling) ==> !skip && HashAt(beta, input.source, Pos(), sumHead - sumTail)
      ensures old(rolling) && sumHead - sumTail == input.size ==> (skip <==> SameHash(input, Pos()))
    {
      skip := false;
      if rolling {
        var betaOld := beta.hash;
        ghost var before := beta;
        beta := RollBeta(beta, sumHead - sumTail, alphaPop, buffer[sumHead - 1], input.source, Pos());
        skip := beta.hash == betaOld;
        if sumHead - sumTail == input.size {
          SameHashIs(input, Pos(), before, beta);
        }
      } else {
        var window := Extract(buffer, sumTail, sumHead);
        beta := HashBlock(window, input.source, Pos());
        rolling := true;
      }
    }

    /** The window is a whole one, or all that is left, and shortSize says which. */
    ghost predicate ProperWindow(sumHead: int)
      reads `read, `validTo, `sumTail, `shortSize
    {
      && sumHead - sumTail == Min(input.size, |input.source| - Pos())
      && shortSize == if sumHead - sumTail < input.size then sumHead - sumTail else 0
    }

    /** The block to use for the window, if any. */
    method Lookup(sumHead: int) returns (found: Option<BlockHash>)
      requires Buffered() && Windowed() && sumHead == Min(sumTail + input.size, validTo) && input.Ok()
      ensures ProperWindow(sumHead) && HashAt(beta, input.source, Pos(), sumHead - sumTail) ==>
        FoundAt(input, Pos(), found)
      ensures found.Some? ==> shortSize == if sumHead - sumTail < input.size then sumHead - sumTail else 0
      ensures found.Some? ==> Copies(input, BlockRange(found.value.fileIndex, found.value.blockIndex, 1), Pos(),
        sumHead - sumTail)
      ensures found.Some? ==> sumTail < sumHead && (lastRun ==> sumHead == validTo)
    {
      var window := Extract(buffer, sumTail, sumHead);
      found := LookupIn(input, beta, window, shortSize, Pos());
      if found.Some? {
        BlockCopies(input, found.value, beta.hash, window, Pos());
      }
    }

    /** Hash the window and look it up; an unchanged hash is not looked up again. */
    method Examine(ghost p: int) returns (sumHead: int, found: Option<BlockHash>)
      requires Hashable() && Windowed() && input.Ok() && p == Pos() && Placed()
      modifies this`rolling, this`beta
      ensures sumHead == Min(sumTail + input.size, validTo)
      ensures rolling && (!lastRun ==> HashAt(beta, input.source, Pos(), input.size))
      ensures found.Some? ==> Copies(input, BlockRange(found.value.fileIndex, found.value.blockIndex, 1), Pos(),
        sumHead - sumTail)
      ensures found.Some? ==> sumTail < sumHead && (lastRun ==> sumHead == validTo)
      ensures Sees(input, p, old(rolling), found)
    {
      sumHead := Min(sumTail + input.size, validTo);
      ghost var rolled := rolling;
      var skip := HashWindow(sumHead);
      found := None;
      if !skip {
        found := Lookup(sumHead);
      }
      SeenIs(sumHead, rolled, skip, found);
    }

    /** What the window gives is what the plain scan sees. */
    lemma SeenIs(sumHead: int, rolled: bool, skip: bool, found: Option<BlockHash>)
      requires Buffered() && Windowed() && sumHead == Min(sumTail + input.size, validTo) && input.Ok()
      requires lastRun == (Pos() + input.size > Whole(input)) && Pos() <= Whole(input)
        && (lastRun ==> shortSize == |input.source| - Whole(input))
        && (rolled ==> 1 <= Pos() && Pos() - 1 + input.size <= Whole(input))
      requires sumHead - sumTail == input.size ==> HashAt(beta, input.source, Pos(), input.size)
      requires !rolled ==> !skip && HashAt(beta, input.source, Pos(), sumHead - sumTail)
      requires rolled && sumHead - sumTail == input.size ==> (skip <==> SameHash(input, Pos()))
      requires if skip then found.None? else
        && (ProperWindow(sumHead) && HashAt(beta, input.source, Pos(), sumHead - sumTail) ==>
          FoundAt(input, Pos(), found))
        && (found.Some? ==> shortSize == if sumHead - sumTail < input.size then sumHead - sumTail else 0)
      ensures Sees(input, Pos(), rolled, found)
    {
      var p := Pos();
      assert Whole(input) <= |input.source|;
      if !skip && (!lastRun || p == Whole(input)) {
        assert ProperWindow(sumHead);
        FoundIsLookup(input, p, WindowAt(input, p), found);
      }
    }

    /** All of the source is accounted for. */
    ghost predicate Finished()
      reads `lastRun, `out
    {
      && lastRun && input.size > 0
      && OutOk(input.files, input.size, out) && Produced(input.files, input.size, out) == input.source
      && FinalTidy(out.sent, input.maxData, input.size) && (out.prev.Some? ==> Tidy(out.sent, input.maxData))
        && (out.prev.Some? || out.sent != []) && Apart(FlushPrev(out).sent)
    }

    method SendBlock(op: Operation, ghost pos: int, ghost k: int)
      requires Emitted(pos) && Copies(input, op, pos, k) && input.size > 0
      modifies this`out
      ensures Emitted(pos + k) && out == Enqueued(old(out), op)
      ensures lastRun && pos + k == |input.source| ==> Finished()
    {
      IsAtExtends(Produced(input.files, input.size, out), OpBytes(input.files, input.size, op), input.source, pos);
      Enqueue(op);
      if pos + k == |input.source| {
        IsAtSlice(Produced(input.files, input.size, out), input.source, 0);
        assert input.source[0..|input.source|] == input.source;
      }
    }

    /** The window is a known block: send the waiting data, then the block, and go on behind it. */
    method EmitMatch(f: int, i: int, sumHead: int)
      requires Buffered() && Emitted(Pos() - (dataHead - dataTail)) && Windowed() && Telling()
        && Copies(input, BlockRange(f, i, 1), Pos(), sumHead - sumTail)
      requires sumHead == Min(sumTail + input.size, validTo) && (lastRun ==> sumHead == validTo)
      modifies this`out, this`said, this`rolling, this`sumTail, this`dataTail, this`dataHead
      ensures if lastRun then Finished() else Valid() && Telling()
      ensures said == ThenBlock(old(said), f, i) && Says(said, out, 0) && !rolling
      ensures !lastRun ==> Pos() == old(Pos()) + input.size
    {
      SendData();
      SaysBlock(said, out, f, i);
      SendBlock(BlockRange(f, i, 1), Pos(), sumHead - sumTail);
      said := ThenBlock(said, f, i);
      SkipBlock();
    }

    /** Go on behind the block that was sent. */
    method SkipBlock()
      requires Buffered() && (!lastRun ==> sumTail + input.size <= validTo && Emitted(Pos() + input.size))
      modifies this`rolling, this`sumTail, this`dataTail, this`dataHead
      ensures !lastRun ==> Valid() && Pos() == old(Pos()) + input.size
      ensures dataTail == dataHead && !rolling
    {
      rolling := false;
      sumTail := sumTail + input.size;
      dataHead := sumTail;
      dataTail := sumTail;
    }

    /** No match on the last window: everything that is left is fresh data. */
    method EmitRest()
      requires Buffered() && Emitted(Pos() - (dataHead - dataTail)) && Windowed() && lastRun
        && dataHead - dataTail < input.maxData && Telling()
      modifies this`out, this`said
      ensures Finished() && said == ThenBytes(old(said), validTo - sumTail) && Says(said, out, 0)
      ensures dataTail < validTo || old(out) == Out([], None) ==> LastData(out, validTo - dataTail)
    {
      var data := Extract(buffer, dataTail, validTo);
      SendLast(data, Pos() - (dataHead - dataTail), validTo - sumTail);
    }

    /** The rest of the source goes out as data, whatever its length. */
    method SendLast(data: Bytes, ghost pos: int, ghost more: nat)
      requires input.size > 0 && lastRun && Emitted(pos) && IsAt(data, input.source, pos)
        && pos + |data| == |input.source|
      requires |data| < input.maxData + 2 * input.size && more <= |data| && Says(said, out, |data| - more)
      modifies this`out, this`said
      ensures Finished() && said == ThenBytes(old(said), more) && Says(said, out, 0)
      ensures data != [] || old(out) == Out([], None) ==> LastData(out, |data|)
    {
      RestIsTidy(out, data, input.maxData, input.size);
      RestIsAt(Produced(input.files, input.size, out), data, input.source, pos);
      SaysData(said, out, |data| - more, more, data);
      Enqueue(Data(data));
      said := ThenBytes(said, more);
    }

    /** No match: the first byte of the window joins the waiting data, and the window moves on by one. */
    method Slide()
      requires Buffered() && Emitted(Pos() - (dataHead - dataTail)) && Windowed() && !lastRun && rolling
      requires HashAt(beta, input.source, Pos(), input.size) && dataHead - dataTail < input.maxData
      modifies this`alphaPop, this`sumTail, this`dataHead
      ensures Valid() && sumTail == old(sumTail) + 1
    {
      alphaPop := buffer[sumTail];
      sumTail := sumTail + 1;
      dataHead := sumTail;
    }

    /** What is left from the oldest waiting byte on has been sent as the last operation. */
    ghost predicate LeavesRest(c: Counters, p: int, before: Out)
      reads `read, `out
    {
      var tail := WsyncRest.Sent(c, p, input.maxData).tail;
      tail < read || (before == Out([], None) && p - c.tail < input.maxData) ==> LastData(out, read - tail)
    }

    /** As much data as goes into one operation is sent off. */
    method SendFull()
      requires Buffered() && Emitted(Pos() - (dataHead - dataTail)) && Telling()
      modifies this`out, this`dataTail
      ensures Buffered() && Emitted(Pos() - (dataHead - dataTail)) && dataHead - dataTail < input.maxData
      ensures Telling()
      ensures Counted() == WsyncRest.Sent(old(Counted()), old(Pos()), input.maxData)
      ensures old(dataHead - dataTail) < input.maxData ==> out == old(out)
    {
      if dataHead - dataTail >= input.maxData {
        SendData();
      }
    }

    method EmitNoMatch(ghost p: int, ghost rolled: bool)
      requires Buffered() && Emitted(Pos() - (dataHead - dataTail)) && Windowed() && rolling && p == Pos() && Telling()
      requires (!lastRun ==> HashAt(beta, input.source, Pos(), input.size)) && ComesTo(p, rolled, None)
      modifies this`out, this`dataTail, this`alphaPop, this`sumTail, this`dataHead, this`said
      ensures if lastRun then Finished() && Says(said, out, 0) else Valid() && Pos() == old(Pos()) + 1 && Telling()
      ensures Goes(old(said), p, rolled)
      ensures !lastRun ==> Counted() == WsyncRest.Sent(old(Counted()), old(Pos()), input.maxData)
      ensures lastRun ==> LeavesRest(old(Counted()), old(Pos()), old(out))
    {
      ghost var before := said;
      if lastRun {
        SendEverything();
        MissEnds(input, p, rolled, before, validTo - sumTail, said);
      } else {
        MoveOn();
        MissLeadsOn(input, p, rolled, before, Pos(), said);
      }
    }

    method SendEverything()
      requires Buffered() && Emitted(Pos() - (dataHead - dataTail)) && Windowed() && lastRun && Telling()
      modifies this`out, this`dataTail, this`said
      ensures Finished() && said == ThenBytes(old(said), validTo - sumTail) && Says(said, out, 0)
      ensures LeavesRest(old(Counted()), old(Pos()), old(out))
    {
      SendFull();
      EmitRest();
    }

    method MoveOn()
      requires Buffered() && Emitted(Pos() - (dataHead - dataTail)) && Windowed() && !lastRun && rolling && Telling()
      requires HashAt(beta, input.source, Pos(), input.size)
      modifies this`out, this`dataTail, this`alphaPop, this`sumTail, this`dataHead, this`said
      ensures Valid() && Pos() == old(Pos()) + 1 && Telling() && said == ThenBytes(old(said), 1)
      ensures Counted() == WsyncRest.Sent(old(Counted()), old(Pos()), input.maxData)
    {
      SendFull();
      SaysByte(said, out, dataHead - dataTail, sumTail + 1 - dataTail);
      said := ThenBytes(said, 1);
      Slide();
    }

    /** One turn of the loop does what the plain scan does. */
    method Step() returns (ghost found: Option<BlockHash>)
      requires Valid() && !lastRun && shortSize == 0 && input.Ok() && Paced() && Telling()
      modifies this, buffer
      ensures if lastRun then Finished() && Says(said, out, 0) else Valid() && shortSize == 0 && Telling()
      ensures Pos() > old(Pos()) || lastRun
      ensures NothingShared(input) ==> Traced(old(Counted()), old(Pos()), old(out))
      ensures Sees(input, old(Pos()), old(rolling), found)
      ensures Goes(old(said), old(Pos()), old(rolling)) && (!lastRun ==> Paced())
    {
      ghost var p, before, c, told := Pos(), read, Counted(), out;
      Refill();
      RefillPlaces(before);
      ghost var filled, sent := Counted(), out;
      found := Advance(p);
      if NothingShared(input) {
        TurnTraced(c, filled, p, told, sent);
      }
    }

    lemma TurnTraced(c: Counters, filled: Counters, p: int, before: Out, sent: Out)
      requires lastRun == (p + input.size > c.read && c.read + input.size > |input.source|)
      requires filled == Filled(c, p, input.size, buffer.Length).(read := filled.read)
      requires !lastRun ==> filled == Filled(c, p, input.size, buffer.Length)
      requires if lastRun then LeavesRest(filled, p, sent) && filled.read == read == |input.source|
        else Counted() == WsyncRest.Sent(filled, p, input.maxData) && Pos() == p + 1
      requires input.maxData > 0 && (before == Out([], None) && p == 0 ==> sent == Out([], None) && filled.tail >= 0)
      ensures Traced(c, p, before)
    {
    }

    /** What is said now, and what the plain scan has to say from here on, is what it had to say at p. */
    ghost predicate Goes(before: Script, p: int, rolled: bool)
      reads `read, `validTo, `sumTail, `lastRun, `rolling, `said
    {
      if lastRun then Ends(input, p, rolled, before, said)
      else LeadsOn(input, p, rolled, before, Pos(), rolling, said)
    }

    /** Without matches a turn does to the counters what Turn says, and the last one sends what is left. */
    ghost predicate Traced(c: Counters, p: int, before: Out)
      reads `read, `validTo, `sumTail, `dataTail, `lastRun, `out
    {
      var next := Turn(c, p, input.size, input.maxData, buffer.Length);
      if !lastRun then Counted() == next && Pos() == p + 1
      else
        && p + input.size > c.read && c.read + input.size > |input.source|
        && (next.tail < |input.source| || (before == Out([], None) && p == 0) ==>
          LastData(out, |input.source| - next.tail))
    }

    /** With a window in place: look it up, and send it or move on. */
    method Advance(ghost p: int) returns (ghost found: Option<BlockHash>)
      requires Valid() && Windowed() && p == Pos() && input.Ok() && Placed() && (!lastRun ==> read % input.size == 0)
        && Telling()
      modifies this`rolling, this`beta, this`out, this`sumTail, this`dataTail, this`dataHead, this`alphaPop, this`said
      ensures if lastRun then Finished() && Says(said, out, 0) else Valid() && Pos() > p && Telling()
      ensures NothingShared(input) ==>
        if lastRun then LeavesRest(old(Counted()), p, old(out))
        else Counted() == WsyncRest.Sent(old(Counted()), p, input.maxData) && Pos() == p + 1
      ensures Sees(input, p, old(rolling), found) && Goes(old(said), p, old(rolling)) && (!lastRun ==> Paced())
    {
      ghost var counted, rolled := Counted(), rolling;
      var sumHead, match_ := Examine(p);
      found := match_;
      assert Counted() == counted && Pos() == p;
      if match_.Some? {
        TakeMatch(match_.value, p, rolled, sumHead);
      } else {
        EmitNoMatch(p, rolled);
      }
    }

    /** At p, which the plain scan comes to with rolled, and on the last run just if the window reaches beyond Whole. */
    ghost predicate ComesTo(p: int, rolled: bool, found: Option<BlockHash>)
      reads `lastRun
    {
      Sees(input, p, rolled, found) && lastRun == (p + input.size > Whole(input))
    }

    /** A block found is sent; so something of the source is in the targets. */
    method TakeMatch(found: BlockHash, ghost p: int, ghost rolled: bool, sumHead: int)
      requires Buffered() && Emitted(Pos() - (dataHead - dataTail)) && Windowed() && p == Pos() && input.Ok()
        && Telling() && ComesTo(p, rolled, Some(found))
        && Copies(input, BlockRange(found.fileIndex, found.blockIndex, 1), p, sumHead - sumTail)
      requires sumHead == Min(sumTail + input.size, validTo) && sumTail < sumHead && (lastRun ==> sumHead == validTo)
      modifies this`out, this`rolling, this`sumTail, this`dataTail, this`dataHead, this`said
      ensures if lastRun then Finished() && Says(said, out, 0) else Valid() && Pos() == p + input.size && Telling()
      ensures !rolling && Goes(old(said), p, rolled)
      ensures !NothingShared(input)
    {
      if NothingShared(input) {
        NothingToCopy(input, found.fileIndex, found.blockIndex, p, sumHead - sumTail);
      }
      ghost var before := said;
      EmitMatch(found.fileIndex, found.blockIndex, sumHead);
      if lastRun {
        MatchEnds(input, p, rolled, before, found, said);
      } else {
        MatchLeadsOn(input, p, rolled, before, found, Pos(), said);
      }
    }

    ghost predicate AtStart()
      reads `read, `validTo, `sumTail, `dataTail, `dataHead, `lastRun, `rolling, `out
    {
      read == validTo == sumTail == dataTail == dataHead == 0 && !lastRun && !rolling && out == Out([], None)
    }

    constructor (input: Input, buffer: array<byte>)
      requires input.size >= 2 && input.maxData > 0 && buffer.Length >= input.size * 2 + input.maxData
      ensures this.input == input && this.buffer == buffer
      ensures Valid() && AtStart() && shortSize == 0 && Telling() && said == Script([])
    {
      this.input, this.buffer := input, buffer;
      read, validTo, sumTail, dataTail, dataHead := 0, 0, 0, 0, 0;
      lastRun, shortSize, rolling, alphaPop := false, 0, false, 0;
      out, said := Out([], None), Script([]);
      new;
      SaysOutright(said, out);
    }
  }

  /** The deferred send of the range held back. */
  lemma FlushFinishes(d: Differ)
    requires d.Finished()
    ensures var ops := FlushPrev(d.out).sent;
      && OpsBytes(d.input.files, d.input.size, ops) == d.input.source && ops != []
        && FinalTidy(ops, d.input.maxData, d.input.size)
      && (forall i :: 0 <= i < |ops| ==> ValidOp(d.input.files, d.input.size, ops[i])) && Apart(ops)
  {
    FlushPrevProduces(d.input.files, d.input.size, d.out);
  }
}
