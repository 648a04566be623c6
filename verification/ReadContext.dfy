/** The wire reader's bookkeeping: where it is in the stream, and checkpoints that line up with it. */
module ReadContext {
  import opened Common

  /** A source can resume only where it has saved; it saves at a moment of its own choosing once it was asked. */
  datatype SourceCheckpoint = SourceCheckpoint(offset: nat)

  datatype MessageCheckpoint = MessageCheckpoint(offset: nat, source: Option<SourceCheckpoint>)

  datatype SaveState = Idle | WaitingForSource | HasSourceCheckpoint

  class ReadContext {
    /** All bytes of the source, and how far it has been read. */
    const data: Bytes
    var sourcePos: nat
    var sourceWantsSave: bool

    var offset: nat
    var saveState: SaveState
    var sourceCheckpoint: Option<SourceCheckpoint>

    ghost predicate Valid()
      reads this
    {
      && offset == sourcePos <= |data|
      && (saveState.HasSourceCheckpoint? <==> sourceCheckpoint.Some?)
      && (sourceCheckpoint.Some? ==> sourceCheckpoint.value.offset <= offset)
      && (saveState.WaitingForSource? ==> sourceWantsSave)
    }

    constructor (data: Bytes)
      ensures Valid() && offset == 0 && saveState.Idle? && !sourceWantsSave && this.data == data
    {
      this.data, sourcePos, sourceWantsSave := data, 0, false;
      offset, saveState, sourceCheckpoint := 0, Idle, None;
    }

    /** The callback: the source hands over a checkpoint. */
    method OnSave(c: SourceCheckpoint)
      modifies this`sourceCheckpoint, this`saveState
      ensures sourceCheckpoint == Some(c) && saveState.HasSourceCheckpoint?
    {
      sourceCheckpoint, saveState := Some(c), HasSourceCheckpoint;
    }

    /** The source reads n bytes; if it was asked to, it saves when it comes by saveAt. */
    method SourceRead(n: nat, saveAt: nat) returns (bytes: Bytes)
      requires Valid()
      modifies this`sourcePos, this`sourceWantsSave, this`sourceCheckpoint, this`saveState
      ensures bytes == ReadAt(data, old(sourcePos), n) && sourcePos == old(sourcePos) + |bytes|
      ensures if old(sourceWantsSave) && old(sourcePos) <= saveAt <= sourcePos
        then !sourceWantsSave && sourceCheckpoint == Some(SourceCheckpoint(saveAt)) && saveState.HasSourceCheckpoint?
        else unchanged(`sourceWantsSave, `sourceCheckpoint, `saveState)
    {
      bytes := ReadAt(data, sourcePos, n);
      if sourceWantsSave && sourcePos <= saveAt <= sourcePos + |bytes| {
        OnSave(SourceCheckpoint(saveAt));
        sourceWantsSave := false;
      }
      sourcePos := sourcePos + |bytes|;
    }

    /** The counting reader. */
    method Read(n: nat, saveAt: nat) returns (bytes: Bytes)
      requires Valid()
      modifies this
      ensures Valid() && bytes == ReadAt(data, old(offset), n) && offset == old(offset) + |bytes|
      ensures if old(sourceWantsSave) && old(offset) <= saveAt <= offset
        then !sourceWantsSave && sourceCheckpoint == Some(SourceCheckpoint(saveAt)) && saveState.HasSourceCheckpoint?
        else unchanged(`sourceWantsSave, `sourceCheckpoint, `saveState)
    {
      bytes := SourceRead(n, saveAt);
      offset := offset + |bytes|;
    }

    method WantSave()
      requires Valid()
      modifies this`saveState, this`sourceWantsSave
      ensures Valid() && !saveState.Idle?
      ensures old(saveState).Idle? ==> saveState.WaitingForSource? && sourceWantsSave
      ensures !old(saveState).Idle? ==> saveState == old(saveState) && sourceWantsSave == old(sourceWantsSave)
    {
      if saveState.Idle? {
        sourceWantsSave := true;
        saveState := WaitingForSource;
      }
    }

    /**
     * A checkpoint, when the source has given one, is for the very place the next message starts,
     * never before the source's own.
     */
    method PopCheckpoint() returns (c: Option<MessageCheckpoint>)
      requires Valid()
      modifies this`saveState, this`sourceCheckpoint
      ensures Valid() && (c.Some? <==> old(saveState).HasSourceCheckpoint?)
      ensures c.Some? ==> c.value == MessageCheckpoint(offset, old(sourceCheckpoint)) && saveState.Idle?
      ensures c.Some? ==> c.value.source.Some? && c.value.source.value.offset <= offset
      ensures c.None? ==> saveState == old(saveState) && sourceCheckpoint == old(sourceCheckpoint)
    {
      if saveState.HasSourceCheckpoint? {
        c := Some(MessageCheckpoint(offset, sourceCheckpoint));
        saveState, sourceCheckpoint := Idle, None;
        return;
      }
      c := None;
    }

    /**
     * The source resumes at the start, or from a checkpoint at back; sources that decompress may have to start before
     * the offset they have saved at.
     */
    method SourceResume(c: Option<SourceCheckpoint>, back: nat) returns (at: nat)
      modifies this`sourcePos, this`sourceWantsSave
      ensures sourcePos == at == (if c.None? then 0 else back) && !sourceWantsSave
    {
      at := if c.None? then 0 else back;
      sourcePos, sourceWantsSave := at, false;
    }

    /** Discard by reading. */
    method Discard(delta: nat)
      requires sourcePos + delta <= |data|
      modifies this`sourcePos
      ensures sourcePos == old(sourcePos) + delta
    {
      sourcePos := sourcePos + delta;
    }

    /**
     * Resume lines the source up with the checkpoint: it fails exactly when the source comes back behind the
     * place the messages go on, or has no checkpoint, and otherwise reading goes on as if nothing had happened.
     */
    method Resume(c: Option<MessageCheckpoint>, back: nat) returns (ok: bool)
      requires c.Some? ==> c.value.offset <= |data|
      modifies this
      ensures ok <==> c.None? || (c.value.source.Some? && back <= c.value.offset)
      ensures ok ==> Valid() && offset == (if c.Some? then c.value.offset else 0) && saveState.Idle?
    {
      saveState, sourceCheckpoint := Idle, None;
      if c.Some? {
        if c.value.source.None? {
          return false;
        }
        var at := SourceResume(c.value.source, back);
        if c.value.offset < at {
          return false;
        }
        if c.value.offset > at {
          Discard(c.value.offset - at);
        }
        offset := c.value.offset;
        return true;
      }
      var at := SourceResume(None, back);
      offset := 0;
      ok := at == 0;
    }
  }

  /**
   * A reader asks for a checkpoint after one read, has a second read for the source to come by a place where it saves,
   * and then reads on. There is a checkpoint exactly when the source came by such a place. A reader that resumes from
   * it reads the same from there on, unless the source comes back too far on.
   */
  method ReadTwice(data: Bytes, before: nat, between: nat, after: nat, saveAt: nat, back: nat)
    returns (first: Bytes, second: Bytes, resumed: bool)
    ensures var here := Min(before, |data|);
      var there := Min(here + between, |data|);
      && first == ReadAt(data, there, after)
      && (resumed <==> here <= saveAt <= there && back <= there)
      && second == if resumed then first else []
  {
    var r := new ReadContext(data);
    var skipped := r.Read(before, saveAt);
    r.WantSave();
    skipped := r.Read(between, saveAt);
    var c := r.PopCheckpoint();
    first := r.Read(after, saveAt);
    second, resumed := [], false;
    if c.Some? {
      var s := new ReadContext(data);
      resumed := s.Resume(c, back);
      if resumed {
        second := s.Read(after, saveAt);
      }
    }
  }
}
