/**
 * The two ways a bowl writes a source file: whole, or as an overlay over the old file. Both can be saved and resumed.
 */
module EntryWriters {
  import opened Common
  import opened OverlayCodec

  /** A file on disk: a whole new file, or an overlay for an existing one. */
  datatype Staged = Plain(data: Bytes) | Overlay(msgs: seq<Op>)

  datatype OverlayOffsets = OverlayOffsets(readOffset: nat, overlayOffset: nat)

  datatype WriterCheckpoint = WriterCheckpoint(offset: nat, data: Option<OverlayOffsets>)

  class FreshEntryWriter {
    var file: Open

    ghost predicate Valid()
      reads this
    {
      file.pos <= |file.data|
    }

    /** Resume opens the file without truncating it. */
    constructor Resume(data: Bytes, c: Option<WriterCheckpoint>)
      requires c.Some? ==> c.value.offset <= |data|
      ensures Valid() && file == Open(data, if c.Some? then c.value.offset else 0)
    {
      file := Open(data, 0);
      if c.Some? && c.value.offset != 0 {
        file := Open(data, c.value.offset);
      }
    }

    method Save() returns (c: WriterCheckpoint)
      ensures c == WriterCheckpoint(file.pos, None)
    {
      c := WriterCheckpoint(file.pos, None);
    }

    method Write(buf: Bytes)
      requires Valid()
      modifies this
      ensures Valid() && file.pos == old(file.pos) + |buf| && |file.data| == if old(|file.data|) < file.pos
        then file.pos else old(|file.data|)
      ensures file.data[..file.pos] == old(file.data[..file.pos]) + buf
    {
      file := WriteAt(file, buf);
    }
  }

  /**
   * A whole file written over what an earlier run has left. It is right if and only if that was no longer, since
   * opening it does not truncate it.
   */
  method WriteOver(stale: Bytes, pieces: seq<Bytes>) returns (data: Bytes)
    ensures |Flatten(pieces)| <= |data| && data[..|Flatten(pieces)|] == Flatten(pieces)
    ensures data == Flatten(pieces) <==> |stale| <= |Flatten(pieces)|
  {
    var w := new FreshEntryWriter.Resume(stale, None);
    for i := 0 to |pieces|
      invariant w.Valid() && w.file.data[..w.file.pos] == Flatten(pieces[..i])
      invariant |w.file.data| == if |stale| < w.file.pos then w.file.pos else |stale|
    {
      w.Write(pieces[i]);
      FlattenSnoc(pieces[..i], pieces[i]);
      assert pieces[..i + 1] == pieces[..i] + [pieces[i]];
    }
    assert pieces[..|pieces|] == pieces;
    data := w.file.data;
  }

  /** The overlay file up to the saved offset stands for the first head bytes of the new file. */
  ghost predicate Restorable(base: Bytes, threshold: nat, file: seq<Op>, c: WriterCheckpoint, head: Bytes) {
    && c.offset == |head| && c.data.Some? && c.data.value.readOffset == |head|
      && 0 < c.data.value.overlayOffset <= |file|
    && Encodes(base, file[..c.data.value.overlayOffset], head)
    && Compact(base, file[..c.data.value.overlayOffset], threshold)
  }

  class OverlayEntryWriter {
    const overlay: OverlayWriter
    var sourceOffset: nat

    ghost predicate Valid()
      reads this, overlay
    {
      overlay.Valid() && sourceOffset == |Written()|
    }

    ghost function Written(): Bytes
      reads overlay
    {
      overlay.processed + overlay.buffered
    }

    constructor Resume(base: Bytes, bufSize: nat, threshold: nat, file: seq<Op>, c: Option<WriterCheckpoint>,
        ghost head: Bytes)
      requires bufSize > 0 && if c.Some? then Restorable(base, threshold, file, c.value, head) else head == []
      ensures Valid() && fresh(overlay) && overlay.base == base && overlay.threshold == threshold && Written() == head
      ensures c.Some? ==> Restorable(base, threshold, overlay.messages, c.value, head)
    {
      if c.Some? {
        var at := c.value.data.value;
        overlay := new OverlayWriter.Resume(base, bufSize, threshold, at.readOffset, file, at.overlayOffset, head);
        sourceOffset := c.value.offset;
      } else {
        overlay := new OverlayWriter(base, bufSize, threshold);
        sourceOffset := 0;
      }
      new;
      assert head + [] == head;
      assert overlay.messages[..|overlay.messages|] == overlay.messages;
    }

    /** Save flushes first, so nothing that was written depends on what is in memory. */
    method Save() returns (c: WriterCheckpoint)
      requires Valid()
      modifies overlay
      ensures Valid() && Written() == old(Written()) && old(overlay.messages) <= overlay.messages
      ensures Restorable(overlay.base, overlay.threshold, overlay.messages, c, Written())
      ensures c.data.value.overlayOffset == |overlay.messages|
    {
      overlay.Flush();
      assert overlay.processed + [] == overlay.processed;
      c := WriterCheckpoint(sourceOffset, Some(OverlayOffsets(overlay.readOffset, |overlay.messages|)));
      assert overlay.messages[..|overlay.messages|] == overlay.messages;
    }

    method Write(buf: Bytes)
      requires Valid()
      modifies this, overlay
      ensures Valid() && Written() == old(Written()) + buf && old(overlay.messages) <= overlay.messages
    {
      overlay.Write(buf);
      sourceOffset := sourceOffset + |buf|;
    }

    method Finalize()
      requires Valid()
      modifies overlay
      ensures old(overlay.messages) <= overlay.messages
      ensures forall junk :: ApplyOverlay(overlay.base, overlay.messages + junk) == Some(old(Written()))
      ensures Closed(overlay.base, overlay.messages, overlay.threshold)
    {
      overlay.Finalize();
    }
  }

  /**
   * What a file on disk must be like for a writer to go on from c with the first head bytes of the new file written.
   */
  ghost predicate Restartable(base: Option<Bytes>, threshold: nat, disk: Staged, c: WriterCheckpoint, head: Bytes) {
    if base.Some? then disk.Overlay? && Restorable(base.value, threshold, disk.msgs, c, head)
    else disk.Plain? && c.data.None? && c.offset == |head| && head <= disk.data
  }

  /** The checkpoint, if any, can be used with what is on disk. */
  ghost predicate KeptBy(base: Option<Bytes>, threshold: nat, disk: Staged, kept: Option<WriterCheckpoint>,
      content: Bytes) {
    kept.Some? ==> kept.value.offset <= |content| && Restartable(base, threshold, disk, kept.value,
      content[..kept.value.offset])
  }

  /** disk is what a finished writer leaves for content. */
  ghost predicate Finished(base: Option<Bytes>, disk: Staged, content: Bytes) {
    if base.Some? then disk.Overlay? && ApplyOverlay(base.value, disk.msgs) == Some(content) else disk == Plain(content)
  }

  /** Either writer, as a bowl hands it out: base is the old file for an overlay. */
  datatype EntryWriter = FreshWriter(whole: FreshEntryWriter) | InPlaceWriter(over: OverlayEntryWriter) {
    ghost function Repr(): set<object> {
      match this
      case FreshWriter(w) => {w}
      case InPlaceWriter(w) => {w, w.overlay}
    }

    ghost predicate Valid(base: Option<Bytes>, threshold: nat, size: nat)
      reads Repr()
    {
      match this
      case FreshWriter(w) => base.None? && w.Valid() && |w.file.data| <= size
      case InPlaceWriter(w) => base == Some(w.overlay.base) && w.Valid() && w.overlay.threshold == threshold
    }

    ghost function Written(): Bytes
      reads Repr()
    {
      match this
      case FreshWriter(w) => if w.file.pos <= |w.file.data| then w.file.data[..w.file.pos] else []
      case InPlaceWriter(w) => w.Written()
    }

    /** Its file at this point, without what is still buffered. */
    function OnDisk(): Staged
      reads Repr()
    {
      match this
      case FreshWriter(w) => Plain(w.file.data)
      case InPlaceWriter(w) => Overlay(w.overlay.messages)
    }

    function Tell(): nat
      reads Repr()
    {
      match this
      case FreshWriter(w) => w.file.pos
      case InPlaceWriter(w) => w.sourceOffset
    }

    /** The checkpoint c, if any, stays usable with what is on disk. */
    ghost predicate Keeps(base: Option<Bytes>, threshold: nat, c: Option<WriterCheckpoint>, content: Bytes)
      reads Repr()
    {
      KeptBy(base, threshold, OnDisk(), c, content) && (c.Some? ==> content[..c.value.offset] <= Written())
    }

    method Write(buf: Bytes, ghost base: Option<Bytes>, ghost threshold: nat, ghost size: nat,
        ghost kept: Option<WriterCheckpoint>, ghost content: Bytes)
      requires Valid(base, threshold, size) && |Written()| + |buf| <= size && Keeps(base, threshold, kept, content)
      modifies Repr()
      ensures Valid(base, threshold, size) && Written() == old(Written()) + buf && Keeps(base, threshold, kept, content)
    {
      match this {
        case FreshWriter(w) => w.Write(buf);
        case InPlaceWriter(w) =>
          ghost var before := w.overlay.messages;
          w.Write(buf);
          GrowsKeeps(base, threshold, before, w.overlay.messages, kept, content);
      }
    }

    method Save(ghost base: Option<Bytes>, ghost threshold: nat, ghost size: nat, ghost content: Bytes)
      returns (c: WriterCheckpoint)
      requires Valid(base, threshold, size) && Written() <= content
      modifies Repr()
      ensures Valid(base, threshold, size) && Written() == old(Written()) && c.offset == |Written()|
      ensures Restartable(base, threshold, OnDisk(), c, Written()) && Keeps(base, threshold, Some(c), content)
    {
      match this {
        case FreshWriter(w) => c := w.Save();
        case InPlaceWriter(w) => c := w.Save();
      }
      assert content[..c.offset] == Written();
    }

    /**
     * The file is right once the writer is finalized, whatever stale messages an overlay file still has behind its end.
     */
    method Finalize(ghost base: Option<Bytes>, ghost threshold: nat, ghost size: nat,
        ghost kept: Option<WriterCheckpoint>, ghost content: Bytes, stale: seq<Op>)
      returns (disk: Staged)
      requires Valid(base, threshold, size) && Written() == content && |content| == size
        && Keeps(base, threshold, kept, content)
      modifies Repr()
      ensures Finished(base, disk, content) && KeptBy(base, threshold, disk, kept, content)
    {
      match this {
        case FreshWriter(w) => disk := Plain(w.file.data);
        case InPlaceWriter(w) =>
          ghost var before := w.overlay.messages;
          w.Finalize();
          disk := Overlay(w.overlay.messages + stale);
          GrowsKeeps(base, threshold, before, w.overlay.messages + stale, kept, content);
      }
    }
  }

  lemma GrowsKeeps(base: Option<Bytes>, threshold: nat, before: seq<Op>, after: seq<Op>,
      kept: Option<WriterCheckpoint>, content: Bytes)
    requires base.Some? && before <= after && KeptBy(base, threshold, Overlay(before), kept, content)
    ensures KeptBy(base, threshold, Overlay(after), kept, content)
  {
    if kept.Some? {
      var n := kept.value.data.value.overlayOffset;
      assert before[..n] == after[..n];
    }
  }

  /**
   * The overlay round trip. Whatever the pieces the new content comes in, whenever the writer is saved and
   * resumed, and whatever became of the overlay file behind the saved offset, applying the overlay to the
   * old file gives the new content.
   */
  method OverlayRoundTrip(base: Bytes, pieces: seq<Bytes>, bufSize: nat, threshold: nat) returns (file: seq<Op>)
    requires bufSize > 0
    ensures ApplyOverlay(base, file) == Some(Flatten(pieces))
    ensures exists n :: 0 < n <= |file| && Closed(base, file[..n], threshold)
  {
    var stale := *;
    var w := new OverlayEntryWriter.Resume(base, bufSize, threshold, stale, None, []);
    for i := 0 to |pieces|
      invariant w.Valid() && fresh(w) && fresh(w.overlay) && w.Written() == Flatten(pieces[..i])
      invariant w.overlay.base == base && w.overlay.threshold == threshold
    {
      w.Write(pieces[i]);
      FlattenSnoc(pieces[..i], pieces[i]);
      assert pieces[..i + 1] == pieces[..i] + [pieces[i]];
      var interrupted := *;
      if interrupted {
        w := Reopen(w, bufSize);
      }
    }
    assert pieces[..|pieces|] == pieces;
    w.Finalize();
    stale := *;
    file := w.overlay.messages + stale;
    assert file[..|w.overlay.messages|] == w.overlay.messages;
  }

  /** Save, lose what is behind the checkpoint, and resume. */
  method Reopen(w: OverlayEntryWriter, bufSize: nat) returns (r: OverlayEntryWriter)
    requires w.Valid() && bufSize > 0
    modifies w, w.overlay
    ensures fresh(r) && fresh(r.overlay) && r.Valid() && r.Written() == old(w.Written())
    ensures r.overlay.base == w.overlay.base && r.overlay.threshold == w.overlay.threshold
  {
    var c := w.Save();
    var junk := *;
    GrowsKeeps(Some(w.overlay.base), w.overlay.threshold, w.overlay.messages, w.overlay.messages + junk, Some(c),
      w.Written());
    assert w.Written()[..|w.Written()|] == w.Written();
    r := new OverlayEntryWriter.Resume(w.overlay.base, bufSize, w.overlay.threshold, w.overlay.messages + junk, Some(c),
      w.Written());
  }
}
