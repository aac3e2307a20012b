/**
  The readers of a Gruppo topic, over the files `StoreOf(rs, max)` that producing the records
  `rs` leaves behind: Consume(offset), Peek(offset), and the per-group cursor that
  Consume(groupName) moves forward and saves in the group's index file.
*/
module TopicRead {
  import opened Wrappers
  import opened Exceptions
  import opened Binary
  import opened TopicLog

  /** Message file `k` as a reader opens it: a file that does not exist yet is created empty. */
  function SegmentFile(st: Store, k: int): seq<byte> {
    if 0 <= k < |st.segments| then st.segments[k] else []
  }

  // ---- Consume(offset) and Peek(offset) ----

  /** Consume(long offset): seek the index to `8 * offset` (a negative position is an IOException),
      read the entry (EndOfStreamException past the last one), and read the whole message at that
      position of message file `offset / max`. */
  function ConsumeAt(st: Store, max: nat, offset: int): Result<Message, Exception>
    requires max > 0
  {
    if offset < 0 then Failure(IOError)
    else if offset >= |st.index| then Failure(EndOfStream)
    else
      var m :- ReadMessage(SegmentFile(st, offset / max), st.index[offset], offset, true);
      Success(m.0)
  }

  /** Consume(offset) returns exactly the record produced at that offset, with offset, timestamp,
      meta and body; a negative offset and one not produced yet throw. */
  lemma ConsumeAtSpec(rs: seq<WritableRecord>, max: nat, offset: int)
    requires max > 0
    ensures offset < 0 ==> ConsumeAt(StoreOf(rs, max), max, offset) == Failure(IOError)
    ensures offset >= |rs| ==> ConsumeAt(StoreOf(rs, max), max, offset) == Failure(EndOfStream)
    ensures 0 <= offset < |rs| ==> ConsumeAt(StoreOf(rs, max), max, offset) == Success(MessageOf(rs[offset], offset, true))
  {
    if 0 <= offset < |rs| {
      ReadBack(rs, max, offset, true);
    }
  }

  /** Peek(offset) as written: the guard `8 * offset > length` lets `offset == count` through, and
      the index read at the very end then throws EndOfStreamException. A negative offset is refused
      by the Position setter. The body is not read. */
  function PeekAsWritten(st: Store, max: nat, offset: int): Result<Option<Message>, Exception>
    requires max > 0
  {
    if offset * 8 > |st.index| * 8 then Success(None)
    else if offset < 0 then Failure(ArgumentOutOfRange("value"))
    else if offset == |st.index| then Failure(EndOfStream)
    else
      var m :- ReadMessage(SegmentFile(st, offset / max), st.index[offset], offset, false);
      Success(Some(m.0))
  }

  /** Peek(offset) with the guard `8 * offset >= length`: no message for any offset not produced
      yet. */
  function Peek(st: Store, max: nat, offset: int): Result<Option<Message>, Exception>
    requires max > 0
  {
    if offset >= |st.index| then Success(None)
    else if offset < 0 then Failure(ArgumentOutOfRange("value"))
    else
      var m :- ReadMessage(SegmentFile(st, offset / max), st.index[offset], offset, false);
      Success(Some(m.0))
  }

  /** Peek gives the record at `offset` without its body, nothing past the end, and refuses a
      negative offset. */
  lemma PeekSpec(rs: seq<WritableRecord>, max: nat, offset: int)
    requires max > 0
    ensures offset < 0 ==> Peek(StoreOf(rs, max), max, offset) == Failure(ArgumentOutOfRange("value"))
    ensures offset >= |rs| ==> Peek(StoreOf(rs, max), max, offset) == Success(None)
    ensures 0 <= offset < |rs| ==> Peek(StoreOf(rs, max), max, offset) == Success(Some(MessageOf(rs[offset], offset, false)))
  {
    if 0 <= offset < |rs| {
      ReadBack(rs, max, offset, false);
    }
  }

  /** Peeking at the next offset to be produced: the code as written throws where the corrected
      guard answers "no message". */
  lemma PeekAsWrittenAtEnd(rs: seq<WritableRecord>, max: nat)
    requires max > 0
    ensures PeekAsWritten(StoreOf(rs, max), max, |rs|) == Failure(EndOfStream)
    ensures Peek(StoreOf(rs, max), max, |rs|) == Success(None)
  {
  }

  /** Everywhere else the two guards agree. */
  lemma PeekAsWrittenElsewhere(st: Store, max: nat, offset: int)
    requires max > 0 && offset != |st.index|
    ensures PeekAsWritten(st, max, offset) == Peek(st, max, offset)
  {
    if offset > |st.index| {
      assert offset * 8 > |st.index| * 8;
    } else {
      assert offset * 8 <= |st.index| * 8;
    }
  }

  /** Peek and Consume agree on every produced offset, except that Peek leaves the body out. */
  lemma PeekIsConsumeWithoutBody(rs: seq<WritableRecord>, max: nat, offset: int)
    requires max > 0 && 0 <= offset < |rs|
    ensures ConsumeAt(StoreOf(rs, max), max, offset).Success?
    ensures Peek(StoreOf(rs, max), max, offset)
            == Success(Some(ConsumeAt(StoreOf(rs, max), max, offset).value.(body := None)))
  {
    ConsumeAtSpec(rs, max, offset);
    PeekSpec(rs, max, offset);
  }

  // ---- consumer groups ----

  /** A group's reading state: the next offset to consume (its index reader stands at
      `8 * offset`), and the message file its message reader has open and the position in it. */
  datatype Cursor = Cursor(offset: nat, segment: int, position: nat)

  /** Where a group's readers stand with the records `rs` produced: at most at the end, and,
      unless the next record opens a message file (where Consume reopens anyway), in that record's
      file at the position where it starts. */
  predicate Ready(rs: seq<WritableRecord>, max: nat, cur: Cursor)
    requires max > 0
  {
    cur.offset <= |rs|
    && (cur.offset % max != 0 ==> cur.segment == cur.offset / max && cur.position == PositionOf(rs, max, cur.offset))
  }

  /** The offset stored in a group index file: its first int64, or 0 while the file is shorter
      than that. */
  function GroupOffset(file: seq<byte>): int {
    if |file| < 8 then 0 else match ReadInt64(file, 0) case Success(v) => v.0 case Failure(_) => 0
  }

  /** CreateGroup: take the offset from the group file, position the index reader at its entry
      and the message reader at the position that entry holds. A negative offset is refused by
      the Position setter; an offset with no entry (a group that had read everything) makes the
      entry read throw EndOfStreamException. */
  function CreateGroup(file: seq<byte>, st: Store, max: nat): Result<Cursor, Exception>
    requires max > 0
  {
    if |file| < 8 then Success(Cursor(0, 0, 0))
    else
      var off := GroupOffset(file);
      if off < 0 then Failure(ArgumentOutOfRange("value"))
      else if off >= |st.index| then Failure(EndOfStream)
      else Success(Cursor(off, off / max, st.index[off]))
  }

  /** `b` written at position 0 of `file`: the first |b| bytes replaced, the file lengthened
      if it was shorter. */
  function OverwriteHead(file: seq<byte>, b: seq<byte>): seq<byte> {
    b + (if |file| > |b| then file[|b|..] else [])
  }

  /** Where Consume(groupName) reads the next record: an index entry of 0 means the record opens
      a message file, which is opened for the group's offset and read from its start; any other
      entry is not looked at, and the message reader reads on from where it stands. */
  function ReaderAt(st: Store, max: nat, cur: Cursor): (int, nat)
    requires max > 0 && cur.offset < |st.index|
  {
    if st.index[cur.offset] == 0 then (cur.offset / max, 0) else (cur.segment, cur.position)
  }

  /** Consume(groupName) once the group exists: nothing is read while the index reader is at the
      end of the index; otherwise the next entry is read, and the whole message where ReaderAt
      says. */
  function ConsumeStep(st: Store, max: nat, cur: Cursor): Result<(Option<Message>, Cursor), Exception>
    requires max > 0
  {
    if cur.offset >= |st.index| then Success((None, cur))
    else
      var at := ReaderAt(st, max, cur);
      var m :- ReadMessage(SegmentFile(st, at.0), at.1, cur.offset, true);
      Success((Some(m.0), Cursor(cur.offset + 1, at.0, m.1)))
  }

  /** A new group (empty group file) starts ready at offset 0. */
  lemma NewGroupReady(rs: seq<WritableRecord>, max: nat, file: seq<byte>)
    requires max > 0 && |file| < 8
    ensures CreateGroup(file, StoreOf(rs, max), max) == Success(Cursor(0, 0, 0))
    ensures Ready(rs, max, Cursor(0, 0, 0))
  {
  }

  /** Every cursor CreateGroup yields is ready. */
  lemma CreateGroupReady(rs: seq<WritableRecord>, max: nat, file: seq<byte>)
    requires max > 0 && CreateGroup(file, StoreOf(rs, max), max).Success?
    ensures Ready(rs, max, CreateGroup(file, StoreOf(rs, max), max).value)
  {
    var off := GroupOffset(file);
    if |file| >= 8 {
      DivUnique(0, max, 0, 0);
    }
  }

  /** What a group writes back after reading is what CreateGroup later reads. */
  lemma GroupOffsetSaved(file: seq<byte>, v: int64)
    ensures GroupOffset(OverwriteHead(file, WriteInt64(v))) == v
  {
    var f := OverwriteHead(file, WriteInt64(v));
    var rest := if |file| > 8 then file[8..] else [];
    ReadWriteInt64([], v, rest);
    assert f == [] + WriteInt64(v) + rest;
  }

  /** A group that saved offset `c` resumes at record `c`, in that record's file and at its
      start. */
  lemma ResumeGroup(rs: seq<WritableRecord>, max: nat, file: seq<byte>, c: int64)
    requires max > 0 && 0 <= c < |rs|
    ensures CreateGroup(OverwriteHead(file, WriteInt64(c)), StoreOf(rs, max), max)
            == Success(Cursor(c, c / max, StoreOf(rs, max).index[c]))
  {
    var saved := OverwriteHead(file, WriteInt64(c));
    GroupOffsetSaved(file, c);
    assert |saved| >= 8 && GroupOffset(saved) == c;
  }

  /** A group that had read every record cannot be reopened: the entry read throws. */
  lemma ResumeGroupAtEnd(rs: seq<WritableRecord>, max: nat, file: seq<byte>, c: int64)
    requires max > 0 && c >= |rs|
    ensures CreateGroup(OverwriteHead(file, WriteInt64(c)), StoreOf(rs, max), max) == Failure(EndOfStream)
  {
    var saved := OverwriteHead(file, WriteInt64(c));
    GroupOffsetSaved(file, c);
    assert |saved| >= 8 && GroupOffset(saved) == c;
  }

  /** Where a group stands after consuming record `c`: at offset `c + 1`, in record `c`'s
      message file, just past the record. */
  function CursorAfter(rs: seq<WritableRecord>, max: nat, c: nat): Cursor
    requires max > 0 && c < |rs|
  {
    Cursor(c + 1, c / max, StoreOf(rs, max).index[c] + |EncodeRecord(rs[c])|)
  }

  /** One Consume(groupName) from a ready cursor that is not at the end: the next record comes
      back whole, with its offset, and the cursor moves past it. */
  lemma ConsumeStepSpec(rs: seq<WritableRecord>, max: nat, cur: Cursor)
    requires max > 0 && Ready(rs, max, cur) && cur.offset < |rs|
    ensures ConsumeStep(StoreOf(rs, max), max, cur)
            == Success((Some(MessageOf(rs[cur.offset], cur.offset, true)), CursorAfter(rs, max, cur.offset)))
  {
    var c := cur.offset;
    var st := StoreOf(rs, max);
    SegmentHoldsRecord(rs, max, c);
    ConsumeReadsAtEntry(rs, max, cur);
    var k, p, r := c / max, st.index[c], rs[c];
    ConsumeStepReads(st, max, cur, k, p, r);
    assert CursorAfter(rs, max, c) == Cursor(c + 1, k, p + |EncodeRecord(r)|);
  }

  /** At the end of the index there is no message and the cursor stays where it is. */
  lemma ConsumeStepAtEnd(rs: seq<WritableRecord>, max: nat, cur: Cursor)
    requires max > 0 && cur.offset == |rs|
    ensures ConsumeStep(StoreOf(rs, max), max, cur) == Success((None, cur))
  {
  }

  /** From a ready cursor, the message reader ends up in file `c / max` at entry `c`: either the
      entry is 0 and the file is reopened, or the reader already stands there. */
  lemma ConsumeReadsAtEntry(rs: seq<WritableRecord>, max: nat, cur: Cursor)
    requires max > 0 && Ready(rs, max, cur) && cur.offset < |rs|
    ensures ReaderAt(StoreOf(rs, max), max, cur) == (cur.offset / max, StoreOf(rs, max).index[cur.offset])
  {
    IndexZeroIffSegmentStart(rs, max, cur.offset);
  }

  /** The cursor after record `c` is ready for record `c + 1`. */
  lemma NextReady(rs: seq<WritableRecord>, max: nat, c: nat)
    requires max > 0 && c < |rs|
    ensures Ready(rs, max, CursorAfter(rs, max, c))
  {
    if (c + 1) % max != 0 {
      PositionNext(rs, max, c);
    }
  }

  /** ConsumeStep once the file and position it reads at, and what it reads there, are known. */
  lemma ConsumeStepReads(st: Store, max: nat, cur: Cursor, k: int, p: nat, r: WritableRecord)
    requires max > 0 && cur.offset < |st.index| && 0 <= k < |st.segments|
    requires ReaderAt(st, max, cur) == (k, p)
    requires WindowAt(st.segments[k], p, EncodeRecord(r))
    ensures ConsumeStep(st, max, cur)
            == Success((Some(MessageOf(r, cur.offset, true)), Cursor(cur.offset + 1, k, p + |EncodeRecord(r)|)))
  {
    ReadMessageAt(st.segments[k], p, r, cur.offset, true);
  }

  /** Producing more records keeps every ready cursor ready. */
  lemma ReadyStable(rs: seq<WritableRecord>, r: WritableRecord, max: nat, cur: Cursor)
    requires max > 0 && Ready(rs, max, cur)
    ensures Ready(rs + [r], max, cur)
  {
    if cur.offset % max != 0 {
      PositionStable(rs, r, max, cur.offset);
    }
  }

  // ---- the produce offset on start-up ----

  /** The constructor's recovery of ProduceOffset from an existing index file, as written:
      Seek(8, SeekOrigin.End) moves 8 bytes past the end, so the ReadInt64 that follows fails for
      every index file that is at least 8 bytes long. */
  function RestartOffsetAsWritten(indexFile: seq<byte>): Result<int, Exception> {
    if |indexFile| >= 8 then
      match ReadInt64(indexFile, |indexFile| + 8)
      case Success(v) => Success(v.0)
      case Failure(e) => Failure(e)
    else Success(0)
  }

  lemma RestartAsWrittenFails(indexFile: seq<byte>)
    requires |indexFile| >= 8
    ensures RestartOffsetAsWritten(indexFile) == Failure(EndOfStream)
  {
  }

  /** The offset the next Produce must take: one index entry of 8 bytes per record produced. */
  function RestartOffset(indexFile: seq<byte>): nat {
    |indexFile| / 8
  }

  /** An index file holding `n` entries gives back `n`. */
  lemma RestartRecoversCount(indexFile: seq<byte>, n: nat)
    requires |indexFile| == 8 * n
    ensures RestartOffset(indexFile) == n
  {
    DivUnique(|indexFile|, 8, n, 0);
  }
}
