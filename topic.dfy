/**
  Gruppo.MessageBroker.Topic: one topic's message files, its index file, its produce offset
  and its consumer groups, held in memory.

  A topic is opened on a fresh directory (an empty index and no group files). The execution
  guard's answer (ExecutionGuard.EnterExecute) is the `admitted` parameter of each operation,
  and the clock's reading (DateTime.UtcNow) the `now` parameter of Produce. The ghost field
  `records` is every record produced so far; Valid() says that the files are exactly what
  producing them on a fresh topic leaves behind, and that every group's readers stand where
  the next record of that group starts.
*/
module TopicStore {
  import opened Wrappers
  import opened Exceptions
  import opened Binary
  import FileSystem
  import TopicName
  import opened TopicLog
  import opened TopicRead

  /** TopicStatistics as GetStats fills it. */
  datatype TopicStatistics = TopicStatistics(storageDirectory: FileSystem.Path, messageCount: int)

  /** A consumer group: its readers' state and the contents of its group index file. */
  datatype Group = Group(cursor: Cursor, indexFile: seq<byte>)

  class Topic {
    const name: string
    const settings: TopicName.GruppoSettings
    const fileSystem: FileSystem.HardDriveFileSystem
    /** Settings.MaxMessagesInMessageFile. */
    const max: nat
    /** The offset the next Produce hands out. */
    var produceOffset: int
    /** The message files, numbered from 0; Produce writes to the last one. */
    var segments: seq<seq<byte>>
    /** The entries of the index file. */
    var index: seq<nat>
    var groups: map<string, Group>
    ghost var records: seq<WritableRecord>

    ghost predicate Valid()
      reads this
    {
      FilesValid() && GroupsValid(groups, records, max)
    }

    /** The message files and the index are those of `records`, and the produce offset counts
        them. */
    ghost predicate FilesValid()
      reads this`segments, this`index, this`produceOffset, this`records
    {
      && max > 0 && max == settings.maxMessagesInMessageFile
      && fileSystem == FileSystem.New(settings.storageDirectory, name)
      && Store(segments, index) == StoreOf(records, max)
      && produceOffset == |records| < TwoTo63
    }

    /** The state a successful constructor leaves: the produce offset recovered from the empty
        index file, one empty message file, no groups. */
    constructor (name: string, settings: TopicName.GruppoSettings)
      requires settings.maxMessagesInMessageFile > 0
      ensures Valid()
      ensures this.name == name && this.settings == settings
      ensures records == [] && groups == map[] && produceOffset == 0
    {
      this.name := name;
      this.settings := settings;
      fileSystem := FileSystem.New(settings.storageDirectory, name);
      max := settings.maxMessagesInMessageFile;
      produceOffset := RestartOffset([]);
      segments := [[]];
      index := [];
      groups := map[];
      records := [];
    }

    /** The Topic constructor: its argument checks in order, then a fresh topic. */
    static method Open(name: Option<string>, settings: Option<TopicName.GruppoSettings>, hasFactory: bool)
      returns (r: Result<Topic, Exception>)
      requires settings.Some? ==> settings.value.maxMessagesInMessageFile > 0
      ensures r.Success? <==> TopicName.ConstructionCheck(name, settings, hasFactory).Success?
      ensures r.Failure? ==> r.error == TopicName.ConstructionCheck(name, settings, hasFactory).error
      ensures r.Success? ==> fresh(r.value) && r.value.Valid() && r.value.name == name.value
                             && r.value.settings == settings.value && r.value.records == [] && r.value.groups == map[]
    {
      var checked := TopicName.ConstructionCheck(name, settings, hasFactory);
      if checked.Failure? {
        return Failure(checked.error);
      }
      var t := new Topic(checked.value.0, checked.value.1);
      r := Success(t);
    }

    /** GetStats: the topic directory and the number of messages produced. */
    method GetStats() returns (s: TopicStatistics)
      requires Valid()
      ensures s.storageDirectory == [settings.storageDirectory, "topics", name]
      ensures s.messageCount == |records|
    {
      s := TopicStatistics(fileSystem.topicDirectory, produceOffset);
    }

    /** Produce: the record goes to the end of the last message file, its start position to the
        index, and the offset handed out is the old produce offset; a multiple of `max` messages
        opens the next message file. A refused call changes nothing and answers false, -1 and
        DateTime.MinValue. */
    method Produce(message: Message, now: int, admitted: bool) returns (ok: bool, offset: int, timestamp: int)
      requires Valid() && Writable(RecordOf(message, now)) && produceOffset + 1 < TwoTo63
      modifies this
      ensures Valid() && groups == old(groups)
      ensures ok == admitted
      ensures !admitted ==> offset == -1 && timestamp == 0 && records == old(records)
                            && segments == old(segments) && index == old(index) && produceOffset == old(produceOffset)
      ensures admitted ==> offset == old(produceOffset) && timestamp == now
                           && records == old(records) + [RecordOf(message, now)]
    {
      if !admitted {
        return false, -1, 0;
      }
      ghost var before := records;
      ghost var r: WritableRecord := RecordOf(message, now);
      timestamp := now;
      var k := |segments| - 1;
      var beginOffset := |segments[k]|;
      var file := WriteMessage(segments[k], message, now);
      var written := segments[k := file];
      offset := produceOffset;
      var count := produceOffset + 1;
      var rolled := if count % max == 0 then written + [[]] else written;
      ProduceStep(before, r, max, segments, index, file, count);
      assert StoreOf(before + [r], max) == Store(rolled, index + [beginOffset]);
      produceOffset := count;
      index := index + [beginOffset];
      segments := rolled;
      records := before + [r];
      GroupsStayReady(groups, before, r, max);
      ok := true;
    }

    /** Produce's writes to the message file: Write(timestamp.Ticks), Write(meta ?? ""), then
        Write(0) for a null body, or the body's length and the body. Together they append
        exactly the encoding of the message's record. */
    static method WriteMessage(file: seq<byte>, message: Message, now: int) returns (written: seq<byte>)
      requires Writable(RecordOf(message, now))
      ensures written == file + EncodeRecord(RecordOf(message, now))
    {
      written := file + WriteInt64(now);
      written := written + WriteString(message.meta.GetOr([]));
      if message.body.None? {
        written := written + WriteInt32(0);
      } else {
        written := written + WriteInt32(|message.body.value|);
        written := written + message.body.value;
      }
      AppendRecordBytes(file, message, now);
    }

    /** Consume(offset): the message at that offset, body included. */
    method ConsumeOffset(offset: int, admitted: bool) returns (r: Result<Option<Message>, Exception>)
      requires Valid()
      ensures !admitted ==> r == Success(None)
      ensures admitted && offset < 0 ==> r == Failure(IOError)
      ensures admitted && offset >= |records| ==> r == Failure(EndOfStream)
      ensures admitted && 0 <= offset < |records| ==> r == Success(Some(MessageOf(records[offset], offset, true)))
    {
      if !admitted {
        return Success(None);
      }
      if offset < 0 {
        return Failure(IOError);
      }
      if offset >= |index| {
        return Failure(EndOfStream);
      }
      var beginOffset := index[offset];
      var read := ReadMessage(SegmentFile(Store(segments, index), offset / max), beginOffset, offset, true);
      ConsumeAtSpec(records, max, offset);
      r := Success(Some(read.value.0));
    }

    /** Peek(offset), with the end-of-index guard that answers "no message" for every offset
        not produced yet: the message at that offset without its body. */
    method Peek(offset: int, admitted: bool) returns (r: Result<Option<Message>, Exception>)
      requires Valid()
      ensures !admitted ==> r == Success(None)
      ensures admitted && offset >= |records| ==> r == Success(None)
      ensures admitted && offset < 0 ==> r == Failure(ArgumentOutOfRange("value"))
      ensures admitted && 0 <= offset < |records| ==> r == Success(Some(MessageOf(records[offset], offset, false)))
    {
      if !admitted {
        return Success(None);
      }
      var position := offset * 8;
      if position >= |index| * 8 {
        return Success(None);
      }
      if position < 0 {
        return Failure(ArgumentOutOfRange("value"));
      }
      var messagePosition := index[offset];
      var read := ReadMessage(SegmentFile(Store(segments, index), offset / max), messagePosition, offset, false);
      PeekSpec(records, max, offset);
      r := Success(Some(read.value.0));
    }

    /** Consume(groupName): find or create the group, then read its next message. */
    method ConsumeGroup(groupName: string, admitted: bool) returns (r: Result<Option<Message>, Exception>)
      requires Valid()
      modifies this`groups
      ensures Valid() && records == old(records)
      ensures segments == old(segments) && index == old(index) && produceOffset == old(produceOffset)
      ensures !admitted ==> r == Success(None) && groups == old(groups)
      ensures admitted ==>
                var g := GroupOrNew(old(groups), groupName);
                var c := g.cursor.offset;
                && (c == |records| ==> r == Success(None) && groups == old(groups)[groupName := g])
                && (c < |records| ==> r == Success(Some(MessageOf(records[c], c, true)))
                                      && groups == old(groups)[groupName := GroupAfter(g, records, max)])
    {
      if !admitted {
        return Success(None);
      }
      ghost var g := GroupOrNew(groups, groupName);
      FindGroup(groupName);
      assert groups == old(groups)[groupName := g];
      r := ConsumeNext(groupName);
    }

    /** The lookup of Consume(groupName): a group seen for the first time is created from its
        group index file, which does not exist yet and is created empty, so it starts at offset 0. */
    method FindGroup(groupName: string)
      requires Valid()
      modifies this`groups
      ensures Valid() && records == old(records)
      ensures segments == old(segments) && index == old(index) && produceOffset == old(produceOffset)
      ensures groupName in old(groups) ==> groups == old(groups)
      ensures groupName !in old(groups) ==> groups == old(groups)[groupName := Group(Cursor(0, 0, 0), [])]
    {
      if groupName !in groups {
        var created := CreateGroup([], Store(segments, index), max);
        NewGroupReady(records, max, []);
        GroupsUpdate(groups, groupName, Group(created.value, []), records, max);
        groups := groups[groupName := Group(created.value, [])];
      }
    }

    /** The read of Consume(groupName): nothing while the group's index reader is at the end of
        the index; otherwise the group reads its next message, moves past it, and its new offset
        is written at the start of its group index file. */
    method ConsumeNext(groupName: string) returns (r: Result<Option<Message>, Exception>)
      requires Valid() && groupName in groups
      modifies this`groups
      ensures Valid() && records == old(records)
      ensures segments == old(segments) && index == old(index) && produceOffset == old(produceOffset)
      ensures var g := old(groups)[groupName];
              var c := g.cursor.offset;
              && (c == |records| ==> r == Success(None) && groups == old(groups))
              && (c < |records| ==> r == Success(Some(MessageOf(records[c], c, true)))
                                    && groups == old(groups)[groupName := GroupAfter(g, records, max)])
      ensures r.Success? && groupName in groups
      ensures ConsumeStep(Store(segments, index), max, old(groups)[groupName].cursor) == Success((r.value, groups[groupName].cursor))
    {
      var group := groups[groupName];
      if group.cursor.offset < |index| {
        var message, next := ReadGroupMessage(group.cursor);
        var advanced := Group(next, OverwriteHead(group.indexFile, WriteInt64(next.offset)));
        assert advanced == GroupAfter(group, records, max);
        GroupsAdvance(groups, groupName, records, max);
        groups := groups[groupName := advanced];
        r := Success(Some(message));
      } else {
        r := Success(None);
      }
    }

    /** A group's read of its next message: the next index entry is read (0: the message file
        for the group's offset is reopened and read from its start), then the message where the
        message reader stands, body included; the group's offset moves on by one. This is one
        ConsumeStep, so from a ready cursor it is record `cur.offset`, and the cursor after it is
        ready for the next one. */
    method ReadGroupMessage(cur: Cursor) returns (message: Message, next: Cursor)
      requires Valid() && Ready(records, max, cur) && cur.offset < |index|
      ensures ConsumeStep(Store(segments, index), max, cur) == Success((Some(message), next))
      ensures message == MessageOf(records[cur.offset], cur.offset, true)
      ensures next == CursorAfter(records, max, cur.offset) && Ready(records, max, next)
    {
      var messagePosition := index[cur.offset];
      var segment, position := cur.segment, cur.position;
      if messagePosition == 0 {
        segment, position := cur.offset / max, 0;
      }
      ConsumeStepSpec(records, max, cur);
      NextReady(records, max, cur.offset);
      var read := ReadMessage(SegmentFile(Store(segments, index), segment), position, cur.offset, true);
      assert (segment, position) == ReaderAt(Store(segments, index), max, cur);
      message := read.value.0;
      next := Cursor(cur.offset + 1, segment, read.value.1);
    }
  }

  /** The group Consume(groupName) finds: the one already open, or a new one on an empty group
      index file. */
  function GroupOrNew(groups: map<string, Group>, name: string): Group {
    if name in groups then groups[name] else Group(Cursor(0, 0, 0), [])
  }

  /** A group after it consumed record `c`, its offset: its readers stand past the record and
      its group index file starts with `c + 1`. */
  function GroupAfter(g: Group, rs: seq<WritableRecord>, max: nat): Group
    requires max > 0 && g.cursor.offset < |rs| < TwoTo63
  {
    Group(CursorAfter(rs, max, g.cursor.offset), OverwriteHead(g.indexFile, WriteInt64(g.cursor.offset + 1)))
  }

  /** Consuming keeps a group valid: its readers are ready for record `c + 1`, which is also the
      offset its group index file now holds. */
  lemma GroupAfterValid(g: Group, rs: seq<WritableRecord>, max: nat)
    requires max > 0 && g.cursor.offset < |rs| < TwoTo63
    ensures var h := GroupAfter(g, rs, max);
      && h.cursor.offset == g.cursor.offset + 1
      && Ready(rs, max, h.cursor) && GroupOffset(h.indexFile) == h.cursor.offset
  {
    NextReady(rs, max, g.cursor.offset);
    GroupOffsetSaved(g.indexFile, g.cursor.offset + 1);
  }

  /** One group consuming a record keeps all groups valid. */
  lemma GroupsAdvance(groups: map<string, Group>, name: string, rs: seq<WritableRecord>, max: nat)
    requires max > 0 && GroupsValid(groups, rs, max) && name in groups
    requires groups[name].cursor.offset < |rs| < TwoTo63
    ensures GroupsValid(groups[name := GroupAfter(groups[name], rs, max)], rs, max)
  {
    GroupAfterValid(groups[name], rs, max);
    GroupsUpdate(groups, name, GroupAfter(groups[name], rs, max), rs, max);
  }

  /** Every group is ready, and its group index file holds its offset. */
  ghost predicate GroupsValid(groups: map<string, Group>, rs: seq<WritableRecord>, max: nat)
    requires max > 0
  {
    forall g :: g in groups ==> Ready(rs, max, groups[g].cursor) && GroupOffset(groups[g].indexFile) == groups[g].cursor.offset
  }

  lemma GroupsUpdate(groups: map<string, Group>, name: string, group: Group, rs: seq<WritableRecord>, max: nat)
    requires max > 0 && GroupsValid(groups, rs, max)
    requires Ready(rs, max, group.cursor) && GroupOffset(group.indexFile) == group.cursor.offset
    ensures GroupsValid(groups[name := group], rs, max)
  {
  }

  /** Produce's writes append exactly the record's encoding; a null body is written as length 0
      and nothing else. */
  lemma AppendRecordBytes(file: seq<byte>, message: Message, now: int)
    requires Writable(RecordOf(message, now))
    ensures message.body.None? ==>
              file + WriteInt64(now) + WriteString(message.meta.GetOr([])) + WriteInt32(0)
              == file + EncodeRecord(RecordOf(message, now))
    ensures message.body.Some? ==>
              file + WriteInt64(now) + WriteString(message.meta.GetOr([])) + WriteInt32(|message.body.value|) + message.body.value
              == file + EncodeRecord(RecordOf(message, now))
  {
  }

  /** Produce's steps on the files are one Append: the record goes to the end of the last
      message file, its start to the index, and the count reaching a multiple of `max` opens a
      new, empty message file. */
  lemma ProduceStep(rs: seq<WritableRecord>, r: WritableRecord, max: nat, segments: seq<seq<byte>>, index: seq<nat>,
                    file: seq<byte>, count: int)
    requires max > 0 && Store(segments, index) == StoreOf(rs, max) && count == |rs| + 1
    requires file == segments[|segments| - 1] + EncodeRecord(r)
    ensures var k := |segments| - 1;
      var written := segments[k := file];
      StoreOf(rs + [r], max) == Store(if count % max == 0 then written + [[]] else written, index + [|segments[k]|])
  {
    StoreOfAppend(rs, r, max);
  }

  /** Producing a record keeps every group valid. */
  lemma GroupsStayReady(groups: map<string, Group>, before: seq<WritableRecord>, r: WritableRecord, max: nat)
    requires max > 0 && GroupsValid(groups, before, max)
    ensures GroupsValid(groups, before + [r], max)
  {
    forall g | g in groups
      ensures Ready(before + [r], max, groups[g].cursor)
    {
      ReadyStable(before, r, max, groups[g].cursor);
    }
  }
}
