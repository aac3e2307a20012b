# Gruppo topic log, wire envelope and socket framing in Dafny

This project models the core of Gruppo, a small message broker written in C#, and proves
properties of the model.

## What is modelled

**The topic log (`Gruppo.MessageBroker.Topic`).** The model is the class `TopicStore.Topic`.
It holds the topic's state in memory:
- the message files, each a byte sequence;
- the entries of the index file (one byte position per offset);
- the produce offset;
- the consumer groups, as a map from name to group (a cursor plus that group's index file).

`Produce` appends one record, with the BinaryWriter encodings:
- the tick count as a little-endian int64;
- the meta bytes after their 7-bit encoded length;
- the body length as an int32;
- the body.

Produce also appends the start position of the record to the index. When the message count
reaches a multiple of MaxMessagesInMessageFile, the next message file is opened.

`Consume(offset)`, `Peek(offset)` and `Consume(groupName)` read records back with the
ReadMessage decoder. A ghost field, `records`, holds every record produced so far. The class
invariant says two things:
- the files are exactly `StoreOf(records, max)`, the value that producing those records on a
  fresh topic yields (module `TopicLog`);
- every group's readers stand where its next record starts (module `TopicRead`).

Every method is proved against these functions:
- Produce appends exactly one record.
- Consume(offset) gives back exactly what was produced.
- Peek gives the same record without its body.
- A group reads the records in order. It reopens the message file at each index entry of 0, which
  occurs exactly at the multiples of `max`. It saves its next offset at the front of its group
  index file.

**Topic names and argument guards.** The model covers the topic constructor's checks, in order:
1. the regular expression `^[\d\-\.a-z]*$`, with the .NET meaning of `$` and `\d`;
2. `NotNull` for the settings;
3. `NotNullOrEmpty` for the name;
4. `NotNull` for the file-system factory.

The guards of `GruppoClient.Utilities.Extensions` are modelled with them.

**Storage naming (`HardDriveFileSystem`).** The directory layout, `FileName` with the `00000`
number format, `EnumerateFiles` and the group index file path are pure functions over paths. A
path is a list of components joined by `Path.Combine`.

**The message envelope (`MessageHeader`).** The model covers:
- the 18-byte header: four version bytes, then MetaSize and BodySize little-endian, then four
  zero bytes;
- the Version setter;
- the loop in SerializeHeader that fills the array;
- DeserializeHeader.

**The socket client (`SocketClient`).** The model covers:
- the process-wide id counter;
- Send, header first, then meta, then the body through the chunked copy loop;
- the DoReadState read loop over the bytes that arrive before the peer closes, recorded as a
  trace of start, message and stop callbacks.

A framing round trip shows that the read loop delivers the frames Send wrote as the same
messages, in order.

**External inputs.** These become parameters of the model:
- the execution guard's answer (ExecutionGuard.EnterExecute) is `admitted`;
- the clock (DateTime.UtcNow) is `now`, a tick count;
- meta strings are held as their UTF-8 bytes;
- the header version, a .NET string, is held as its UTF-16 code units;
- a .NET null is `None`;
- an exception is a `Failure` naming the .NET exception.

**Facts of the code the model follows:**
- The topic-name pattern `[\d\-\.a-z]` has no underscore.
- A group reopens the message file at every index entry of 0, offset 0 included.
- Consume(offset) past the end throws EndOfStreamException rather than answering "no message".
- The Version setter counts UTF-16 code units, so a version is a sequence of code units here.

**Where the model corrects the code** (the two rows under "## Findings"):
- The produce offset recovered on start-up is the index length / 8 (`TopicRead.RestartOffset`). As written, the recovery reads past the end of the index (`TopicRead.RestartOffsetAsWritten`).
- The class's `Peek` uses the guard `8 * offset >= length`, so the next offset to be produced answers null. As written, the guard is `>` and that call throws EndOfStreamException (`TopicRead.PeekAsWritten`).

## Model

| member | source | states |
|---|---|---|
| TopicStore.Topic.constructor | Gruppo/MessageBroker/Topic.cs:23-53 | a topic opened on a fresh directory: invariant established, no records, no groups, produce offset 0 as recovered from the empty index |
| TopicStore.Topic.Open | Gruppo/MessageBroker/Topic.cs:23-36 | fails exactly when the constructor's checks fail, with their exception; otherwise a fresh, valid topic with that name and those settings |
| TopicStore.Topic.GetStats | Gruppo/MessageBroker/Topic.cs:199-209 | StorageDirectory is baseDir/"topics"/name and MessageCount is the number of messages produced |
| TopicStore.Topic.Produce | Gruppo/MessageBroker/Topic.cs:242-290 | refused: false, offset -1, timestamp DateTime.MinValue, nothing written; admitted: true, offset = the old produce offset (so 0, 1, 2, … on a fresh topic), timestamp = the clock, records grow by exactly this message's record, the files stay those of the records (the invariant), the groups are untouched |
| TopicStore.Topic.WriteMessage | Gruppo/MessageBroker/Topic.cs:251-262 | the writes append exactly the record's encoding to the message file: a null meta as "", a null body as length 0 and no bytes |
| TopicStore.ProduceStep | Gruppo/MessageBroker/Topic.cs:252-297 | the record appended to the last message file, its start position appended to the index, and a new empty file opened when the count becomes a multiple of max, together are one Append: the files of the records plus this one |
| TopicStore.AppendRecordBytes | Gruppo/MessageBroker/Topic.cs:253-261 | both branches of the body write (null body, body present) append exactly EncodeRecord(RecordOf(message, now)) |
| TopicStore.GroupsStayReady | Gruppo/MessageBroker/Topic.cs:252-268 | producing a record leaves every group's readers where its next record starts |
| TopicStore.Topic.ConsumeOffset | Gruppo/MessageBroker/Topic.cs:147-169 | refused: null; a negative offset: IOException; an offset not produced yet: EndOfStreamException; otherwise the record produced at that offset with its offset, timestamp, meta and body |
| TopicStore.Topic.Peek | Gruppo/MessageBroker/Topic.cs:211-240 | with the guard `>=`: refused or not produced yet: null; negative: ArgumentOutOfRangeException; otherwise the record at that offset with its body left null |
| TopicStore.Topic.ConsumeGroup | Gruppo/MessageBroker/Topic.cs:91-145 | refused: null, nothing changes; otherwise the group found, or a new one at offset 0. At the end of the index: null, and only that group is added. Otherwise: the record at the group's offset, body included; only that group moves on by one and saves its new offset. The files and the other groups are unchanged and the invariant holds |
| TopicStore.Topic.FindGroup | Gruppo/MessageBroker/Topic.cs:97-105 | an open group is kept; an unseen one is added at offset 0 with an empty group index file; nothing else changes |
| TopicStore.Topic.ConsumeNext | Gruppo/MessageBroker/Topic.cs:107-136 | the index reader at the end: null and no change; otherwise the group's next record with its body, and only that group becomes GroupAfter (one offset on, readers past the record, the new offset at the head of its file); in both cases the answer and the new cursor are one ConsumeStep |
| TopicStore.Topic.ReadGroupMessage | Gruppo/MessageBroker/Topic.cs:115-126 | the read is one ConsumeStep of the cursor; from a ready cursor the message is record `offset` with its body and the cursor after it is ready for the next record |
| TopicStore.GroupAfterValid | Gruppo/MessageBroker/Topic.cs:126-130 | after consuming, the group's offset is one more, its readers are ready, and its group index file holds that offset |
| TopicStore.GroupsAdvance | Gruppo/MessageBroker/Topic.cs:107-131 | one group consuming a record keeps every group valid |
| TopicRead.ConsumeAtSpec | Gruppo/MessageBroker/Topic.cs:147-182 | Consume(offset) returns exactly the record produced at that offset; negative offsets and offsets not produced yet throw IOException and EndOfStreamException |
| TopicRead.PeekSpec | Gruppo/MessageBroker/Topic.cs:211-231 | corrected Peek: the record at a produced offset without its body, null for every offset not produced yet, ArgumentOutOfRangeException for a negative one |
| TopicRead.PeekIsConsumeWithoutBody | Gruppo/MessageBroker/Topic.cs:171-182 | on every produced offset Peek is Consume with the body left null |
| TopicRead.PeekAsWrittenAtEnd | Gruppo/MessageBroker/Topic.cs:220-228 | as written, Peek of the next offset to be produced throws EndOfStreamException where the corrected guard answers null |
| TopicRead.PeekAsWrittenElsewhere | Gruppo/MessageBroker/Topic.cs:220-225 | on every other offset the written guard and the corrected one agree |
| TopicRead.NewGroupReady | Gruppo/MessageBroker/Topic.cs:72-80 | a group index file shorter than 8 bytes gives offset 0 at the start of message file 0, ready |
| TopicRead.CreateGroupReady | Gruppo/MessageBroker/Topic.cs:65-87 | every cursor CreateGroup yields stands where its next record starts |
| TopicRead.ResumeGroup | Gruppo/MessageBroker/Topic.cs:65-87 | a group that saved offset c < count resumes at c, in message file c / max, at index entry c |
| TopicRead.ResumeGroupAtEnd | Gruppo/MessageBroker/Topic.cs:77-79 | a group that saved an offset at or past the end cannot be hydrated: the index read throws EndOfStreamException |
| TopicRead.GroupOffsetSaved | Gruppo/MessageBroker/Topic.cs:128-130 | the int64 a group writes at position 0 of its file is the offset CreateGroup reads back |
| TopicRead.ConsumeStepSpec | Gruppo/MessageBroker/Topic.cs:107-131 | from a ready cursor before the end, one Consume(groupName) yields the next record whole and the cursor just past it |
| TopicRead.ConsumeStepAtEnd | Gruppo/MessageBroker/Topic.cs:132-135 | at the end of the index there is no message and the cursor stays |
| TopicRead.ConsumeReadsAtEntry | Gruppo/MessageBroker/Topic.cs:115-122 | from a ready cursor the message reader ends in file offset / max at the record's index entry, reopened or not |
| TopicRead.NextReady | Gruppo/MessageBroker/Topic.cs:125-126 | the cursor after record c is ready for record c + 1 |
| TopicRead.ReadyStable | Gruppo/MessageBroker/Topic.cs:252-268 | producing more records keeps every ready cursor ready |
| TopicRead.RestartAsWrittenFails | Gruppo/MessageBroker/Topic.cs:41-44 | as written, recovery of the produce offset from an index of at least 8 bytes reads past the end and throws EndOfStreamException |
| TopicRead.RestartRecoversCount | Gruppo/MessageBroker/Topic.cs:37-46 | corrected recovery: an index file of n entries gives produce offset n |
| TopicLog.ReadMessageOfRecord | Gruppo/MessageBroker/Topic.cs:171-182 | record codec round trip: reading where a record was written gives back its ticks, meta and body (no body for Peek), and the position after it |
| TopicLog.ReadMessageAt | Gruppo/MessageBroker/Topic.cs:171-182 | the same wherever a record's encoding lies in a file, whatever surrounds it |
| TopicLog.EncodeRecordLength | Gruppo/MessageBroker/Topic.cs:253-261 | every record takes at least 13 bytes, so consecutive records start at distinct positions |
| TopicLog.StoreOfAppend | Gruppo/MessageBroker/Topic.cs:242-275 | the files after n + 1 Produce calls are one Append to the files after n |
| TopicLog.StoreShape | Gruppo/MessageBroker/Topic.cs:271-275 | after n messages there are n / max + 1 message files |
| TopicLog.ActiveEmpty | Gruppo/MessageBroker/Topic.cs:271-275 | the message file being written is empty exactly when the count is a multiple of max |
| TopicLog.IndexZeroIffSegmentStart | Gruppo/MessageBroker/Topic.cs:117-122 | index entry i is 0 exactly when i is a multiple of max: the signal Consume(groupName) reopens on |
| TopicLog.IndexPrefix | Gruppo/MessageBroker/Topic.cs:252-267 | index entry i is the length the message file being written had before record i |
| TopicLog.PositionStable | Gruppo/MessageBroker/Topic.cs:252-267 | a later Produce changes neither earlier index entries nor where an earlier record starts |
| TopicLog.SegmentGrows | Gruppo/MessageBroker/Topic.cs:253-261 | message files only grow by appending: each earlier state is a prefix of the later one |
| TopicLog.SegmentHoldsRecord | Gruppo/MessageBroker/Topic.cs:252-267 | record i lies in message file i / max starting at index entry i |
| TopicLog.ReadBack | Gruppo/MessageBroker/Topic.cs:153-159 | reading record i from message file i / max at index entry i gives it back |
| TopicLog.PositionNext | Gruppo/MessageBroker/Topic.cs:125-126 | within one message file, record i + 1 starts where record i ends |
| TopicLog.Append | Gruppo/MessageBroker/Topic.cs:264-275 | one Produce adds exactly one index entry and keeps a message file to write to |
| TopicName.ConstructionCheck | Gruppo/MessageBroker/Topic.cs:25-33 | the checks in order: a null name is ArgumentNullException("input"), a name outside the pattern InvalidTopicNameException, then the settings, the blank name and the factory as ArgumentNullException with their parameter names; success exactly when all pass |
| TopicName.AsciiNameAccepted | Gruppo/MessageBroker/Topic.cs:25-32 | for ASCII names without a line feed: accepted exactly when non-empty and every character is 0-9, '-', '.' or a-z; any other character is InvalidTopicNameException |
| TopicName.ClassNameAccepted | Gruppo/MessageBroker/Topic.cs:25-32 | a non-empty name of 0-9, '-', '.', a-z passes every check unchanged |
| TopicName.ValidTestNames | Gruppo/MessageBroker/Topic.cs:25-32 | "word", "word-again", "123-topic", "topic-george", "topic.stuff" are accepted |
| TopicName.InvalidTestNames | Gruppo/MessageBroker/Topic.cs:25-26 | "Test", "*junk", "stuff/more", "stuff\\more", "weird\nstuff", "don't", "do this", "OrThis" throw InvalidTopicNameException |
| TopicName.UnderscoreRejected | Gruppo/MessageBroker/Topic.cs:25-26 | "test_topic_a" is rejected: '_' is not in the class |
| TopicName.BlankNamesRefused | Gruppo/MessageBroker/Topic.cs:25-32 | "" and "\n" pass the pattern and are refused as blank with ArgumentNullException("topicName") |
| TopicName.BlankAccepted | Gruppo/MessageBroker/Topic.cs:25-32 | the only blank names the pattern accepts are "" and "\n" |
| TopicName.BlankCheckAfterPattern | Gruppo/MessageBroker/Topic.cs:25-32 | among names the pattern accepts, the checks pass exactly for those other than "" and "\n" |
| TopicName.WhiteSpaceOutsideClass | Gruppo/MessageBroker/Topic.cs:25 | no white-space character is in the class |
| TopicName.AsciiInClass | Gruppo/MessageBroker/Topic.cs:25 | on ASCII, `\d` is exactly 0-9 |
| TopicName.TrailingLineFeedAccepted | Gruppo/MessageBroker/Topic.cs:25 | "abc\n" is accepted, line feed included, because `$` matches before a final line feed |
| TopicName.UnicodeDigitAccepted | Gruppo/MessageBroker/Topic.cs:25 | a name with the Arabic-Indic digit U+0661 is accepted, because `\d` is any decimal digit |
| Extensions.NotNull | GruppoClient/Utilities/Extensions.cs:16-24 | fails exactly for null, with ArgumentNullException(name); otherwise returns its argument unchanged |
| Extensions.NotNullOrEmpty | GruppoClient/Utilities/Extensions.cs:26-34 | fails exactly for null, empty and all-white-space strings, with ArgumentNullException(name); otherwise returns the string unchanged |
| FileSystem.New | Gruppo/Storage/HardDriveFileSystem.cs:12-22 | TopicDirectory is baseDir/"topics"/topic and the index, messages and group_indexes directories are its children of those names |
| FileSystem.DirectoriesDistinct | Gruppo/Storage/HardDriveFileSystem.cs:14-17 | the three data directories are distinct children of the topic directory |
| FileSystem.Pad5Spec | Gruppo/Storage/HardDriveFileSystem.cs:58-61 | "{id:00000}" of 0 ≤ n ≤ 99999 is five digits worth n; above that, the plain numeral, longer than five digits and not truncated |
| FileSystem.DecimalDigitsValue | Gruppo/Storage/HardDriveFileSystem.cs:58-61 | the numeral of n has the value n |
| FileSystem.DecimalDigitsLength | Gruppo/Storage/HardDriveFileSystem.cs:58-61 | the numeral of n has at most k digits exactly when n < 10^k |
| FileSystem.FormatIdSign | Gruppo/Storage/HardDriveFileSystem.cs:58-61 | the formatted id starts with '-' exactly for negative ids |
| FileSystem.FormatIdInjective | Gruppo/Storage/HardDriveFileSystem.cs:58-61 | distinct ids format differently |
| FileSystem.FileNameInListedDirectory | Gruppo/Storage/HardDriveFileSystem.cs:36-63 | every file FileName names lies directly in the directory EnumerateFiles lists for that type (index for Index, messages for Message and any other value), named "index_"/"messages_" + the padded id + ".bin" |
| FileSystem.FileNamesDistinct | Gruppo/Storage/HardDriveFileSystem.cs:53-75 | distinct ids, or an index and a message file, never share a path, and none is a group index file |
| Envelope.Serialize | GruppoClient/Communications/MessageEnvelope.cs:46-64 | the serialised header is BinarySize = 18 bytes |
| Envelope.SerializeLayout | GruppoClient/Communications/MessageEnvelope.cs:58-61 | bytes 0-3 are the low 8 bits of the version's first four UTF-16 code units, 4-5 MetaSize and 6-13 BodySize little-endian, 14-17 zero |
| Envelope.DeserializeSerialize | GruppoClient/Communications/MessageEnvelope.cs:52-83 | deserialising a serialised header with an ASCII version gives back version, MetaSize and BodySize |
| Envelope.SerializeDeserialize | GruppoClient/Communications/MessageEnvelope.cs:52-83 | an 18-byte header with zero trailing bytes that decodes is the serialisation of what it decodes to |
| Envelope.DeserializeFirstFourteen | GruppoClient/Communications/MessageEnvelope.cs:78-80 | DeserializeHeader depends on the first fourteen bytes only |
| Envelope.HeaderExample | GruppoClient/Communications/MessageEnvelope.cs:52-83 | "9.99", 100, 1048576 serialise to 18 bytes and come back unchanged |
| Envelope.MessageHeader.constructor | GruppoClient/Communications/MessageEnvelope.cs:11-14 | a new header has version "1.00" and zero sizes |
| Envelope.MessageHeader.SetVersion | GruppoClient/Communications/MessageEnvelope.cs:21-31 | null, empty or not four UTF-16 code units: ArgumentOutOfRangeException and the old value kept; any four-code-unit string is taken, ASCII or not, a surrogate pair counting as two; the sizes do not change |
| Envelope.SurrogateVersionBytes | GruppoClient/Communications/MessageEnvelope.cs:58-59 | "ab" plus U+1F600 (four code units, so the setter takes it) is written as 61 62 3D 00: the `(byte)` cast keeps the low byte of each surrogate |
| Envelope.MessageHeader.SerializeHeader | GruppoClient/Communications/MessageEnvelope.cs:52-64 | the array filled byte by byte is exactly Serialize of the header's fields |
| Binary.ReadWriteInt64 | Gruppo/MessageBroker/Topic.cs:175 | ReadInt64 gives back the int64 Write(long) wrote, negative values included |
| Binary.ReadWriteInt32 | Gruppo/MessageBroker/Topic.cs:177 | ReadInt32 gives back the int32 Write(int) wrote |
| Binary.ReadWrite7Bit | Gruppo/MessageBroker/Topic.cs:176 | the 7-bit encoded length of any .NET string reads back |
| Binary.ReadWrite7BitFrom | Gruppo/MessageBroker/Topic.cs:176 | the same from any byte of the encoding, within what the reader still accepts there |
| Binary.ReadWriteString | Gruppo/MessageBroker/Topic.cs:176 | ReadString gives back the bytes Write(string) wrote, and the position after them |
| Binary.ReadBytesExact | Gruppo/MessageBroker/Topic.cs:179 | ReadBytes(n) gives back the n bytes written at the read position |
| Binary.ReadBytes | Gruppo/MessageBroker/Topic.cs:179 | fails exactly for a negative count; otherwise returns the next min(count, bytes left) bytes of the stream from the read position, and the position just after them |
| SocketClient.SendHeader | GruppoClient/Communications/SocketClient.cs:52-55 | the header Send builds: ASCII default version, MetaSize the UTF-8 length modulo 2^16, BodySize the body length |
| SocketClient.Client.Send | GruppoClient/Communications/SocketClient.cs:50-73 | a null meta is ArgumentNullException("s"), a null body NullReferenceException, a send after Dispose IOException, and then nothing is written; otherwise the stream gains exactly header + meta + the body from its position, nothing between, copied in nonempty chunks of at most min(BodySize, 4096) bytes |
| SocketClient.Client.BuildHeader | GruppoClient/Communications/SocketClient.cs:52-56 | the header bytes are Serialize of the header Send builds |
| SocketClient.Client.CopyBody | GruppoClient/Communications/SocketClient.cs:61-71 | the loop writes exactly the rest of the body, in nonempty chunks no longer than the buffer, and nothing when the buffer is empty |
| SocketClient.Client.CopyChunk | GruppoClient/Communications/SocketClient.cs:64 | the read fills the front of the buffer with the next bytes of the body |
| SocketClient.IdSource.Increment | GruppoClient/Communications/SocketClient.cs:92 | the counter grows by one and the new value is returned |
| SocketClient.Client.constructor | GruppoClient/Communications/SocketClient.cs:89-93 | a client's id is the counter after its increment: consecutive clients get consecutive, strictly increasing ids, the first one 1 |
| SocketClient.Client.Dispose | GruppoClient/Communications/SocketClient.cs:38-48 | stops the loop flag and closes, nothing else changes |
| SocketClient.Client.ReadFrame | GruppoClient/Communications/SocketClient.cs:112-136 | one pass of the loop body is exactly FrameStep: stop when the header read yields no byte or the header does not decode, else the delivered event and bytes consumed |
| SocketClient.Client.ReadLoop | GruppoClient/Communications/SocketClient.cs:110-142 | the loop raises exactly ReadFrames(input) |
| SocketClient.Client.Start | GruppoClient/Communications/SocketClient.cs:80-154 | Running becomes true and stays so; the events gain exactly Trace(input): start, the messages, stop; after Dispose the first read throws and only start and stop are raised |
| SocketClient.TraceShape | GruppoClient/Communications/SocketClient.cs:99-153 | the start callback runs once, first; the stop callback once, last, on every way out; everything between is a message |
| SocketClient.ReadFramesReceived | GruppoClient/Communications/SocketClient.cs:110-142 | every event the loop raises is a message, and an empty input raises none |
| SocketClient.HeaderViewBytes | GruppoClient/Communications/SocketClient.cs:112-122 | the header decoded from a short read is the bytes read followed by the buffer's zeros |
| SocketClient.FrameHeaderOf | GruppoClient/Communications/SocketClient.cs:116-122 | the header of a sent frame decodes to the header Send built, whatever follows |
| SocketClient.FrameStepOfFrame | GruppoClient/Communications/SocketClient.cs:116-131 | one pass over a sent frame delivers its meta, BodySize and body and consumes exactly the frame |
| SocketClient.ReadFramesOfSent | GruppoClient/Communications/SocketClient.cs:50-136 | framing round trip: frames written by Send (meta under 64 KiB, bodies from their start) arrive as exactly those messages, in order |
| TopicLog.RecordOf | Gruppo/MessageBroker/Topic.cs:253-261 | the record Produce writes for a message: ticks, meta with null as "", body with null as empty; WriteMessage proves the writes are its encoding |
| TopicLog.EncodeRecord | Gruppo/MessageBroker/Topic.cs:253-261 | the bytes of one record: ticks as int64, the length-prefixed meta, the body length as int32, the body; ReadMessageOfRecord proves ReadMessage inverts it |
| TopicLog.ReadMessage | Gruppo/MessageBroker/Topic.cs:171-182 | ticks (refused outside DateTime's range), meta, body length and, when asked, the body, each failing as BinaryReader does; ReadMessageOfRecord and ReadMessageAt prove it gives back every encoded record |
| TopicLog.StoreOf | Gruppo/MessageBroker/Topic.cs:242-297 | the files producing the records on a fresh topic leaves: at least one message file and one index entry per record; the Topic invariant equates the class's files with it |
| TopicRead.ConsumeAt | Gruppo/MessageBroker/Topic.cs:147-169 | Consume(offset) over the files: IOException for a negative offset, EndOfStreamException past the last entry, else the message at that entry of file offset / max; ConsumeAtSpec states it against the records |
| TopicRead.PeekAsWritten | Gruppo/MessageBroker/Topic.cs:211-240 | Peek as written: null when 8 * offset > index length, ArgumentOutOfRangeException for a negative offset, EndOfStreamException at offset = count, else the message without its body; PeekAsWrittenAtEnd and PeekAsWrittenElsewhere compare it with Peek |
| TopicRead.Peek | Gruppo/MessageBroker/Topic.cs:211-240 | Peek with the guard `>=`: null for every offset not produced yet; PeekSpec states it against the records |
| TopicRead.CreateGroup | Gruppo/MessageBroker/Topic.cs:65-87 | a group file under 8 bytes starts at offset 0; otherwise the saved offset, refused when negative, failing with EndOfStreamException without an index entry, else in file offset / max at that entry; NewGroupReady, CreateGroupReady, ResumeGroup and ResumeGroupAtEnd state its results |
| TopicRead.GroupOffset | Gruppo/MessageBroker/Topic.cs:72 | a group file's saved offset: its first int64, 0 while the file is shorter; GroupOffsetSaved proves it reads back what Consume writes |
| TopicRead.ReaderAt | Gruppo/MessageBroker/Topic.cs:115-122 | an index entry of 0 reopens message file offset / max at its start, any other entry leaves the reader where it stands; ConsumeReadsAtEntry proves it lands on the record |
| TopicRead.ConsumeStep | Gruppo/MessageBroker/Topic.cs:107-136 | one Consume(groupName) of an existing group: nothing at the end of the index, else the message where ReaderAt says and the cursor past it; ConsumeStepSpec and ConsumeStepAtEnd state it against the records |
| TopicRead.RestartOffsetAsWritten | Gruppo/MessageBroker/Topic.cs:37-46 | the start-up recovery as written: 0 for an index under 8 bytes, else the int64 read after Seek(8, End); RestartAsWrittenFails shows that read always fails |
| TopicRead.RestartOffset | Gruppo/MessageBroker/Topic.cs:37-46 | the corrected recovery, one entry per 8 bytes; RestartRecoversCount proves it gives the number of entries |
| Envelope.Deserialize | GruppoClient/Communications/MessageEnvelope.cs:71-83 | Truncated under 14 bytes, where the reader throws EndOfStreamException; NonAsciiVersion for a version byte of 128 or more; otherwise the four version bytes as code units, MetaSize and BodySize, the rest unread; DeserializeSerialize and SerializeDeserialize prove it inverts Serialize |
| Binary.WriteInt64 | Gruppo/MessageBroker/Topic.cs:253 | Write(long): eight little-endian two's-complement bytes; ReadWriteInt64 proves ReadInt64 inverts it |
| Binary.ReadInt64 | Gruppo/MessageBroker/Topic.cs:175 | succeeds exactly when eight bytes remain at the read position |
| Binary.Write7BitInt | Gruppo/MessageBroker/Topic.cs:254 | seven bits per byte, continuation bit set while more follow, at least one byte; ReadWrite7Bit proves Read7BitInt inverts it |
| Binary.Read7BitInt | Gruppo/MessageBroker/Topic.cs:176 | Read7BitEncodedInt: at most five bytes, FormatException for a fifth byte above 0x0F, EndOfStreamException when the stream ends early |
| Binary.WriteString | Gruppo/MessageBroker/Topic.cs:254 | Write(string): the UTF-8 byte count 7-bit encoded, then the bytes; ReadWriteString proves ReadString inverts it |
| Binary.ReadString | Gruppo/MessageBroker/Topic.cs:176 | ReadString: a length of 2^31 or more is IOException, too few bytes EndOfStreamException, else the bytes after the prefix |
| FileSystem.FormatId | Gruppo/Storage/HardDriveFileSystem.cs:58-61 | "{id:00000}"; Pad5Spec, FormatIdSign and FormatIdInjective state its digits, sign and injectivity |
| FileSystem.FileName | Gruppo/Storage/HardDriveFileSystem.cs:53-63 | index files in the index directory, every other type in the messages directory; FileNameInListedDirectory and FileNamesDistinct state where they lie and that they do not clash |
| FileSystem.EnumerateFiles | Gruppo/Storage/HardDriveFileSystem.cs:36-46 | the directory listed for a type: index for Index, messages for Message and any other value; FileNameInListedDirectory ties it to FileName |
| FileSystem.GroupIndexFile | Gruppo/Storage/HardDriveFileSystem.cs:65-75 | the one path the group reader and writer open, "{groupName}.bin" in group_indexes; FileNamesDistinct proves no other file name equals it |
| SocketClient.Frame | GruppoClient/Communications/SocketClient.cs:50-73 | the bytes one Send writes: the serialised header, the meta bytes, the body from its position; ReadFramesOfSent proves the read loop delivers them back |
| SocketClient.Deliver | GruppoClient/Communications/SocketClient.cs:116-131 | what a decoded header delivers: a message event and at least one and at most the remaining bytes consumed |
| SocketClient.FrameStep | GruppoClient/Communications/SocketClient.cs:112-141 | one pass of the loop body: no event on empty input, otherwise a message event with a positive number of bytes consumed, or none when the header does not decode |
| SocketClient.ReadFrames | GruppoClient/Communications/SocketClient.cs:110-142 | the events the loop raises, pass after pass; ReadFramesReceived and ReadFramesOfSent state what they are |
| TopicName.MatchesPattern | Gruppo/MessageBroker/Topic.cs:25 | `^[\d\-\.a-z]*$` with .NET's `$`: the class covers the whole name or all but a final line feed; AsciiNameAccepted and TrailingLineFeedAccepted state what it accepts |
| Extensions.IsWhiteSpace | GruppoClient/Utilities/Extensions.cs:28 | Char.IsWhiteSpace, the test string.IsNullOrWhiteSpace applies to each character; NotNullOrEmpty and WhiteSpaceOutsideClass use it |

## Left out

- Concurrency is not modelled: the locks, the thread pool, the `volatile Running` flag set from another thread, and the roll check made outside the lock (Topic.cs:272). Every operation runs sequentially.
- ExecutionGuard is not part of this model; its answer is the `admitted` parameter. DateTime.UtcNow is the `now` parameter.
- TopicStore.Topic.Produce: requires that the produce offset stays below 2^63, so the int64 wrap-around of `ProduceOffset++` is not modelled. It also requires the .NET limits that BinaryWriter meets anyway: a tick count within DateTime's range, and meta and body under 2^31 bytes.
- TopicStore.Topic.constructor: requires MaxMessagesInMessageFile > 0. With 0, the source's first Produce writes the message and then throws DivideByZeroException at line 272. A negative value is excluded too: C#'s `%` accepts a negative divisor at line 272, but the message-file number offset / max the model uses would then be negative.
- TopicStore.Topic.Open: requires MaxMessagesInMessageFile > 0 for the same reasons. The file-system factory (a `Func<string, string, IFileSystem>`, Topic.cs:23, 33) is taken to be HardDriveFileSystem's constructor; only whether it is null is kept (`hasFactory`). GetStats's StorageDirectory and every file claim rest on that choice.
- TopicStore.Topic.FindGroup: group names are taken to be plain file names, with no separator, no "." or "..", not rooted and not differing only in case. In the source, "./g" after "g" opens g's existing group file and resumes at its saved offset (Topic.cs:72), where the model starts a new group at 0.
- FileSystem.FileNamesDistinct: "none is a group index file" holds for plain group names only. Path.Combine lets a rooted group name replace the base directory, so such a name can name an index or message file.
- The topic is opened on a fresh directory. LoadGroupIndexs finds no group files there, and the produce offset is recovered from an empty index. Reopening existing files is covered only by the function-level lemmas (RestartAsWrittenFails, RestartRecoversCount, ResumeGroup, ResumeGroupAtEnd).
- The offset-to-file mapping is not part of this model. OpenMessageFileReader/Writer(offset) are not among the repository files modelled, so message file = offset / MaxMessagesInMessageFile.
- `offset * 8` in Peek, Consume(offset) and CreateGroup is exact; its int64 overflow for huge offsets is not modelled.
- Produce(null) (NullReferenceException) is not modelled. A null group name, which the dictionary rejects, is not modelled either.
- Topic.Dispose only closes handles (I/O) and is not modelled. Note the slip at line 195: it nulls ProduceIndexWriter instead of ProduceMessageWriter.
- Topic.cs has no SetOffset; a group's offset moves only by Consume(groupName).
- Meta strings are their UTF-8 bytes; the UTF-8 encoder and decoder are not modelled. The regular-expression engine is replaced by the predicate it decides. `\d` uses the Unicode 15.0 Nd digit runs of the Basic Multilingual Plane.
- Envelope.Deserialize: a version byte outside ASCII is reported as NonAsciiVersion. Real ReadChars(4) would decode UTF-8 and could consume more than four bytes; the read loop then leaves. This is not followed.
- File and socket I/O are not modelled: directory creation, FileStream share modes, flushing, the socket connection (host/port constructor, RemoteEndPoint) and short reads. Every Stream.Read delivers all that is asked for and still there.
- SocketClient.Client.ReadFrame: the message callback is external code. It is assumed to read exactly min(BodySize, what is left) body bytes and never to throw. So swallowed callback exceptions and a callback that reads more or less (framing desync) are not modelled.
- MessageBroker.cs (every operation unimplemented) and SocketServer.cs (accept loop and thread-pool callbacks) are not part of this model.

## Findings

| source | as written | input that shows it | evidently intended | confidence | as-written member | corrected member |
|---|---|---|---|---|---|---|
| Gruppo/MessageBroker/Topic.cs:43-44 | `Seek(sizeof(long), SeekOrigin.End)` moves 8 bytes past the end of the index, so the ReadInt64 that follows always throws EndOfStreamException | reopening a topic whose index holds one entry (8 bytes) | the produce offset is the number of index entries, length / 8 | high; not executed | TopicRead.RestartAsWrittenFails | TopicRead.RestartRecoversCount |
| Gruppo/MessageBroker/Topic.cs:221 | `position > index.BaseStream.Length` lets offset == message count through, and the index read at the very end throws EndOfStreamException | Peek(0) on a fresh topic, or Peek(n) after n messages | `>=`: no message for an offset not produced yet | high; not executed | TopicRead.PeekAsWrittenAtEnd | TopicRead.PeekSpec |
