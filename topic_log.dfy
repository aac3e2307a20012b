/**
  The on-disk layout of one Gruppo topic, as values.

  A topic is a list of message files ("segments", numbered from 0) and one index file. Produce
  appends the record of message number `i` (its offset) to segment `i / max`, where `max` is
  GruppoSettings.MaxMessagesInMessageFile, and appends to the index the byte position in that
  segment at which the record starts. An index entry is an int64 at byte `8 * i` of the index
  file; here the index is the sequence of those entries.

  Everything a topic holds is a function of the records produced so far, `StoreOf(rs, max)`,
  built one Produce at a time by `Append`. The lemmas below say where each record lies and that
  reading it there gives it back.
*/
module TopicLog {
  import opened Wrappers
  import opened Exceptions
  import opened Binary

  /** DateTime.MaxValue.Ticks: `new DateTime(ticks)` rejects anything outside 0..MaxTicks. */
  const MaxTicks: int := 3155378975999999999

  /** GruppoMessage: every field may be null. Meta is held as its UTF-8 bytes and the
      timestamp as its tick count. */
  datatype Message = Message(offset: Option<int>, timestamp: Option<int>, meta: Option<seq<byte>>, body: Option<seq<byte>>)

  /** What Produce writes for one message. */
  datatype Record = Record(ticks: int, meta: seq<byte>, body: seq<byte>)

  /** A record BinaryWriter can write: a DateTime tick count, and meta and body no longer than a
      .NET string or array can be. */
  predicate Writable(r: Record) {
    0 <= r.ticks <= MaxTicks && |r.meta| < TwoTo31 && |r.body| < TwoTo31
  }

  type WritableRecord = r: Record | Writable(r) witness Record(0, [], [])

  /** The record Produce writes: a null meta is written as "" and a null body as length 0. */
  function RecordOf(m: Message, ticks: int): Record {
    Record(ticks, m.meta.GetOr([]), m.body.GetOr([]))
  }

  /** Ticks (int64), meta (length-prefixed string), body length (int32), body. */
  function EncodeRecord(r: WritableRecord): (s: seq<byte>) {
    WriteInt64(r.ticks) + (WriteString(r.meta) + (WriteInt32(|r.body|) + r.body))
  }

  /** Every record takes at least 13 bytes, so no two records start at the same position. */
  lemma EncodeRecordLength(r: WritableRecord)
    ensures |EncodeRecord(r)| >= 13
  {
  }

  /** What ReadMessage hands back for a record read at offset `offset`. */
  function MessageOf(r: Record, offset: int, readBody: bool): Message {
    Message(Some(offset), Some(r.ticks), Some(r.meta), if readBody then Some(r.body) else None)
  }

  /** ReadMessage: ticks, meta and body length are read in order; the body only when asked for
      (Peek skips it but has still read its length). Returns the message and the new position. */
  function ReadMessage(s: seq<byte>, pos: nat, offset: int, readBody: bool): Result<(Message, nat), Exception> {
    var t :- ReadInt64(s, pos);
    if t.0 < 0 || t.0 > MaxTicks then Failure(ArgumentOutOfRange("ticks"))
    else
      var m :- ReadString(s, t.1);
      var n :- ReadInt32(s, m.1);
      if readBody then
        var b :- ReadBytes(s, n.1, n.0);
        Success((Message(Some(offset), Some(t.0), Some(m.0), Some(b.0)), b.1))
      else
        Success((Message(Some(offset), Some(t.0), Some(m.0), None), n.1))
  }

  /** The record codec round trip: a record read where it was written gives back its ticks,
      meta and body, and leaves the reader at its end (before the body for Peek). */
  lemma ReadMessageOfRecord(pre: seq<byte>, r: WritableRecord, post: seq<byte>, offset: int, readBody: bool)
    ensures ReadMessage(pre + EncodeRecord(r) + post, |pre|, offset, readBody)
            == Success((MessageOf(r, offset, readBody), |pre| + |EncodeRecord(r)| - (if readBody then 0 else |r.body|)))
  {
    var s := pre + EncodeRecord(r) + post;
    assert s[|pre|..|pre| + |EncodeRecord(r)|] == EncodeRecord(r);
    ReadMessageAt(s, |pre|, r, offset, readBody);
  }

  /** `e` lies in `seg` starting at `p`. */
  predicate WindowAt(seg: seq<byte>, p: int, e: seq<byte>) {
    0 <= p && p + |e| <= |seg| && seg[p..p + |e|] == e
  }

  /** The same, for a record found at position `p` of a file. */
  lemma ReadMessageAt(s: seq<byte>, p: nat, r: WritableRecord, offset: int, readBody: bool)
    requires WindowAt(s, p, EncodeRecord(r))
    ensures ReadMessage(s, p, offset, readBody)
            == Success((MessageOf(r, offset, readBody), p + |EncodeRecord(r)| - (if readBody then 0 else |r.body|)))
  {
    RecordHead(s, p, r);
    RecordTail(s, p, r);
    ReadMessageSteps(s, p, p + 8 + |WriteString(r.meta)|, r, offset, readBody);
  }

  lemma RecordHead(s: seq<byte>, p0: nat, r: WritableRecord)
    requires WindowAt(s, p0, EncodeRecord(r))
    ensures ReadInt64(s, p0) == Success((r.ticks, p0 + 8))
    ensures ReadString(s, p0 + 8) == Success((r.meta, p0 + 8 + |WriteString(r.meta)|))
  {
    var t, m := WriteInt64(r.ticks), WriteString(r.meta);
    var rest := WriteInt32(|r.body|) + r.body;
    WindowSplit(s, p0, t, m + rest);
    ReadInt64At(s, p0, r.ticks);
    WindowSplit(s, p0 + 8, m, rest);
    ReadStringAt(s, p0 + 8, r.meta);
  }

  lemma RecordTail(s: seq<byte>, p0: nat, r: WritableRecord)
    requires WindowAt(s, p0, EncodeRecord(r))
    ensures var p2 := p0 + 8 + |WriteString(r.meta)|;
      && ReadInt32(s, p2) == Success((|r.body|, p2 + 4))
      && ReadBytes(s, p2 + 4, |r.body|) == Success((r.body, p2 + 4 + |r.body|))
  {
    var t, m, n := WriteInt64(r.ticks), WriteString(r.meta), WriteInt32(|r.body|);
    var p2 := p0 + 8 + |m|;
    WindowSplit(s, p0, t, m + (n + r.body));
    WindowSplit(s, p0 + 8, m, n + r.body);
    WindowSplit(s, p2, n, r.body);
    ReadInt32At(s, p2, |r.body|);
    ReadBytesAt(s, p2 + 4, r.body);
  }

  /** A window holding `a + b` holds `a`, and `b` right after it. */
  lemma WindowSplit(s: seq<byte>, p: nat, a: seq<byte>, b: seq<byte>)
    requires WindowAt(s, p, a + b)
    ensures WindowAt(s, p, a) && WindowAt(s, p + |a|, b)
  {
    assert s[p..p + |a|] == s[p..p + |a + b|][..|a|];
    assert s[p + |a|..p + |a| + |b|] == s[p..p + |a + b|][|a|..];
  }

  /** ReadMessage once each of its four reads is known. */
  lemma ReadMessageSteps(s: seq<byte>, pos: nat, p2: nat, r: WritableRecord, offset: int, readBody: bool)
    requires ReadInt64(s, pos) == Success((r.ticks, pos + 8))
    requires ReadString(s, pos + 8) == Success((r.meta, p2))
    requires ReadInt32(s, p2) == Success((|r.body|, p2 + 4))
    requires ReadBytes(s, p2 + 4, |r.body|) == Success((r.body, p2 + 4 + |r.body|))
    ensures ReadMessage(s, pos, offset, readBody)
            == Success((MessageOf(r, offset, readBody), p2 + 4 + (if readBody then |r.body| else 0)))
  {
  }

  // ---- division facts ----

  /** Euclidean division is unique: a quotient and remainder in range are the ones `/` and `%`
      give. */
  lemma DivUnique(n: int, m: nat, q: int, r: int)
    requires m > 0 && 0 <= r < m && n == q * m + r
    ensures n / m == q && n % m == r
  {
    var q', r' := n / m, n % m;
    assert n == q' * m + r';
    if q > q' {
      MulAtLeast(q - q', m);
      MulDistributes(q, q', m);
    } else if q < q' {
      MulAtLeast(q' - q, m);
      MulDistributes(q', q, m);
    }
  }

  lemma MulDistributes(a: int, b: int, m: int)
    ensures (a - b) * m == a * m - b * m
  {
  }

  lemma {:induction false} MulAtLeast(a: int, m: nat)
    requires a >= 1
    ensures a * m >= m
    decreases a
  {
    if a > 1 {
      MulAtLeast(a - 1, m);
      assert a * m == (a - 1) * m + m;
    }
  }

  /** Counting one message further either stays in the same segment or, at a multiple of
      `max`, opens the next one. */
  lemma DivStep(n: nat, max: nat)
    requires max > 0
    ensures (n + 1) % max == 0 ==> (n + 1) / max == n / max + 1
    ensures (n + 1) % max != 0 ==> (n + 1) / max == n / max
  {
    var q, r := n / max, n % max;
    assert n == q * max + r;
    if r + 1 < max {
      DivUnique(n + 1, max, q, r + 1);
    } else {
      assert n + 1 == (q + 1) * max + 0;
      DivUnique(n + 1, max, q + 1, 0);
    }
  }

  lemma {:induction false} DivMonotone(i: nat, n: nat, max: nat)
    requires max > 0 && i <= n
    ensures i / max <= n / max
    decreases n - i
  {
    if i < n {
      DivMonotone(i, n - 1, max);
      DivStep(n - 1, max);
    }
  }

  // ---- the store ----

  /** The message files, numbered from 0, and the index entries. */
  datatype Store = Store(segments: seq<seq<byte>>, index: seq<nat>)

  /** A fresh topic: one empty message file and an empty index. */
  const Fresh: Store := Store([[]], [])

  /** What one Produce does to the files: the record is appended to the last message file, the
      position it starts at is appended to the index, and when the new message count is a
      multiple of `max` the next (empty) message file is opened. */
  function Append(st: Store, r: WritableRecord, max: nat): (st': Store)
    requires max > 0 && |st.segments| > 0
    ensures |st'.segments| > 0 && |st'.index| == |st.index| + 1
  {
    var k := |st.segments| - 1;
    var segs := st.segments[k := st.segments[k] + EncodeRecord(r)];
    Store(if (|st.index| + 1) % max == 0 then segs + [[]] else segs, st.index + [|st.segments[k]|])
  }

  /** The files after producing `rs` on a fresh topic. */
  function StoreOf(rs: seq<WritableRecord>, max: nat): (st: Store)
    requires max > 0
    ensures |st.segments| > 0 && |st.index| == |rs|
  {
    if rs == [] then Fresh else Append(StoreOf(rs[..|rs| - 1], max), rs[|rs| - 1], max)
  }

  /** Produce records one at a time. */
  lemma StoreOfAppend(rs: seq<WritableRecord>, r: WritableRecord, max: nat)
    requires max > 0
    ensures StoreOf(rs + [r], max) == Append(StoreOf(rs, max), r, max)
  {
    assert (rs + [r])[..|rs|] == rs;
  }

  /** The last message file, the one Produce appends to. */
  function Active(st: Store): seq<byte>
    requires |st.segments| > 0
  {
    st.segments[|st.segments| - 1]
  }

  /** Where record `i` starts; for `i == |rs|`, where the next record will start (the end of
      the active message file). */
  function PositionOf(rs: seq<WritableRecord>, max: nat, i: nat): int
    requires max > 0 && i <= |rs|
  {
    var st := StoreOf(rs, max);
    if i < |rs| then st.index[i] else |Active(st)|
  }

  /** Record `i` goes to message file `i / max`, so there are |rs| / max + 1 files, the last
      of them the active one. */
  lemma {:induction false} StoreShape(rs: seq<WritableRecord>, max: nat)
    requires max > 0
    ensures |StoreOf(rs, max).segments| == |rs| / max + 1
    decreases |rs|
  {
    if rs != [] {
      var n := |rs| - 1;
      StoreShape(rs[..n], max);
      DivStep(n, max);
    }
  }

  /** The active message file is empty exactly when the number of records is a multiple of
      `max`. */
  lemma {:induction false} ActiveEmpty(rs: seq<WritableRecord>, max: nat)
    requires max > 0
    ensures |Active(StoreOf(rs, max))| == 0 <==> |rs| % max == 0
    decreases |rs|
  {
    if rs != [] {
      var n := |rs| - 1;
      ActiveEmpty(rs[..n], max);
      EncodeRecordLength(rs[n]);
    }
  }

  /** A record produced later changes neither the start of an earlier record nor the index
      entries already written. */
  lemma PositionStable(rs: seq<WritableRecord>, r: WritableRecord, max: nat, i: nat)
    requires max > 0 && i <= |rs|
    ensures PositionOf(rs + [r], max, i) == PositionOf(rs, max, i)
    ensures i < |rs| ==> StoreOf(rs + [r], max).index[i] == StoreOf(rs, max).index[i]
  {
    StoreOfAppend(rs, r, max);
  }

  /** Index entry `i` is 0 exactly when record `i` opens a message file: the signal
      Consume(group) uses to switch to the next file. */
  lemma IndexZeroIffSegmentStart(rs: seq<WritableRecord>, max: nat, i: nat)
    requires max > 0 && i < |rs|
    ensures StoreOf(rs, max).index[i] == 0 <==> i % max == 0
  {
    var prefix := rs[..i];
    assert rs == prefix + rs[i..];
    IndexPrefix(rs, max, i);
    ActiveEmpty(prefix, max);
  }

  /** The index entry of record `i` was written when `i` records existed: the end of the then
      active message file. */
  lemma {:induction false} IndexPrefix(rs: seq<WritableRecord>, max: nat, i: nat)
    requires max > 0 && i < |rs|
    ensures StoreOf(rs, max).index[i] == |Active(StoreOf(rs[..i], max))|
    decreases |rs|
  {
    var n := |rs| - 1;
    if i < n {
      var pre := rs[..n];
      var st := StoreOf(pre, max);
      assert StoreOf(rs, max) == Append(st, rs[n], max);
      IndexPrefix(pre, max, i);
      assert pre[..i] == rs[..i];
      AppendKeepsIndex(st, rs[n], max, i);
    } else {
      LastIndex(rs, max);
    }
  }

  /** The index entry of the newest record is where the active file ended before it. */
  lemma LastIndex(rs: seq<WritableRecord>, max: nat)
    requires max > 0 && |rs| > 0
    ensures StoreOf(rs, max).index[|rs| - 1] == |Active(StoreOf(rs[..|rs| - 1], max))|
  {
  }

  /** One Produce leaves the existing index entries alone. */
  lemma AppendKeepsIndex(st: Store, r: WritableRecord, max: nat, i: nat)
    requires max > 0 && |st.segments| > 0 && i < |st.index|
    ensures Append(st, r, max).index[i] == st.index[i]
  {
  }

  lemma WindowInPrefix(a: seq<byte>, b: seq<byte>, p: int, e: seq<byte>)
    requires WindowAt(a, p, e) && a <= b
    ensures WindowAt(b, p, e)
  {
    assert b[p..p + |e|] == a[p..p + |e|];
  }

  /** Produce only ever appends to a message file: each file as it was after `j` records is a
      prefix of what it is after all of them. */
  lemma {:induction false} SegmentGrows(rs: seq<WritableRecord>, max: nat, j: nat, k: nat)
    requires max > 0 && j <= |rs| && k < |StoreOf(rs[..j], max).segments|
    ensures k < |StoreOf(rs, max).segments|
    ensures StoreOf(rs[..j], max).segments[k] <= StoreOf(rs, max).segments[k]
    decreases |rs|
  {
    if j == |rs| {
      assert rs[..j] == rs;
    } else {
      var n := |rs| - 1;
      assert rs[..n][..j] == rs[..j];
      SegmentGrows(rs[..n], max, j, k);
      AppendGrows(StoreOf(rs[..n], max), rs[n], max, k);
      PrefixTransitive(StoreOf(rs[..j], max).segments[k], StoreOf(rs[..n], max).segments[k], StoreOf(rs, max).segments[k]);
    }
  }

  /** One Produce keeps every message file as a prefix of what it becomes. */
  lemma AppendGrows(st: Store, r: WritableRecord, max: nat, k: nat)
    requires max > 0 && |st.segments| > 0 && k < |st.segments|
    ensures k < |Append(st, r, max).segments| && st.segments[k] <= Append(st, r, max).segments[k]
  {
  }

  lemma PrefixTransitive(a: seq<byte>, b: seq<byte>, c: seq<byte>)
    requires a <= b && b <= c
    ensures a <= c
  {
    assert c[..|a|] == c[..|b|][..|a|];
  }

  /** Record `i` lies in message file `i / max`, starting at its index entry. */
  lemma SegmentHoldsRecord(rs: seq<WritableRecord>, max: nat, i: nat)
    requires max > 0 && i < |rs|
    ensures 0 <= i / max < |StoreOf(rs, max).segments|
    ensures WindowAt(StoreOf(rs, max).segments[i / max], StoreOf(rs, max).index[i], EncodeRecord(rs[i]))
  {
    var pre, mid := rs[..i], rs[..i + 1];
    assert mid[..i] == pre;
    var before := StoreOf(pre, max);
    var k := |before.segments| - 1;
    StoreShape(pre, max);
    assert k == i / max;
    var seg := StoreOf(mid, max).segments[k];
    assert seg == Active(before) + EncodeRecord(rs[i]);
    IndexPrefix(rs, max, i);
    assert WindowAt(seg, |Active(before)|, EncodeRecord(rs[i]));
    SegmentGrows(rs, max, i + 1, k);
    WindowInPrefix(seg, StoreOf(rs, max).segments[k], |Active(before)|, EncodeRecord(rs[i]));
  }

  /** Reading record `i` from message file `i / max` at its index entry gives it back. */
  lemma ReadBack(rs: seq<WritableRecord>, max: nat, i: nat, readBody: bool)
    requires max > 0 && i < |rs|
    ensures 0 <= i / max < |StoreOf(rs, max).segments|
    ensures ReadMessage(StoreOf(rs, max).segments[i / max], StoreOf(rs, max).index[i], i, readBody)
            == Success((MessageOf(rs[i], i, readBody),
                        StoreOf(rs, max).index[i] + |EncodeRecord(rs[i])| - (if readBody then 0 else |rs[i].body|)))
  {
    var st := StoreOf(rs, max);
    SegmentHoldsRecord(rs, max, i);
    var seg, p, r := st.segments[i / max], st.index[i], rs[i];
    ReadMessageAt(seg, p, r, i, readBody);
  }

  /** After record `i`, a reader that stays in the same message file is where record `i + 1`
      starts (or where it will be written). */
  lemma {:induction false} PositionNext(rs: seq<WritableRecord>, max: nat, i: nat)
    requires max > 0 && i < |rs| && (i + 1) % max != 0
    ensures (i + 1) / max == i / max
    ensures PositionOf(rs, max, i + 1) == PositionOf(rs, max, i) + |EncodeRecord(rs[i])|
    decreases |rs|
  {
    DivStep(i, max);
    var n := |rs| - 1;
    var pre := rs[..n];
    StoreOfAppend(pre, rs[n], max);
    assert pre + [rs[n]] == rs;
    if i < n {
      PositionNext(pre, max, i);
      PositionStable(pre, rs[n], max, i);
      PositionStable(pre, rs[n], max, i + 1);
    }
  }
}
