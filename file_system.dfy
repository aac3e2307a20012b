/**
  The naming rules of Gruppo.Storage.HardDriveFileSystem. A path is the list of components
  that Path.Combine joins with the platform separator, so `Combine(p, c)` appends one
  component. Creating directories and opening files is I/O and is not modelled.
*/
module FileSystem {

  type Path = seq<string>

  function Combine(p: Path, child: string): Path {
    p + [child]
  }

  /** FileType.Index, FileType.Message, or any other value the enum can hold. */
  datatype FileType = Index | Message | Undeclared(code: int)

  /** The read-only directory fields computed once by the constructor. */
  datatype HardDriveFileSystem = HardDriveFileSystem(
    topicDirectory: Path,
    indexDirectory: Path,
    messageDirectory: Path,
    groupIndexDirectory: Path)

  function New(baseDir: string, topic: string): (fs: HardDriveFileSystem)
    ensures fs.topicDirectory == [baseDir, "topics", topic]
    ensures fs.indexDirectory == fs.topicDirectory + ["index"]
    ensures fs.messageDirectory == fs.topicDirectory + ["messages"]
    ensures fs.groupIndexDirectory == fs.topicDirectory + ["group_indexes"]
  {
    var topicDirectory := Combine(Combine([baseDir], "topics"), topic);
    HardDriveFileSystem(
      topicDirectory,
      Combine(topicDirectory, "index"),
      Combine(topicDirectory, "messages"),
      Combine(topicDirectory, "group_indexes"))
  }

  // ---- the "{id:00000}" format ----

  function DigitChar(d: nat): char
    requires d < 10
  {
    ['0', '1', '2', '3', '4', '5', '6', '7', '8', '9'][d]
  }

  predicate IsDigit(c: char) {
    '0' <= c <= '9'
  }

  /** The shortest decimal numeral of n. */
  function DecimalDigits(n: nat): (s: string)
    ensures 1 <= |s| && forall i :: 0 <= i < |s| ==> IsDigit(s[i])
    decreases n
  {
    if n < 10 then [DigitChar(n)] else DecimalDigits(n / 10) + [DigitChar(n % 10)]
  }

  /** The value of a numeral: an independent reading of the digits, most significant first. */
  function DigitsValue(s: string): int
    requires forall i :: 0 <= i < |s| ==> IsDigit(s[i])
  {
    if s == [] then 0 else DigitsValue(s[..|s| - 1]) * 10 + (s[|s| - 1] as int - '0' as int)
  }

  function Zeros(k: int): (s: string)
    ensures |s| == if k <= 0 then 0 else k
    ensures forall i :: 0 <= i < |s| ==> s[i] == '0'
    decreases k
  {
    if k <= 0 then "" else "0" + Zeros(k - 1)
  }

  /** The custom numeric format "00000" of a non-negative value: at least five digits, padded
      with leading zeros, never truncated. */
  function Pad5(n: nat): string {
    var d := DecimalDigits(n);
    Zeros(5 - |d|) + d
  }

  /** "{id:00000}" of an int: a negative value gets a leading minus sign. */
  function FormatId(id: int): string {
    if id < 0 then "-" + Pad5(-id) else Pad5(id)
  }

  lemma {:induction false} DecimalDigitsValue(n: nat)
    ensures DigitsValue(DecimalDigits(n)) == n
    decreases n
  {
    if n >= 10 {
      DecimalDigitsValue(n / 10);
      var s, prefix := DecimalDigits(n), DecimalDigits(n / 10);
      assert s == prefix + [DigitChar(n % 10)];
      assert s[..|s| - 1] == prefix;
      var d := n % 10;
      DigitCharValue(d);
      assert DigitsValue(s) == DigitsValue(prefix) * 10 + d;
    }
  }

  lemma DigitCharValue(d: nat)
    requires d < 10
    ensures IsDigit(DigitChar(d)) && DigitChar(d) as int - '0' as int == d
  {
  }

  function Pow10(k: nat): nat {
    if k == 0 then 1 else 10 * Pow10(k - 1)
  }

  lemma {:induction false} DecimalDigitsLength(n: nat, k: nat)
    requires k >= 1
    ensures n < Pow10(k) <==> |DecimalDigits(n)| <= k
    decreases n
  {
    if k == 1 {
      assert Pow10(1) == 10;
    } else if n < 10 {
      Pow10AtLeastTen(k);
    } else {
      DecimalDigitsLength(n / 10, k - 1);
    }
  }

  lemma {:induction false} Pow10AtLeastTen(k: nat)
    requires k >= 1
    ensures Pow10(k) >= 10
  {
    if k > 1 {
      Pow10AtLeastTen(k - 1);
    }
  }

  lemma {:induction false} LeadingZeroValue(s: string)
    requires forall i :: 0 <= i < |s| ==> IsDigit(s[i])
    ensures DigitsValue("0" + s) == DigitsValue(s)
    decreases |s|
  {
    if s != [] {
      var t := "0" + s;
      assert t[..|t| - 1] == "0" + s[..|s| - 1];
      LeadingZeroValue(s[..|s| - 1]);
    }
  }

  lemma {:induction false} ZerosValue(k: int, s: string)
    requires forall i :: 0 <= i < |s| ==> IsDigit(s[i])
    ensures forall i :: 0 <= i < |Zeros(k) + s| ==> IsDigit((Zeros(k) + s)[i])
    ensures DigitsValue(Zeros(k) + s) == DigitsValue(s)
    decreases k
  {
    if k > 0 {
      ZerosValue(k - 1, s);
      var t := Zeros(k - 1) + s;
      assert Zeros(k) + s == "0" + t;
      LeadingZeroValue(t);
      assert DigitsValue("0" + t) == DigitsValue(t) == DigitsValue(s);
    } else {
      assert Zeros(k) + s == s;
    }
  }

  /** Pad5 gives exactly five digits worth `n` for n <= 99999, and the plain numeral (more than
      five digits, nothing cut off) above that. */
  lemma Pad5Spec(n: nat)
    ensures forall i :: 0 <= i < |Pad5(n)| ==> IsDigit(Pad5(n)[i])
    ensures DigitsValue(Pad5(n)) == n
    ensures n <= 99999 ==> |Pad5(n)| == 5
    ensures n > 99999 ==> Pad5(n) == DecimalDigits(n) && |Pad5(n)| > 5
  {
    var d := DecimalDigits(n);
    ZerosValue(5 - |d|, d);
    DecimalDigitsValue(n);
    DecimalDigitsLength(n, 5);
    assert Pow10(5) == 100000;
  }

  lemma FormatIdSign(id: int)
    ensures |FormatId(id)| > 0 && (FormatId(id)[0] == '-' <==> id < 0)
  {
    if id >= 0 {
      Pad5Spec(id);
      assert IsDigit(Pad5(id)[0]);
    }
  }

  lemma FormatIdInjective(a: int, b: int)
    requires FormatId(a) == FormatId(b)
    ensures a == b
  {
    FormatIdSign(a);
    FormatIdSign(b);
    if a < 0 {
      assert Pad5(-a) == FormatId(a)[1..] == FormatId(b)[1..] == Pad5(-b);
      Pad5Injective(-a, -b);
    } else {
      Pad5Injective(a, b);
    }
  }

  lemma Pad5Injective(m: nat, n: nat)
    requires Pad5(m) == Pad5(n)
    ensures m == n
  {
    Pad5Spec(m);
    Pad5Spec(n);
  }

  // ---- file names ----

  /** FileName: index files live in the index directory, everything else (Message and any
      undeclared type) in the messages directory. */
  function FileName(fs: HardDriveFileSystem, t: FileType, id: int): Path {
    match t
    case Index => Combine(fs.indexDirectory, "index_" + FormatId(id) + ".bin")
    case _ => Combine(fs.messageDirectory, "messages_" + FormatId(id) + ".bin")
  }

  /** EnumerateFiles: the directory whose files are listed for a type. */
  function EnumerateFiles(fs: HardDriveFileSystem, t: FileType): Path {
    match t
    case Index => fs.indexDirectory
    case _ => fs.messageDirectory
  }

  /** The one path that both OpenGroupIndexFileReader and OpenGroupIndexFileWriter open. */
  function GroupIndexFile(fs: HardDriveFileSystem, groupName: string): Path {
    Combine(fs.groupIndexDirectory, groupName + ".bin")
  }

  /** Every file FileName names for a type lies directly in the directory EnumerateFiles lists
      for that type, with the expected prefix and the padded id. */
  lemma FileNameInListedDirectory(fs: HardDriveFileSystem, t: FileType, id: int)
    ensures |FileName(fs, t, id)| == |EnumerateFiles(fs, t)| + 1
    ensures FileName(fs, t, id)[..|EnumerateFiles(fs, t)|] == EnumerateFiles(fs, t)
    ensures FileName(fs, t, id)[|EnumerateFiles(fs, t)|]
            == (if t.Index? then "index_" else "messages_") + FormatId(id) + ".bin"
  {
  }

  /** The three data directories of a topic are distinct children of its directory. */
  lemma DirectoriesDistinct(baseDir: string, topic: string)
    ensures var fs := New(baseDir, topic);
      && fs.indexDirectory != fs.messageDirectory
      && fs.indexDirectory != fs.groupIndexDirectory
      && fs.messageDirectory != fs.groupIndexDirectory
      && fs.indexDirectory[..3] == fs.messageDirectory[..3] == fs.groupIndexDirectory[..3] == fs.topicDirectory
  {
    var fs := New(baseDir, topic);
    assert fs.indexDirectory[3] != fs.messageDirectory[3];
    assert fs.indexDirectory[3] != fs.groupIndexDirectory[3];
    assert fs.messageDirectory[3] != fs.groupIndexDirectory[3];
  }

  /** Distinct segment or index ids never share a file, and index and message files never
      collide with each other or with a group index file. */
  lemma FileNamesDistinct(baseDir: string, topic: string, t1: FileType, id1: int, t2: FileType, id2: int, group: string)
    ensures var fs := New(baseDir, topic);
      && (FileName(fs, t1, id1) == FileName(fs, t2, id2) ==> id1 == id2 && t1.Index? == t2.Index?)
      && FileName(fs, t1, id1) != GroupIndexFile(fs, group)
  {
    var fs := New(baseDir, topic);
    var a, b := FileName(fs, t1, id1), FileName(fs, t2, id2);
    DirectoriesDistinct(baseDir, topic);
    if a == b {
      assert a[3] == b[3];
      var p := if t1.Index? then "index_" else "messages_";
      var leafA, leafB := a[4], b[4];
      assert leafA == p + FormatId(id1) + ".bin";
      assert t1.Index? == t2.Index?;
      assert leafB == p + FormatId(id2) + ".bin";
      assert FormatId(id1) == leafA[|p|..|leafA| - 4];
      assert FormatId(id2) == leafB[|p|..|leafB| - 4];
      FormatIdInjective(id1, id2);
    }
    assert a[3] != GroupIndexFile(fs, group)[3];
  }
}
