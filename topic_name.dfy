/**
  The argument checks of the Gruppo.MessageBroker.Topic constructor: the topic name must
  match the .NET regular expression `^[\d\-\.a-z]*$`, the settings and the file-system factory
  must be present, and the name must not be blank.

  Two .NET details decide which names pass. `$` without RegexOptions.Multiline matches at the
  very end of the input and also just before a final '\n'. `\d` is any character of the
  Unicode category Nd, not only '0'..'9'. The regex sees the UTF-16 code units of the string,
  so a character outside the Basic Multilingual Plane (two surrogates) never matches `\d`.
*/
module TopicName {
  import opened Wrappers
  import opened Exceptions
  import Extensions

  /** The first code points of the ten-digit runs of Unicode 15.0 category Nd that lie in the
      Basic Multilingual Plane. */
  const DigitRunStarts: seq<int> := [
    0x0030, 0x0660, 0x06F0, 0x07C0, 0x0966, 0x09E6, 0x0A66, 0x0AE6, 0x0B66, 0x0BE6,
    0x0C66, 0x0CE6, 0x0D66, 0x0DE6, 0x0E50, 0x0ED0, 0x0F20, 0x1040, 0x1090, 0x17E0,
    0x1810, 0x1946, 0x19D0, 0x1A80, 0x1A90, 0x1B50, 0x1BB0, 0x1C40, 0x1C50, 0xA620,
    0xA8D0, 0xA900, 0xA9D0, 0xA9F0, 0xAA50, 0xABF0, 0xFF10]

  /** `\d`: a single UTF-16 code unit of category Nd. */
  predicate IsUnicodeDigit(c: char) {
    exists i :: 0 <= i < |DigitRunStarts| && DigitRunStarts[i] <= c as int < DigitRunStarts[i] + 10
  }

  /** The character class `[\d\-\.a-z]`. */
  predicate InClass(c: char) {
    IsUnicodeDigit(c) || c == '-' || c == '.' || ('a' <= c <= 'z')
  }

  /** `[\d\-\.a-z]*` consuming the whole string. */
  function AllInClass(s: string): (b: bool)
    ensures b <==> forall i :: 0 <= i < |s| ==> InClass(s[i])
  {
    if s == [] then true else InClass(s[0]) && AllInClass(s[1..])
  }

  /** Regex.IsMatch(name, "^[\d\-\.a-z]*$") for a non-null name: the class covers the whole
      name, or everything but a final line feed. */
  predicate MatchesPattern(s: string) {
    AllInClass(s) || (|s| > 0 && s[|s| - 1] == '\n' && AllInClass(s[..|s| - 1]))
  }

  /** The part of GruppoSettings that a topic uses. */
  datatype GruppoSettings = GruppoSettings(storageDirectory: string, maxMessagesInMessageFile: int)

  /** The checks of the constructor, in the order they run. A null name reaches Regex.IsMatch
      first, which throws ArgumentNullException("input"). On success the name and the settings
      the topic keeps. */
  function ConstructionCheck(name: Option<string>, settings: Option<GruppoSettings>, hasFactory: bool)
    : (r: Result<(string, GruppoSettings), Exception>)
    ensures name.None? ==> r == Failure(ArgumentNull("input"))
    ensures name.Some? && !MatchesPattern(name.value) ==> r == Failure(InvalidTopicName(name.value))
    ensures name.Some? && MatchesPattern(name.value) && settings.None? ==> r == Failure(ArgumentNull("settings"))
    ensures name.Some? && MatchesPattern(name.value) && settings.Some? && Extensions.IsNullOrWhiteSpace(name)
            ==> r == Failure(ArgumentNull("topicName"))
    ensures name.Some? && MatchesPattern(name.value) && settings.Some? && !Extensions.IsNullOrWhiteSpace(name) && !hasFactory
            ==> r == Failure(ArgumentNull("fileSystemFactory"))
    ensures r.Success? <==> name.Some? && MatchesPattern(name.value) && settings.Some?
                            && !Extensions.IsNullOrWhiteSpace(name) && hasFactory
    ensures r.Success? ==> r.value == (name.value, settings.value)
  {
    if name.None? then Failure(ArgumentNull("input"))
    else if !MatchesPattern(name.value) then Failure(InvalidTopicName(name.value))
    else
      var s :- Extensions.NotNull(settings, "settings");
      var n :- Extensions.NotNullOrEmpty(name, "topicName");
      var _ :- Extensions.NotNull(if hasFactory then Some(()) else None, "fileSystemFactory");
      Success((n, s))
  }

  predicate IsAsciiClassChar(c: char) {
    ('0' <= c <= '9') || c == '-' || c == '.' || ('a' <= c <= 'z')
  }

  /** Every character from position `from` on is one of '0'..'9', '-', '.', 'a'..'z'. */
  function AllAsciiClassFrom(s: string, from: nat): (b: bool)
    requires from <= |s|
    ensures b <==> forall i :: from <= i < |s| ==> IsAsciiClassChar(s[i])
    decreases |s| - from
  {
    if from == |s| then true else IsAsciiClassChar(s[from]) && AllAsciiClassFrom(s, from + 1)
  }

  lemma AsciiInClass(c: char)
    requires c as int < 128
    ensures InClass(c) <==> IsAsciiClassChar(c)
  {
    if IsUnicodeDigit(c) {
      var i :| 0 <= i < |DigitRunStarts| && DigitRunStarts[i] <= c as int < DigitRunStarts[i] + 10;
      assert i == 0;
    }
    if '0' <= c <= '9' {
      assert DigitRunStarts[0] <= c as int < DigitRunStarts[0] + 10;
    }
  }

  /** No white-space character belongs to the class. */
  lemma WhiteSpaceOutsideClass(c: char)
    requires Extensions.IsWhiteSpace(c)
    ensures !InClass(c)
  {
    if IsUnicodeDigit(c) {
      var i :| 0 <= i < |DigitRunStarts| && DigitRunStarts[i] <= c as int < DigitRunStarts[i] + 10;
    }
  }

  /** The only names the pattern accepts that are blank are "" and "\n". */
  lemma BlankAccepted(s: string)
    requires MatchesPattern(s) && Extensions.AllWhiteSpace(s)
    ensures s == "" || s == "\n"
  {
    if |s| > 0 {
      WhiteSpaceOutsideClass(s[0]);
    }
  }

  /** For a name of ASCII characters without a line feed the constructor's checks pass exactly
      when settings and factory are given and the name is non-empty and made of '0'..'9', '-',
      '.' and 'a'..'z'; any other character is an InvalidTopicNameException. */
  lemma AsciiNameAccepted(s: string, settings: GruppoSettings)
    requires forall i :: 0 <= i < |s| ==> s[i] as int < 128 && s[i] != '\n'
    ensures ConstructionCheck(Some(s), Some(settings), true).Success?
            <==> |s| > 0 && forall i :: 0 <= i < |s| ==> IsAsciiClassChar(s[i])
    ensures (exists i :: 0 <= i < |s| && !IsAsciiClassChar(s[i])) ==>
              ConstructionCheck(Some(s), Some(settings), true) == Failure(InvalidTopicName(s))
  {
    forall i | 0 <= i < |s| {
      AsciiInClass(s[i]);
    }
    if |s| > 0 && AllInClass(s) {
      assert !Extensions.IsWhiteSpace(s[0]);
    }
  }

  /** A non-empty name of '0'..'9', '-', '.' and 'a'..'z' passes every check. */
  lemma ClassNameAccepted(s: string, settings: GruppoSettings)
    requires |s| > 0 && AllAsciiClassFrom(s, 0)
    ensures ConstructionCheck(Some(s), Some(settings), true) == Success((s, settings))
  {
    forall i | 0 <= i < |s|
      ensures InClass(s[i])
    {
      AsciiInClass(s[i]);
    }
    assert !Extensions.IsWhiteSpace(s[0]);
  }

  const ValidTestNameList: seq<string> := ["word", "word-again", "123-topic", "topic-george", "topic.stuff"]

  /** The names the topic tests expect to be accepted. */
  lemma ValidTestNames(settings: GruppoSettings)
    ensures forall n :: n in ValidTestNameList ==> ConstructionCheck(Some(n), Some(settings), true) == Success((n, settings))
  {
    forall n | n in ValidTestNameList
      ensures ConstructionCheck(Some(n), Some(settings), true) == Success((n, settings))
    {
      ClassNameAccepted(n, settings);
    }
  }

  /** The names the topic tests expect to throw InvalidTopicNameException. */
  lemma InvalidTestNames(settings: Option<GruppoSettings>, hasFactory: bool)
    ensures forall n :: n in ["Test", "*junk", "stuff/more", "stuff\\more", "weird\nstuff", "don't", "do this", "OrThis"] ==>
              ConstructionCheck(Some(n), settings, hasFactory) == Failure(InvalidTopicName(n))
  {
    var names := ["Test", "*junk", "stuff/more", "stuff\\more", "weird\nstuff", "don't", "do this", "OrThis"];
    forall n | n in names
      ensures !MatchesPattern(n)
    {
      var k := if n == "Test" then 0 else if n == "*junk" then 0 else if n == "stuff/more" then 5
               else if n == "stuff\\more" then 5 else if n == "weird\nstuff" then 5
               else if n == "don't" then 3 else if n == "do this" then 2 else 0;
      AsciiInClass(n[k]);
      assert !InClass(n[k]);
    }
  }

  /** The name the broker tests use, "test_topic_a", is rejected: '_' is not in the class. */
  lemma UnderscoreRejected(settings: Option<GruppoSettings>, hasFactory: bool)
    ensures ConstructionCheck(Some("test_topic_a"), settings, hasFactory) == Failure(InvalidTopicName("test_topic_a"))
  {
    AsciiInClass('_');
    assert !InClass("test_topic_a"[4]);
  }

  /** An empty name passes the pattern and is then refused by NotNullOrEmpty; so is "\n". */
  lemma BlankNamesRefused(settings: GruppoSettings, hasFactory: bool)
    ensures ConstructionCheck(Some(""), Some(settings), hasFactory) == Failure(ArgumentNull("topicName"))
    ensures ConstructionCheck(Some("\n"), Some(settings), hasFactory) == Failure(ArgumentNull("topicName"))
  {
    assert AllInClass("\n"[..0]);
    assert Extensions.IsWhiteSpace("\n"[0]);
  }

  /** Apart from "" and "\n", every name the pattern accepts passes the blank check too. */
  lemma BlankCheckAfterPattern(s: string, settings: GruppoSettings)
    requires MatchesPattern(s)
    ensures ConstructionCheck(Some(s), Some(settings), true).Success? <==> s != "" && s != "\n"
  {
    if s == "\n" {
      BlankNamesRefused(settings, true);
    } else if s != "" && Extensions.AllWhiteSpace(s) {
      BlankAccepted(s);
    }
  }

  /** A name with a trailing line feed is accepted as it stands ('\n' included), because `$`
      also matches before a final line feed. */
  lemma TrailingLineFeedAccepted(settings: GruppoSettings)
    ensures ConstructionCheck(Some("abc\n"), Some(settings), true) == Success(("abc\n", settings))
  {
    var s := "abc\n";
    assert s[..3] == "abc";
    assert AllInClass("abc") by {
      assert InClass('a') && InClass('b') && InClass('c');
    }
    assert !Extensions.IsWhiteSpace(s[0]);
  }

  /** `\d` takes the Arabic-Indic digit U+0661 as well as '0'..'9'. */
  lemma UnicodeDigitAccepted(settings: GruppoSettings)
    ensures ConstructionCheck(Some("topic-١"), Some(settings), true).Success?
  {
    var s := "topic-١";
    assert DigitRunStarts[1] <= s[6] as int < DigitRunStarts[1] + 10;
    assert forall i :: 0 <= i < 6 ==> InClass(s[i]);
    assert InClass(s[6]);
    assert !Extensions.IsWhiteSpace(s[0]);
  }
}
