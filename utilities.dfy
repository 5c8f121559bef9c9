/**
 * ppvid's utilities: the two log-line formatters used for the matcher's
 * diagnostics, the lookup of the terminal's erase character in the text
 * printed by `stty -a`, and the commands that restore the terminal.
 */
module Utilities {

  import opened Wrappers

  // ---------------------------------------------------------------------
  // Log lines
  // ---------------------------------------------------------------------

  /** Markup put in front of the matcher's information messages. */
  const InfoPrefix: string := "[bold]INFO:[/bold] "
  /** Markup put in front of the matcher's warnings. */
  const WarningPrefix: string := ":warning: [bold red]WARNING:[/bold red] "

  /** The line `log_info` hands to the console: the bold prefix, then the text verbatim. */
  function LogInfo(text: string): (line: string)
    ensures |line| == |InfoPrefix| + |text|
    ensures line[..|InfoPrefix|] == InfoPrefix
    ensures line[|InfoPrefix|..] == text
  {
    InfoPrefix + text
  }

  /** The line `log_warning` hands to the console: the warning prefix, then the text verbatim. */
  function LogWarning(text: string): (line: string)
    ensures |line| == |WarningPrefix| + |text|
    ensures line[..|WarningPrefix|] == WarningPrefix
    ensures line[|WarningPrefix|..] == text
  {
    WarningPrefix + text
  }

  /** The two severities the matcher reports through its log hooks. */
  datatype Severity = Info | Warning

  /** The handler the mastering command installs for each severity. */
  function LogLine(severity: Severity, text: string): (line: string)
    ensures |text| < |line| && line[|line| - |text|..] == text
    ensures line[0] == (if severity == Info then '[' else ':')
  {
    match severity
    case Info => LogInfo(text)
    case Warning => LogWarning(text)
  }

  /**
   * Reading a log line back: which prefix it starts with and the text after
   * it; `None` for a line neither formatter produces.
   */
  function ParseLogLine(line: string): (r: Option<(Severity, string)>)
    ensures r.Some? && r.value.0 == Info ==> line == LogInfo(r.value.1)
    ensures r.Some? && r.value.0 == Warning ==> line == LogWarning(r.value.1)
  {
    if |InfoPrefix| <= |line| && line[..|InfoPrefix|] == InfoPrefix then
      assert line == InfoPrefix + line[|InfoPrefix|..];
      Some((Info, line[|InfoPrefix|..]))
    else if |WarningPrefix| <= |line| && line[..|WarningPrefix|] == WarningPrefix then
      assert line == WarningPrefix + line[|WarningPrefix|..];
      Some((Warning, line[|WarningPrefix|..]))
    else
      None
  }

  /** The two prefixes already differ in their first character. */
  lemma PrefixesDiffer()
    ensures InfoPrefix[0] == '[' && WarningPrefix[0] == ':'
  {
  }

  /** Severity and text are recovered from every formatted line. */
  lemma LogLineRoundTrip(severity: Severity, text: string)
    ensures ParseLogLine(LogLine(severity, text)) == Some((severity, text))
  {
    var line := LogLine(severity, text);
    PrefixesDiffer();
    if severity == Warning {
      assert line[0] == ':';
      assert line[..|InfoPrefix|] != InfoPrefix by {
        assert line[..|InfoPrefix|][0] == ':';
      }
    }
  }

  /** Formatting loses nothing: distinct severity-and-text pairs give distinct lines. */
  lemma LogLineInjective(s1: Severity, t1: string, s2: Severity, t2: string)
    requires LogLine(s1, t1) == LogLine(s2, t2)
    ensures s1 == s2 && t1 == t2
  {
    LogLineRoundTrip(s1, t1);
    LogLineRoundTrip(s2, t2);
  }

  // ---------------------------------------------------------------------
  // Erase character: the regex `; erase = (\^.);` over `stty -a` output
  // ---------------------------------------------------------------------

  /** The literal text the pattern starts with. */
  const EraseKey: string := "; erase = "
  /** Length of a whole match: the key, `^`, one character, `;`. */
  const MatchLength: nat := |EraseKey| + 3

  /** The `erase = ^c;` field as `stty -a` prints it, with the `;` that ends the field before it. */
  function EraseField(c: char): (field: string)
    ensures |field| == MatchLength
    ensures field[..|EraseKey|] == EraseKey && field[|EraseKey|..] == ['^', c, ';']
  {
    EraseKey + ['^', c, ';']
  }

  /**
   * The pattern matches at `i`: the key, then `^`, then any character but a
   * newline (the regex `.`), then `;`. Equivalently, the text at `i` is the
   * field `stty` prints for an erase character other than a newline.
   */
  function EraseMatchAt(s: string, i: nat): (b: bool)
    ensures b <==> && i + MatchLength <= |s|
                   && s[i + |EraseKey| + 1] != '\n'
                   && s[i..i + MatchLength] == EraseField(s[i + |EraseKey| + 1])
  {
    && i + MatchLength <= |s|
    && s[i..i + |EraseKey|] == EraseKey
    && s[i + |EraseKey|] == '^'
    && s[i + |EraseKey| + 1] != '\n'
    && s[i + |EraseKey| + 2] == ';'
  }

  /** The captured group of a match at `i`: `^` and the character after it. */
  function GroupAt(s: string, i: nat): (group: string)
    requires i + MatchLength <= |s|
    ensures |group| == 2
    ensures EraseMatchAt(s, i) ==> group == ['^', s[i + |EraseKey| + 1]]
  {
    s[i + |EraseKey|..i + |EraseKey| + 2]
  }

  /** The regex scan from position `from`: the leftmost match at or after it. */
  function FirstMatchFrom(s: string, from: nat): (r: Option<nat>)
    requires from <= |s|
    ensures r.Some? ==> from <= r.value && EraseMatchAt(s, r.value)
    ensures r.Some? ==> forall j :: from <= j < r.value ==> !EraseMatchAt(s, j)
    ensures r.None? ==> forall j :: from <= j ==> !EraseMatchAt(s, j)
    decreases |s| - from
  {
    if from + MatchLength > |s| then None
    else if EraseMatchAt(s, from) then Some(from)
    else FirstMatchFrom(s, from + 1)
  }

  /**
   * `pttrn.findall(settings)[0]`: the group `^` plus one character of the
   * leftmost match, or `None` where the empty list makes the index fail.
   */
  function ParseEraseChar(settings: string): (r: Option<string>)
    ensures r.None? <==> forall j :: !EraseMatchAt(settings, j)
    ensures r.Some? ==> |r.value| == 2 && r.value[0] == '^' && r.value[1] != '\n'
    ensures r.Some? ==> exists i: nat :: && EraseMatchAt(settings, i)
                                    && r.value == GroupAt(settings, i)
                                    && forall j :: 0 <= j < i ==> !EraseMatchAt(settings, j)
  {
    match FirstMatchFrom(settings, 0)
    case None => None
    case Some(i) => Some(GroupAt(settings, i))
  }

  /** A match with none before it is the one whose group is returned. */
  lemma LeftmostMatch(s: string, i: nat)
    requires EraseMatchAt(s, i)
    requires forall j :: 0 <= j < i ==> !EraseMatchAt(s, j)
    ensures ParseEraseChar(s) == Some(GroupAt(s, i))
  {
  }

  /** The failure `get_erase_char` can raise. */
  datatype LookupError = IndexError

  /**
   * `get_erase_char`, given whether the system is POSIX and the text
   * `stty -a` printed: `None` off POSIX, the erase character when the
   * pattern occurs, and `IndexError` when it does not.
   */
  function GetEraseChar(isPosix: bool, settings: string): (r: Result<Option<string>, LookupError>)
    ensures !isPosix ==> r == Success(None)
    ensures isPosix ==> (r.Failure? <==> forall j :: !EraseMatchAt(settings, j))
    ensures isPosix && r.Success? ==> r.value == ParseEraseChar(settings) && r.value.Some?
  {
    if !isPosix then Success(None)
    else
      match ParseEraseChar(settings)
      case None => Failure(IndexError)
      case Some(e) => Success(Some(e))
  }

  /** A field at the very start is the match found, whatever follows, later fields included. */
  lemma FieldFirst(c: char, rest: string)
    requires c != '\n'
    ensures ParseEraseChar(EraseField(c) + rest) == Some(['^', c])
  {
    var s := EraseField(c) + rest;
    assert s[..MatchLength] == EraseField(c);
    assert EraseMatchAt(s, 0);
    assert GroupAt(s, 0) == ['^', c];
    LeftmostMatch(s, 0);
  }

  /**
   * A field preceded by text holding no `;` is the match found, whatever
   * follows it, including other fields.
   */
  lemma FieldAfterPlainText(prefix: string, c: char, rest: string)
    requires ';' !in prefix && c != '\n'
    ensures ParseEraseChar(prefix + EraseField(c) + rest) == Some(['^', c])
  {
    var s := prefix + EraseField(c) + rest;
    var k := |prefix|;
    assert s[k..k + MatchLength] == EraseField(c);
    assert EraseMatchAt(s, k);
    forall j | 0 <= j < k ensures !EraseMatchAt(s, j) {
      assert s[j] == prefix[j];
      assert s[j..j + |EraseKey|][0] == s[j];
    }
    assert GroupAt(s, k) == ['^', c];
    LeftmostMatch(s, k);
  }

  /** No match starts where the text does not begin with `; e`, the first three characters of the key. */
  lemma NoMatchAt(s: string, j: nat)
    requires j + 2 < |s|
    requires !(s[j] == ';' && s[j + 1] == ' ' && s[j + 2] == 'e')
    ensures !EraseMatchAt(s, j)
  {
    if j + |EraseKey| <= |s| {
      assert s[j..j + |EraseKey|][0] == s[j];
      assert s[j..j + |EraseKey|][1] == s[j + 1];
      assert s[j..j + |EraseKey|][2] == s[j + 2];
    }
  }

  /**
   * A field after one earlier field that ends in `;`: the earlier `;` does
   * not start a match because no ` e` follows it, so the erase field is found.
   */
  lemma FieldAfterOneField(p1: string, p2: string, c: char, rest: string)
    requires ';' !in p1 && ';' !in p2 && c != '\n'
    requires !(|p2| >= 2 && p2[0] == ' ' && p2[1] == 'e')
    ensures ParseEraseChar(p1 + ";" + p2 + EraseField(c) + rest) == Some(['^', c])
  {
    var s := p1 + ";" + p2 + EraseField(c) + rest;
    var k := |p1| + 1 + |p2|;
    assert s[k..k + MatchLength] == EraseField(c);
    assert EraseMatchAt(s, k);
    forall j | 0 <= j < k ensures !EraseMatchAt(s, j) {
      if j < |p1| {
        assert s[j] == p1[j];
      } else if j == |p1| {
        if |p2| >= 2 {
          assert s[j + 1] == p2[0] && s[j + 2] == p2[1];
        } else if |p2| == 1 {
          assert s[j + 2] == EraseField(c)[0] == ';';
        } else {
          assert s[j + 1] == EraseField(c)[0] == ';';
        }
      } else {
        assert s[j] == p2[j - |p1| - 1];
      }
      NoMatchAt(s, j);
    }
    assert GroupAt(s, k) == ['^', c];
    LeftmostMatch(s, k);
  }

  /**
   * A typical Linux `stty -a` line, `intr = ^C; quit = ^\\; erase = ^?; kill = ^U;`:
   * the erase field follows `intr` and `quit`, each ending in `;`.
   */
  lemma LinuxSettingsExample(settings: string)
    requires settings == "intr = ^C; quit = ^\\" + EraseField('?') + " kill = ^U;\n"
    ensures ParseEraseChar(settings) == Some("^?")
  {
    assert "intr = ^C; quit = ^\\" == "intr = ^C" + ";" + " quit = ^\\";
    FieldAfterOneField("intr = ^C", " quit = ^\\", '?', " kill = ^U;\n");
  }

  /** Overlapping fields: the leftmost wins, as with `findall(...)[0]`. */
  lemma OverlapExample(settings: string)
    requires settings == "; erase = ^x; erase = ^c;"
    ensures ParseEraseChar(settings) == Some("^x")
  {
    assert settings == EraseField('x') + " erase = ^c;";
    FieldFirst('x', " erase = ^c;");
  }

  /**
   * The regex `.` does not match a newline, so an erase character shown as a
   * newline is not found and the lookup raises `IndexError`.
   */
  lemma NewlineEraseFails(settings: string)
    requires settings == EraseField('\n')
    ensures GetEraseChar(true, settings) == Failure(IndexError)
  {
    forall j ensures !EraseMatchAt(settings, j) {
      if j == 0 {
        assert settings[|EraseKey| + 1] == '\n';
      }
    }
  }

  // ---------------------------------------------------------------------
  // Restoring the terminal
  // ---------------------------------------------------------------------

  /** The erase character `repair_console` restores when none is given. */
  const DefaultEraseChar: string := "^H"

  /**
   * The shell commands `repair_console` issues, in order: none off POSIX;
   * otherwise `stty sane`, then `stty erase` with the character verbatim.
   */
  function RepairConsole(isPosix: bool, eraseChar: string): (commands: seq<string>)
    ensures !isPosix ==> commands == []
    ensures isPosix ==> |commands| == 2 && commands[0] == "stty sane"
    ensures isPosix ==> |commands[1]| == 11 + |eraseChar|
    ensures isPosix ==> commands[1][..11] == "stty erase " && commands[1][11..] == eraseChar
  {
    if isPosix then ["stty sane", "stty erase " + eraseChar] else []
  }

  /** With the default argument the second command is `stty erase ^H`. */
  lemma RepairDefault()
    ensures RepairConsole(true, DefaultEraseChar) == ["stty sane", "stty erase ^H"]
  {
    assert "stty erase " + DefaultEraseChar == "stty erase ^H";
  }

  /**
   * Restoring what was read: a successful lookup followed by a repair issues
   * `stty erase ^c` for the leftmost field's character, thirteen characters long.
   */
  lemma RestoreWhatWasRead(settings: string, e: string)
    requires GetEraseChar(true, settings) == Success(Some(e))
    ensures RepairConsole(true, e)[1] == "stty erase " + e
    ensures |RepairConsole(true, e)[1]| == 13
    ensures RepairConsole(true, e)[1][11] == '^'
  {
  }
}
