# ppvid: output names, detector parameters and terminal helpers

ppvid is a command-line front end with three commands: `speed-up` (speed up
the silent parts of a video), `master-video` (master a video's audio against
a reference track) and `convert4lecture` (transcode to an mp4). Almost all of
the work is done by external tools and libraries. This project models the
pure logic that sits between those calls, in four Dafny modules:

- `PyText`: Python's `str.split(c)` and `c.join(pieces)` for a one-character
  separator, with the two round trips between them, and `LastIndexOf`, an
  independent description of "the rightmost separator".
- `Cli` (`ppvid/cli.py`): the output name of `master-video`
  (`stem + "_mastered." + ext`) and of `convert4lecture`
  (`stem + "_converted.mp4"`), both built from `infile.split('.')`; the
  short-interval threshold `max(dthresh / speed, 0.5)` and the other
  arguments `speed-up` passes to the silence detector; the matcher's length
  bound of `120 * 60` seconds.
- `Utilities` (`ppvid/utilities.py`): the two log-line formatters, the
  regex lookup `; erase = (\^.);` over the text `stty -a` prints, and the
  shell commands `repair_console` issues, returned as a list of strings
  rather than run.
- `Wrappers`: `Option` and `Result`.

The name derivation splits the whole path, not just the file name, and takes
the last piece as the extension. The proved consequences are exact: the
mastered name is the input with `_mastered` inserted before its rightmost dot,
the converted name is the input up to the rightmost dot followed by
`_converted.mp4`, and a dot-free input has an empty stem, so `talk` becomes
`_mastered.talk` and `_converted.mp4`. The `master_video` docstring
(ppvid/cli.py:98-99) says only that `_mastered` is appended to the file
name; the model follows the code, including for dot-free names and for dots
in directory parts (`clips.v2/talk` becomes `clips_mastered.v2/talk`).

Error paths are values: a zero `speed` (Python's `ZeroDivisionError`) makes
the threshold `None`; `get_erase_char` returns `Success(None)` off POSIX,
`Success(Some(e))` when the pattern occurs and `Failure(IndexError)` when
`findall` returns an empty list. Whether the system is POSIX and the text
`stty -a` printed are parameters.

## Model

| member | source | states |
|---|---|---|
| `PyText.SplitOn` | ppvid/cli.py:155 | `split` always yields at least one piece |
| `PyText.SplitPieces` | ppvid/cli.py:155 | no piece contains the separator; there is exactly one piece iff the input holds no separator |
| `PyText.JoinWith` | ppvid/cli.py:158 | `join` of one piece is that piece and of no pieces is the empty string |
| `PyText.JoinSplit` | ppvid/cli.py:155-158 | `c.join(s.split(c)) == s` for every string |
| `PyText.SplitJoin` | ppvid/cli.py:155-158 | `c.join(ps).split(c) == ps` for every non-empty list of separator-free pieces |
| `PyText.SplitAround` | ppvid/cli.py:155 | splitting `a + c + b` gives the pieces of `a` followed by those of `b` |
| `PyText.JoinSnoc` | ppvid/cli.py:158 | joining two or more pieces is joining all but the last, a separator, then the last |
| `PyText.LastIndexOf` | ppvid/cli.py:155-157 | the position found holds the separator and none follows it; `None` exactly when the separator is absent |
| `Cli.Pieces` | ppvid/cli.py:155 | `infile.split('.')` is never empty, no piece holds a dot, there is one piece exactly when the input has no dot, and joining the pieces with dots gives the input back |
| `Cli.Extension` | ppvid/cli.py:156-157 | the extension `pieces[n-1]` holds no dot, and is the whole input when the input has none |
| `Cli.Stem` | ppvid/cli.py:158 | with a dot in the input, stem + `.` + extension is the input; without one the stem `'.'.join(pieces[:-1])` is empty |
| `Cli.StemAtLastDot` | ppvid/cli.py:155-158 | stem and extension are the text before and after the rightmost dot of the whole path |
| `Cli.MasteredName` | ppvid/cli.py:155-158 | the mastered name is the input with `_mastered` inserted before its rightmost dot, so nine characters longer, or `_mastered.` + input when there is no dot |
| `Cli.ConvertedName` | ppvid/cli.py:207-208 | the converted name is the input up to its rightmost dot + `_converted.mp4`, exactly `_converted.mp4` without a dot, and always ends in `.mp4` |
| `Cli.SplitOffExtension` | ppvid/cli.py:155-158 | for any head and dot-free tail, `head + "." + tail` has stem `head` and extension `tail` |
| `Cli.MasteredKeepsExtension` | ppvid/cli.py:155-158 | the mastered name keeps the input's extension and its stem is the input's stem + `_mastered` |
| `Cli.ConvertedForcesMp4` | ppvid/cli.py:207-208 | the converted name's extension is `mp4` and its stem is the input's stem + `_converted` |
| `Cli.PlainNames` | ppvid/cli.py:155-158 | `talk.mp4` gives `talk_mastered.mp4` and `talk_converted.mp4` |
| `Cli.ExtraDotsNames` | ppvid/cli.py:155-158 | `a.b.mp4` gives `a.b_mastered.mp4`: earlier dots stay in the stem |
| `Cli.DirectoryDotNames` | ppvid/cli.py:155-158 | `clips.v2/talk` gives `clips_mastered.v2/talk`: the dot of a directory part is cut at |
| `Cli.LectureNames` | ppvid/cli.py:207-208 | `lecture.mov` gives `lecture_converted.mp4` |
| `Cli.NoDotNames` | ppvid/cli.py:155-158 | `talk` gives `_mastered.talk` and `_converted.mp4` |
| `Cli.PyMax` | ppvid/cli.py:61 | Python's `max` of two values is at least both and equal to one of them |
| `Cli.ShortIntervalThreshold` | ppvid/cli.py:61 | the threshold is `None` exactly for speed 0; otherwise it is at least 0.5, at least `dthresh / speed`, and equal to one of the two |
| `Cli.ThresholdFloorCase` | ppvid/cli.py:61 | for positive speed the threshold is 0.5 iff `dthresh <= speed / 2`, and `dthresh / speed` iff `dthresh >= speed / 2` |
| `Cli.DefaultThreshold` | ppvid/cli.py:34-61 | with the defaults `dthresh = 0.75`, `speed = 2.5` the threshold is 0.5 |
| `Cli.DetectArgs` | ppvid/cli.py:58-63 | the detector gets the volume and duration thresholds unchanged, stretch time 0.325 and exactly the short-interval threshold `max(dthresh / speed, 0.5)` (so at least 0.5 and at least `dthresh / speed`), and no call is made for speed 0 |
| `Cli.MaxLengthIsTwoHours` | ppvid/cli.py:140 | the matcher's length bound is 7200 seconds, exactly two hours |
| `Utilities.LogInfo` | ppvid/utilities.py:18-20 | the info line is `[bold]INFO:[/bold] ` followed by the text verbatim |
| `Utilities.LogWarning` | ppvid/utilities.py:23-25 | the warning line is `:warning: [bold red]WARNING:[/bold red] ` followed by the text verbatim |
| `Utilities.LogLine` | ppvid/cli.py:126-128 | the line handed on for a matcher message ends with the message verbatim and starts with `[` for information and `:` for a warning, the first characters of the two prefixes |
| `Utilities.ParseLogLine` | ppvid/utilities.py:18-25 | a line read back as a severity and a text is exactly the line that formatter produces for that text |
| `Utilities.PrefixesDiffer` | ppvid/utilities.py:20-25 | the two prefixes start with `[` and `:` |
| `Utilities.LogLineRoundTrip` | ppvid/utilities.py:18-25 | severity and text are recovered from every formatted line |
| `Utilities.LogLineInjective` | ppvid/utilities.py:18-25 | equal log lines come from the same severity and the same text |
| `Utilities.EraseField` | ppvid/utilities.py:7 | the field the pattern looks for is the key `; erase = `, then `^`, the character and `;`, thirteen characters in all |
| `Utilities.EraseMatchAt` | ppvid/utilities.py:7 | the pattern matches at a position exactly when the text there is the erase field of a character other than a newline |
| `Utilities.GroupAt` | ppvid/utilities.py:7 | the captured group `(\^.)` is two characters long and, at a match, is `^` followed by the matched character |
| `Utilities.FirstMatchFrom` | ppvid/utilities.py:7-9 | the scan returns the leftmost position at or after its start where the pattern matches, or `None` when there is none |
| `Utilities.ParseEraseChar` | ppvid/utilities.py:7-9 | `findall(...)[0]` is `None` exactly when nothing matches; otherwise it has length 2, starts with `^`, holds no newline, and is the group of the leftmost match |
| `Utilities.GetEraseChar` | ppvid/utilities.py:5-9 | off POSIX the result is `None`; on POSIX it is `IndexError` exactly when nothing matches and otherwise the parsed erase character |
| `Utilities.LeftmostMatch` | ppvid/utilities.py:7-9 | a match with no match before it is the one whose group `findall(...)[0]` returns |
| `Utilities.FieldFirst` | ppvid/utilities.py:7-9 | a field `; erase = ^c;` at the start of the text yields `^c` whatever follows, later fields included |
| `Utilities.FieldAfterPlainText` | ppvid/utilities.py:7-9 | a field preceded by text without `;` yields its own `^c` |
| `Utilities.NoMatchAt` | ppvid/utilities.py:7 | no match of the pattern starts where the text does not begin with `; e` |
| `Utilities.FieldAfterOneField` | ppvid/utilities.py:7-9 | a field after one earlier `;`-terminated field not followed by ` e` yields its own `^c`, whatever follows |
| `Utilities.LinuxSettingsExample` | ppvid/utilities.py:7-9 | the Linux line `intr = ^C; quit = ^\; erase = ^?; kill = ^U;` yields `^?` |
| `Utilities.OverlapExample` | ppvid/utilities.py:7-9 | in `; erase = ^x; erase = ^c;` the leftmost field wins: `^x` |
| `Utilities.NewlineEraseFails` | ppvid/utilities.py:5-9 | an erase field whose character is a newline is not matched, so the lookup raises `IndexError` |
| `Utilities.RepairConsole` | ppvid/utilities.py:12-15 | off POSIX no command; on POSIX exactly `stty sane` then `stty erase ` followed by the character verbatim |
| `Utilities.RepairDefault` | ppvid/utilities.py:12-15 | with the default argument the commands are `stty sane` and `stty erase ^H` |
| `Utilities.RestoreWhatWasRead` | ppvid/utilities.py:5-15 | after a successful lookup the repair command is `stty erase ^c`, 13 characters long |

## Left out

- The ffmpeg demux, remux and transcode calls (ppvid/cli.py:121-124, 153-163, 209-215): external process; the encoder arguments (`libx264`, `aac`, `faststart`, `crf`, `preset`) are passed through and not modelled.
- Silence detection and rendering by unsilence (ppvid/cli.py:48-80), including its thread count: external library; only the arguments of `detect_silence` are modelled.
- Matchering processing and pyloudnorm peak and loudness normalisation (ppvid/cli.py:126-152): foreign floating-point signal processing; only the length bound and the routing of the two log handlers (ppvid/cli.py:126-128) are modelled, the targets -1.0 dB and -15.0 LUFS are passed straight through.
- The rich progress display, console printing and the `update_task` callbacks: user-interface library.
- `TemporaryDirectory`, `getcwd` and `os.path.join(cwd, outfile)`, `sys.exit`, click option parsing: file system, process and library behaviour; the model gives the name before it is joined with the working directory.
- Running `os.popen('stty -a')` and `os.system(...)`: terminal I/O; the model takes the printed text as input and returns the command strings.
- The bracketing of each command by `get_erase_char`/`repair_console` when `exit` is true (ppvid/cli.py:41-43, 83-85 and the like): it only orders terminal side effects around the external calls, and both halves are modelled as functions.
- `Cli.ShortIntervalThreshold`: computes over exact reals, not IEEE doubles, so rounding, infinities and NaN are not modelled.
- `Utilities.ParseEraseChar`: models the one fixed pattern directly, not a general regular-expression engine; `findall`'s later matches are not computed since only the first is used.
