/**
 * The pure parts of the three ppvid commands: the output file names that
 * `master-video` and `convert4lecture` derive from their input, and the
 * parameters `speed-up` hands to the silence detector.
 */
module Cli {

  import opened Wrappers
  import opened PyText

  // ---------------------------------------------------------------------
  // Output-file names
  // ---------------------------------------------------------------------

  /** The separator both commands split the input name on. */
  const Dot: char := '.'

  /**
   * `infile.split('.')`: never empty, no piece holds a dot, a single piece
   * exactly when the input has no dot, and joining with dots rebuilds it.
   */
  function Pieces(infile: string): (pieces: seq<string>)
    ensures |pieces| >= 1
    ensures forall k :: 0 <= k < |pieces| ==> Dot !in pieces[k]
    ensures |pieces| == 1 <==> Dot !in infile
    ensures JoinWith(pieces, Dot) == infile
  {
    SplitPieces(infile, Dot);
    JoinSplit(infile, Dot);
    SplitOn(infile, Dot)
  }

  /** `pieces[n-1]`: the last piece, taken as the extension; it holds no dot. */
  function Extension(infile: string): (ext: string)
    ensures Dot !in ext
    ensures Dot !in infile ==> ext == infile
  {
    var pieces := Pieces(infile);
    pieces[|pieces| - 1]
  }

  /**
   * `'.'.join(pieces[:-1])`: everything before the last dot. With a dot,
   * stem, dot and extension rebuild the input; without one the stem is empty.
   */
  function Stem(infile: string): (stem: string)
    ensures Dot in infile ==> stem + "." + Extension(infile) == infile
    ensures Dot !in infile ==> stem == ""
  {
    var pieces := Pieces(infile);
    assert |pieces| >= 2 ==>
             JoinWith(pieces, Dot)
             == JoinWith(pieces[..|pieces| - 1], Dot) + [Dot] + pieces[|pieces| - 1] by {
      if |pieces| >= 2 {
        JoinSnoc(pieces, Dot);
      }
    }
    JoinWith(pieces[..|pieces| - 1], Dot)
  }

  /**
   * Stem and extension are the text on either side of the rightmost dot of
   * the whole path (directory parts included); with no dot, the stem is
   * empty.
   */
  lemma StemAtLastDot(infile: string)
    ensures match LastIndexOf(infile, Dot)
            case Some(i) => Stem(infile) == infile[..i] && Extension(infile) == infile[i + 1..]
            case None => Stem(infile) == "" && Extension(infile) == infile
  {
    var stem, ext := Stem(infile), Extension(infile);
    match LastIndexOf(infile, Dot)
    case Some(i) =>
      assert infile[|stem|] == Dot;
      forall j | |stem| < j < |infile| ensures infile[j] != Dot {
        assert infile[j] == ext[j - |stem| - 1];
      }
      assert i == |stem|;
      assert infile[..i] == stem;
      assert infile[i + 1..] == ext;
    case None =>
  }

  /**
   * Output name of `master-video`: the input with `_mastered` inserted before
   * its rightmost dot, so nine characters longer; a dot-free input gets
   * `_mastered.` in front.
   */
  function MasteredName(infile: string): (outfile: string)
    ensures match LastIndexOf(infile, Dot)
            case Some(i) => outfile == infile[..i] + "_mastered." + infile[i + 1..]
            case None => outfile == "_mastered." + infile
    ensures Dot in infile ==> |outfile| == |infile| + 9
  {
    StemAtLastDot(infile);
    Stem(infile) + "_mastered." + Extension(infile)
  }

  /**
   * Output name of `convert4lecture`: the input up to its rightmost dot
   * followed by `_converted.mp4`, and exactly `_converted.mp4` for a
   * dot-free input; it always ends in `.mp4`.
   */
  function ConvertedName(infile: string): (outfile: string)
    ensures match LastIndexOf(infile, Dot)
            case Some(i) => outfile == infile[..i] + "_converted.mp4"
            case None => outfile == "_converted.mp4"
    ensures |outfile| >= 4 && outfile[|outfile| - 4..] == ".mp4"
  {
    StemAtLastDot(infile);
    Stem(infile) + "_converted.mp4"
  }

  /** Appending a dot and a dot-free tail to any text splits back into both. */
  lemma {:induction false} SplitOffExtension(head: string, ext: string)
    requires Dot !in ext
    ensures Stem(head + "." + ext) == head
    ensures Extension(head + "." + ext) == ext
  {
    var s := head + "." + ext;
    assert s == head + [Dot] + ext;
    SplitAround(head, ext, Dot);
    SplitFree(ext, Dot);
    var ph := SplitOn(head, Dot);
    assert Pieces(s) == ph + [ext];
    assert Pieces(s)[..|Pieces(s)| - 1] == ph;
    JoinSplit(head, Dot);
  }

  /** Mastering keeps the extension and appends `_mastered` to the stem. */
  lemma {:induction false} MasteredKeepsExtension(infile: string)
    ensures Extension(MasteredName(infile)) == Extension(infile)
    ensures Stem(MasteredName(infile)) == Stem(infile) + "_mastered"
  {
    assert MasteredName(infile) == (Stem(infile) + "_mastered") + "." + Extension(infile);
    SplitOffExtension(Stem(infile) + "_mastered", Extension(infile));
  }

  /** Converting always yields extension `mp4` and appends `_converted` to the stem. */
  lemma {:induction false} ConvertedForcesMp4(infile: string)
    ensures Extension(ConvertedName(infile)) == "mp4"
    ensures Stem(ConvertedName(infile)) == Stem(infile) + "_converted"
  {
    assert ConvertedName(infile) == (Stem(infile) + "_converted") + "." + "mp4";
    SplitOffExtension(Stem(infile) + "_converted", "mp4");
  }

  // Worked cases. Each input is a parameter pinned by `requires` and written
  // as stem, dot and extension, so the verifier reasons from the general
  // lemmas instead of evaluating the splitting functions on a literal.

  /** A plain name: `talk.mp4` becomes `talk_mastered.mp4` and `talk_converted.mp4`. */
  lemma PlainNames(infile: string)
    requires infile == "talk" + "." + "mp4"
    ensures MasteredName(infile) == "talk" + "_mastered." + "mp4"
    ensures ConvertedName(infile) == "talk" + "_converted.mp4"
  {
    SplitOffExtension("talk", "mp4");
  }

  /** Earlier dots stay in the stem: `a.b.mp4` becomes `a.b_mastered.mp4`. */
  lemma ExtraDotsNames(infile: string)
    requires infile == "a.b" + "." + "mp4"
    ensures MasteredName(infile) == "a.b" + "_mastered." + "mp4"
  {
    SplitOffExtension("a.b", "mp4");
  }

  /** A dot in a directory part is cut at when the file name itself has none: `clips.v2/talk` becomes `clips_mastered.v2/talk`. */
  lemma DirectoryDotNames(infile: string)
    requires infile == "clips" + "." + "v2/talk"
    ensures MasteredName(infile) == "clips" + "_mastered." + "v2/talk"
  {
    SplitOffExtension("clips", "v2/talk");
  }

  /** Whatever the input extension, the converted name ends in `.mp4`: `lecture.mov` becomes `lecture_converted.mp4`. */
  lemma LectureNames(infile: string)
    requires infile == "lecture" + "." + "mov"
    ensures ConvertedName(infile) == "lecture" + "_converted.mp4"
  {
    SplitOffExtension("lecture", "mov");
  }

  /** No dot: `talk` becomes `_mastered.talk` and `_converted.mp4`. */
  lemma NoDotNames(infile: string)
    requires infile == "talk"
    ensures MasteredName(infile) == "_mastered.talk"
    ensures ConvertedName(infile) == "_converted.mp4"
  {
    assert Dot !in infile;
  }

  // ---------------------------------------------------------------------
  // speed-up: parameters passed to the silence detector
  // ---------------------------------------------------------------------

  /** Command-line defaults of `--speed` and `--dthresh`. */
  const DefaultSpeed: real := 2.5
  const DefaultDurationThreshold: real := 0.75

  /** Lower bound on the short-interval threshold, in seconds. */
  const MinShortInterval: real := 0.5
  /** Fixed smoothing time handed to the detector, in seconds. */
  const StretchTime: real := 0.325

  /** Python's two-argument `max`: the first argument unless the second is larger. */
  function PyMax(a: real, b: real): (m: real)
    ensures m >= a && m >= b
    ensures m == a || m == b
  {
    if b > a then b else a
  }

  /**
   * `max(dthresh / speed, 0.5)`; a zero speed raises `ZeroDivisionError`,
   * modelled as `None`.
   */
  function ShortIntervalThreshold(dthresh: real, speed: real): (r: Option<real>)
    ensures r.None? <==> speed == 0.0
    ensures r.Some? ==> r.value >= MinShortInterval && r.value >= dthresh / speed
    ensures r.Some? ==> r.value == MinShortInterval || r.value == dthresh / speed
  {
    if speed == 0.0 then None else Some(PyMax(dthresh / speed, MinShortInterval))
  }

  /** For a positive speed the floor applies exactly when `dthresh <= speed / 2`. */
  lemma ThresholdFloorCase(dthresh: real, speed: real)
    requires speed > 0.0
    ensures ShortIntervalThreshold(dthresh, speed) == Some(MinShortInterval)
            <==> dthresh <= MinShortInterval * speed
    ensures ShortIntervalThreshold(dthresh, speed) == Some(dthresh / speed)
            <==> dthresh >= MinShortInterval * speed
  {
  }

  /** With the command-line defaults (0.75 s at speed 2.5) the floor of 0.5 s wins. */
  lemma DefaultThreshold()
    ensures ShortIntervalThreshold(DefaultDurationThreshold, DefaultSpeed) == Some(0.5)
  {
  }

  /** The keyword arguments of the `detect_silence` call. */
  datatype DetectSilenceArgs = DetectSilenceArgs(
    silenceLevel: real,
    silenceTimeThreshold: real,
    shortIntervalThreshold: real,
    stretchTime: real)

  /**
   * The arguments `speed-up` passes to the detector: the two thresholds as
   * given, the derived short-interval threshold and the fixed stretch time.
   */
  function DetectArgs(vthresh: real, dthresh: real, speed: real): (r: Option<DetectSilenceArgs>)
    ensures r.None? <==> speed == 0.0
    ensures r.Some? ==> r.value.silenceLevel == vthresh
    ensures r.Some? ==> r.value.silenceTimeThreshold == dthresh
    ensures r.Some? ==> r.value.stretchTime == 0.325
    ensures r.Some? ==> Some(r.value.shortIntervalThreshold) == ShortIntervalThreshold(dthresh, speed)
    ensures r.Some? ==> r.value.shortIntervalThreshold >= 0.5
    ensures r.Some? ==> r.value.shortIntervalThreshold >= dthresh / speed
  {
    match ShortIntervalThreshold(dthresh, speed)
    case None => None
    case Some(t) => Some(DetectSilenceArgs(vthresh, dthresh, t, StretchTime))
  }

  // ---------------------------------------------------------------------
  // master-video: the length bound passed to the matcher
  // ---------------------------------------------------------------------

  /** `mg.Config(max_length = 120 * 60)`, in seconds. */
  const MaxLengthSeconds: nat := 120 * 60

  /** The matcher accepts at most two hours of audio. */
  lemma MaxLengthIsTwoHours()
    ensures MaxLengthSeconds == 7200
    ensures MaxLengthSeconds / 3600 == 2 && MaxLengthSeconds % 3600 == 0
  {
  }
}
