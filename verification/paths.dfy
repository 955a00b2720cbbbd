/** Names built by `download_stream` and `convert_mjpeg_to_mp4`: the
    normalised output directory, the timestamp stem of a segment, the raw and
    transcoded paths that share it, and the transcoder's argument vector. */
module Paths {
  import opened Wrappers
  import opened Strings

  /** The extension of a raw segment, as written during capture. */
  const RawExt: string := "mjpeg"
  /** The extension of a transcoded segment. */
  const TranscodedExt: string := "mp4"

  // ---------------------------------------------------------------------------
  // Directory normalisation: `directory.rstrip('/\\')`

  predicate IsSep(c: char)
  {
    c == '/' || c == '\\'
  }

  /** Removes every trailing '/' and '\'. */
  function StripTrailingSeps(s: string): (r: string)
    ensures r <= s
    ensures r == [] || !IsSep(r[|r| - 1])
    ensures forall i :: |r| <= i < |s| ==> IsSep(s[i])
    decreases |s|
  {
    if |s| > 0 && IsSep(s[|s| - 1]) then StripTrailingSeps(s[..|s| - 1]) else s
  }

  /** Normalising an already normalised directory changes nothing. */
  lemma StripTrailingSepsIdempotent(s: string)
    ensures StripTrailingSeps(StripTrailingSeps(s)) == StripTrailingSeps(s)
  {
  }

  /** Normalisation only removes separators: the input is the result followed
      by a run of separators, and any such input gives back the same result. */
  lemma {:induction false} StripTrailingSepsOfPadded(s: string, seps: string)
    requires s == [] || !IsSep(s[|s| - 1])
    requires forall i :: 0 <= i < |seps| ==> IsSep(seps[i])
    ensures StripTrailingSeps(s + seps) == s
    decreases |seps|
  {
    if |seps| == 0 {
      assert s + seps == s;
    } else {
      assert (s + seps)[..|s + seps| - 1] == s + seps[..|seps| - 1];
      StripTrailingSepsOfPadded(s, seps[..|seps| - 1]);
    }
  }

  // ---------------------------------------------------------------------------
  // The segment stem: `strftime("%Y-%m-%d_%H-%M-%S")`

  /** Broken-down local time at second resolution. */
  datatype DateTime = DateTime(year: nat, month: nat, day: nat, hour: nat, minute: nat, second: nat)
  {
    /** The field ranges of a clock reading (`datetime` years run 1 to 9999). */
    predicate InRange()
    {
      1 <= year <= 9999 && 1 <= month <= 12 && 1 <= day <= 31
      && hour < 24 && minute < 60 && second < 60
    }
  }

  predicate IsDigit(c: char)
  {
    '0' <= c <= '9'
  }

  function DigitChar(d: nat): (c: char)
    requires d < 10
    ensures IsDigit(c)
  {
    '0' + d as char
  }

  function DigitValue(c: char): (d: nat)
    requires IsDigit(c)
    ensures d < 10 && DigitChar(d) == c
  {
    (c - '0') as nat
  }

  predicate AllDigits(s: string)
  {
    forall i :: 0 <= i < |s| ==> IsDigit(s[i])
  }

  /** The decimal value of a string of digits. */
  function ReadNumber(s: string): (n: nat)
    requires AllDigits(s)
    decreases |s|
  {
    if |s| == 0 then 0 else ReadNumber(s[..|s| - 1]) * 10 + DigitValue(s[|s| - 1])
  }

  /** `n` in exactly `width` decimal digits, with leading zeros. */
  function Pad(n: nat, width: nat): (s: string)
    ensures |s| == width && AllDigits(s)
    decreases width
  {
    if width == 0 then [] else Pad(n / 10, width - 1) + [DigitChar(n % 10)]
  }

  function Pow10(k: nat): (p: nat)
    ensures p >= 1
  {
    if k == 0 then 1 else 10 * Pow10(k - 1)
  }

  /** Padding then reading gives the number back when it fits the width. */
  lemma {:induction false} ReadPad(n: nat, width: nat)
    requires n < Pow10(width)
    ensures ReadNumber(Pad(n, width)) == n
    decreases width
  {
    if width > 0 {
      var s := Pad(n, width);
      assert s[..|s| - 1] == Pad(n / 10, width - 1);
      ReadPad(n / 10, width - 1);
    }
  }

  /** Reading then padding gives the digits back. */
  lemma {:induction false} PadRead(s: string)
    requires AllDigits(s)
    ensures ReadNumber(s) < Pow10(|s|)
    ensures Pad(ReadNumber(s), |s|) == s
    decreases |s|
  {
    if |s| > 0 {
      var init := s[..|s| - 1];
      PadRead(init);
      var n := ReadNumber(s);
      assert n / 10 == ReadNumber(init) && n % 10 == DigitValue(s[|s| - 1]);
    }
  }

  /** The stem `YYYY-MM-DD_HH-MM-SS` of the segment started at `t`. */
  function FormatStem(t: DateTime): (stem: string)
    ensures |stem| == 19
    ensures '.' !in stem && '/' !in stem && '\\' !in stem
  {
    var stem := Pad(t.year, 4) + "-" + Pad(t.month, 2) + "-" + Pad(t.day, 2) + "_"
      + Pad(t.hour, 2) + "-" + Pad(t.minute, 2) + "-" + Pad(t.second, 2);
    assert forall i :: 0 <= i < 19 && i !in {4, 7, 10, 13, 16} ==> IsDigit(stem[i]);
    stem
  }

  /** Reads a stem back into the clock reading it names, if it is one. */
  function ParseStem(s: string): (r: Option<DateTime>)
    ensures r.Some? ==> r.value.InRange()
  {
    if |s| == 19 && s[4] == '-' && s[7] == '-' && s[10] == '_' && s[13] == '-' && s[16] == '-'
       && AllDigits(s[0..4]) && AllDigits(s[5..7]) && AllDigits(s[8..10])
       && AllDigits(s[11..13]) && AllDigits(s[14..16]) && AllDigits(s[17..19])
    then
      var t := DateTime(ReadNumber(s[0..4]), ReadNumber(s[5..7]), ReadNumber(s[8..10]),
                        ReadNumber(s[11..13]), ReadNumber(s[14..16]), ReadNumber(s[17..19]));
      if t.InRange() then Some(t) else None
    else None
  }

  /** Every clock reading is recovered from its stem, so two segments get the
      same stem exactly when they start within the same local wall-clock second. */
  lemma StemRoundTrip(t: DateTime)
    requires t.InRange()
    ensures ParseStem(FormatStem(t)) == Some(t)
  {
    StemFields(t);
    assert Pow10(2) == 100 && Pow10(4) == 10000;
    ReadPad(t.year, 4);
    ReadPad(t.month, 2);
    ReadPad(t.day, 2);
    ReadPad(t.hour, 2);
    ReadPad(t.minute, 2);
    ReadPad(t.second, 2);
  }

  /** Where each field sits in the stem. */
  lemma StemFields(t: DateTime)
    ensures var s := FormatStem(t);
      && s[0..4] == Pad(t.year, 4) && s[5..7] == Pad(t.month, 2) && s[8..10] == Pad(t.day, 2)
      && s[11..13] == Pad(t.hour, 2) && s[14..16] == Pad(t.minute, 2) && s[17..19] == Pad(t.second, 2)
      && s[4] == '-' && s[7] == '-' && s[10] == '_' && s[13] == '-' && s[16] == '-'
  {
  }

  /** Every string the parser accepts is the stem of what it parses to. */
  lemma StemParseFormat(s: string)
    requires ParseStem(s).Some?
    ensures FormatStem(ParseStem(s).value) == s
  {
    PadRead(s[0..4]);
    PadRead(s[5..7]);
    PadRead(s[8..10]);
    PadRead(s[11..13]);
    PadRead(s[14..16]);
    PadRead(s[17..19]);
    var t := ParseStem(s).value;
    assert s == s[0..4] + "-" + s[5..7] + "-" + s[8..10] + "_" + s[11..13] + "-" + s[14..16] + "-" + s[17..19];
  }

  /** Distinct clock readings give distinct stems. */
  lemma StemInjective(t1: DateTime, t2: DateTime)
    requires t1.InRange() && t2.InRange()
    requires FormatStem(t1) == FormatStem(t2)
    ensures t1 == t2
  {
    StemRoundTrip(t1);
    StemRoundTrip(t2);
  }

  // ---------------------------------------------------------------------------
  // Segment paths: `f"{directory}/{filename}.mjpeg"` and `.mp4`

  /** The directory-entry name of a segment with the given extension. */
  function EntryName(stem: string, ext: string): string
  {
    stem + "." + ext
  }

  /** The path of a segment file inside the (normalised) directory. */
  function SegmentPath(dir: string, stem: string, ext: string): string
  {
    dir + "/" + EntryName(stem, ext)
  }

  function RawPath(dir: string, stem: string): string
  {
    SegmentPath(dir, stem, RawExt)
  }

  function TranscodedPath(dir: string, stem: string): string
  {
    SegmentPath(dir, stem, TranscodedExt)
  }

  /** Splits a path at its last '/' and the entry name at its last '.' into
      directory, stem and extension. */
  function SplitSegmentPath(path: string): (r: Option<(string, string, string)>)
    ensures r.Some? ==> SegmentPath(r.value.0, r.value.1, r.value.2) == path
    ensures r.Some? ==> '/' !in r.value.1 + r.value.2 && '.' !in r.value.2
  {
    var slash := RFind(path, '/');
    if slash < 0 then None
    else
      var name := path[slash + 1..];
      var dot := RFind(name, '.');
      if dot < 0 then None
      else
        var r := (path[..slash], name[..dot], name[dot + 1..]);
        assert EntryName(r.1, r.2) == name;
        assert path == path[..slash] + "/" + name;
        Some(r)
  }

  /** The raw and transcoded paths of one segment split back into the same
      directory and stem, and differ only in their extensions. */
  lemma SegmentPathsShareStem(dir: string, t: DateTime)
    ensures SplitSegmentPath(RawPath(dir, FormatStem(t))) == Some((dir, FormatStem(t), RawExt))
    ensures SplitSegmentPath(TranscodedPath(dir, FormatStem(t))) == Some((dir, FormatStem(t), TranscodedExt))
  {
    var stem := FormatStem(t);
    SplitKnown(dir, stem, RawExt);
    SplitKnown(dir, stem, TranscodedExt);
  }

  /** A path built from a separator-free stem and extension splits back into
      its parts. */
  lemma SplitKnown(dir: string, stem: string, ext: string)
    requires '/' !in stem && '.' !in stem && '/' !in ext && '.' !in ext
    ensures SplitSegmentPath(SegmentPath(dir, stem, ext)) == Some((dir, stem, ext))
  {
    var path := SegmentPath(dir, stem, ext);
    var name := EntryName(stem, ext);
    assert path == dir + "/" + name;
    assert forall j :: |dir| < j < |path| ==> path[j] == name[j - |dir| - 1];
    RFindAt(path, '/', |dir|);
    assert path[|dir| + 1..] == name;
    assert forall j :: |stem| < j < |name| ==> name[j] == ext[j - |stem| - 1];
    RFindAt(name, '.', |stem|);
    assert path[..|dir|] == dir;
    assert name[..|stem|] == stem && name[|stem| + 1..] == ext;
    assert RFind(path, '/') == |dir| && RFind(name, '.') == |stem|;
  }

  // ---------------------------------------------------------------------------
  // The transcoder's argument vector

  /** The argument vector of `convert_mjpeg_to_mp4`. */
  function TranscodeArgv(input: string, output: string): (argv: seq<string>)
    ensures |argv| == 8 && argv[0] == "ffmpeg"
    ensures argv[2] == input && argv[|argv| - 1] == output
  {
    ["ffmpeg", "-i", input, "-vcodec", "libx264", "-pix_fmt", "yuv420p", output]
  }

  /** Recognises an argument vector of the transcoder's fixed shape and
      returns its input and output paths. */
  function ParseTranscodeArgv(argv: seq<string>): (r: Option<(string, string)>)
  {
    if |argv| == 8 && argv[0] == "ffmpeg" && argv[1] == "-i" && argv[3] == "-vcodec"
       && argv[4] == "libx264" && argv[5] == "-pix_fmt" && argv[6] == "yuv420p"
    then Some((argv[2], argv[7]))
    else None
  }

  /** The vector is determined by its two paths and gives them back: the
      template is fixed, only the input and output vary. */
  lemma TranscodeArgvRoundTrip(input: string, output: string, argv: seq<string>)
    ensures ParseTranscodeArgv(TranscodeArgv(input, output)) == Some((input, output))
    ensures ParseTranscodeArgv(argv) == Some((input, output)) ==> argv == TranscodeArgv(input, output)
  {
  }
}
