/** One pass of the `while True` loop of `download_stream`: capture a segment
    into a fresh raw file, hand it to the transcoder, then apply the two
    retention sweeps to the output directory. */
module StreamDownloader {
  import opened Wrappers
  import opened Retention
  import opened Capture
  import opened Paths

  /** Default segment duration in seconds. */
  const DefaultDuration: nat := 60
  /** Transcoded recordings, kept for fourteen days. */
  const TranscodedExts: set<string> := {"mp4", "mkv", "avi"}
  const TranscodedRetentionHours: int := 14 * 24
  /** Raw segments, kept for two hours after capture. */
  const RawExts: set<string> := {"mjpeg"}
  const RawRetentionHours: int := 2

  /** What one pass produces: the raw segment's path and bytes, the argument
      vector handed to the transcoder, and the directory after both sweeps.
      `entries` is `None` when the first sweep raises instead, because the
      normalised directory is the empty string, which cannot be listed. */
  datatype Pass = Pass(rawPath: string, file: seq<bv8>, argv: seq<string>, entries: Option<Directory>)

  /** The two sweeps that end every pass: transcoded recordings older than
      fourteen days, judged by the clock reading `nowT` of the first call,
      then raw segments older than two hours, judged by the reading `nowR`
      of the second call. */
  method ApplyRetention(entries: Directory, nowT: int, nowR: int) returns (after: Directory, deleted: seq<string>)
    ensures after == Sweep(Sweep(entries, TranscodedExts, TranscodedRetentionHours, nowT),
                           RawExts, RawRetentionHours, nowR)
    // only deletions, and survivors keep their modification time
    ensures after.Keys <= entries.Keys
    ensures forall f :: f in after ==> after[f] == entries[f]
    // nothing either window condemns remains
    ensures forall f :: f in after ==>
      !Doomed(f, after[f], TranscodedExts, TranscodedRetentionHours, nowT)
      && !Doomed(f, after[f], RawExts, RawRetentionHours, nowR)
    // every deletion is reported, and each only once
    ensures forall f :: f in deleted <==> f in entries && f !in after
    ensures forall i, j :: 0 <= i < j < |deleted| ==> deleted[i] != deleted[j]
  {
    var kept, gone1 := SweepDirectory(entries, TranscodedExts, TranscodedRetentionHours, nowT);
    var gone2;
    after, gone2 := SweepDirectory(kept, RawExts, RawRetentionHours, nowR);
    deleted := gone1 + gone2;
    forall i, j | 0 <= i < j < |deleted|
      ensures deleted[i] != deleted[j]
    {
      if i < |gone1| <= j {
        // the first sweep's deletions are gone before the second sweep lists
        assert deleted[i] in gone1 && deleted[i] !in kept;
        assert deleted[j] in gone2 && deleted[j] in kept;
      }
    }
  }

  /** A raw segment just written survives both sweeps exactly when its
      modification time is within the two-hour raw window at the second
      sweep's clock reading. */
  lemma FreshRawSurvives(entries: Directory, stem: string, closedAt: int, nowT: int, nowR: int)
    requires |stem| > 0
    ensures var name := EntryName(stem, RawExt);
      name in Sweep(Sweep(entries[name := closedAt], TranscodedExts, TranscodedRetentionHours, nowT),
                    RawExts, RawRetentionHours, nowR)
      <==> closedAt >= Cutoff(nowR, RawRetentionHours)
  {
    var name := EntryName(stem, RawExt);
    var written := entries[name := closedAt];
    var kept := Sweep(written, TranscodedExts, TranscodedRetentionHours, nowT);
    ExtOfDotted(stem, RawExt);
    PolicyExtensions();
    SweepEntry(written, TranscodedExts, TranscodedRetentionHours, nowT, name, RawExt);
    SweepEntry(kept, RawExts, RawRetentionHours, nowR, name, RawExt);
  }

  /** The names of the segment started at `t`: the raw file inside the
      normalised directory, and the transcoder's argument vector. */
  method NameSegment(directory: string, t: DateTime) returns (rawPath: string, argv: seq<string>)
    requires t.InRange()
    // the raw file is named after the start time inside the normalised directory
    ensures SplitSegmentPath(rawPath) == Some((StripTrailingSeps(directory), FormatStem(t), RawExt))
    // the transcoder gets the raw path and the sibling path of the same stem
    ensures ParseTranscodeArgv(argv)
         == Some((rawPath, TranscodedPath(StripTrailingSeps(directory), FormatStem(t))))
  {
    var dir := StripTrailingSeps(directory);
    var stem := FormatStem(t);
    rawPath := RawPath(dir, stem);
    argv := TranscodeArgv(rawPath, TranscodedPath(dir, stem));
    SegmentPathsShareStem(dir, t);
    TranscodeArgvRoundTrip(rawPath, TranscodedPath(dir, stem), argv);
  }

  /** The pass of the loop started at clock reading `t` (broken down) and
      `start` (in seconds), reading `stream`. `entries` lists the normalised
      output directory before the raw file is created, and `closedAt` is the
      raw file's modification time. `nowT` and `nowR` are the clock readings
      taken by the transcoded sweep and by the raw sweep. */
  method RunPass(directory: string, t: DateTime, stream: seq<Arrival>, start: int, duration: int,
                 entries: Directory, closedAt: int, nowT: int, nowR: int) returns (p: Pass)
    requires t.InRange()
    ensures SplitSegmentPath(p.rawPath) == Some((StripTrailingSeps(directory), FormatStem(t), RawExt))
    ensures ParseTranscodeArgv(p.argv)
         == Some((p.rawPath, TranscodedPath(StripTrailingSeps(directory), FormatStem(t))))
    // the raw file holds the chunks read before the cut-off
    ensures p.file == Flatten(Chunks(stream[..CutIndex(stream, start, duration)]))
    // a directory that normalises to the empty string cannot be listed by the first sweep
    ensures p.entries.None? <==> StripTrailingSeps(directory) == []
    // otherwise the directory is the listing plus the raw file, swept twice
    ensures p.entries.Some? ==>
      p.entries.value
        == Sweep(Sweep(entries[EntryName(FormatStem(t), RawExt) := closedAt],
                       TranscodedExts, TranscodedRetentionHours, nowT),
                 RawExts, RawRetentionHours, nowR)
    // the fresh raw segment survives the sweeps exactly when it is younger than the raw window
    ensures p.entries.Some? ==>
      (EntryName(FormatStem(t), RawExt) in p.entries.value <==> closedAt >= Cutoff(nowR, RawRetentionHours))
  {
    var rawPath, argv := NameSegment(directory, t);
    var file, _ := CaptureSegment(stream, start, duration);
    if StripTrailingSeps(directory) == [] {
      p := Pass(rawPath, file, argv, None);
    } else {
      var name := EntryName(FormatStem(t), RawExt);
      var final, _ := ApplyRetention(entries[name := closedAt], nowT, nowR);
      FreshRawSurvives(entries, FormatStem(t), closedAt, nowT, nowR);
      p := Pass(rawPath, file, argv, Some(final));
    }
  }

  /** With the default duration and one `n`-byte chunk per second from the
      segment start, a segment holds 61 chunks. */
  lemma DefaultSegmentSize(stream: seq<Arrival>, start: int, n: nat)
    requires |stream| > DefaultDuration + 1
    requires forall i :: 0 <= i < |stream| ==> stream[i].at == start + i && |stream[i].chunk| == n
    ensures |Flatten(Chunks(stream[..CutIndex(stream, start, DefaultDuration)]))| == 61 * n
  {
    SteadyStreamSize(stream, start, DefaultDuration, n);
  }

  /** The raw extension is swept only by the raw policy, the transcoded one
      only by the transcoded policy. */
  lemma PolicyExtensions()
    ensures RawExt in RawExts && RawExt !in TranscodedExts
    ensures TranscodedExt in TranscodedExts && TranscodedExt !in RawExts
  {
  }

  /** Example: with a fourteen-day window, a recording modified 400 hours ago
      is deleted and one modified an hour ago is kept. */
  lemma SweepExample(now: int)
    ensures var older := EntryName("old", TranscodedExt);
            var newer := EntryName("new", TranscodedExt);
            Sweep(map[older := now - 400 * 3600, newer := now - 3600],
                  TranscodedExts, TranscodedRetentionHours, now)
            == map[newer := now - 3600]
  {
    var older := EntryName("old", TranscodedExt);
    var newer := EntryName("new", TranscodedExt);
    assert older[0] != newer[0];
    assert TranscodedExt in TranscodedExts by {
      PolicyExtensions();
    }
    ExtOfDotted("old", TranscodedExt);
    ExtOfDotted("new", TranscodedExt);
    SweepPair(older, now - 400 * 3600, newer, now - 3600, TranscodedExts, TranscodedRetentionHours, now);
  }

  /** The raw sweep never deletes a transcoded recording. */
  lemma RawSweepKeepsTranscoded(dir: Directory, stem: string, now: int)
    requires |stem| > 0 && EntryName(stem, TranscodedExt) in dir
    ensures EntryName(stem, TranscodedExt) in Sweep(dir, RawExts, RawRetentionHours, now)
  {
    ExtOfDotted(stem, TranscodedExt);
    assert TranscodedExt !in RawExts by {
      PolicyExtensions();
    }
    SweepEntry(dir, RawExts, RawRetentionHours, now, EntryName(stem, TranscodedExt), TranscodedExt);
  }

  /** The transcoded sweep never deletes a raw segment. */
  lemma TranscodedSweepKeepsRaw(dir: Directory, stem: string, now: int)
    requires |stem| > 0 && EntryName(stem, RawExt) in dir
    ensures EntryName(stem, RawExt) in Sweep(dir, TranscodedExts, TranscodedRetentionHours, now)
  {
    ExtOfDotted(stem, RawExt);
    assert RawExt !in TranscodedExts by {
      PolicyExtensions();
    }
    SweepEntry(dir, TranscodedExts, TranscodedRetentionHours, now, EntryName(stem, RawExt), RawExt);
  }
}
