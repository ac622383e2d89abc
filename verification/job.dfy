/**
 * QtlMovieJob: whether an input file, with its selected streams, can be
 * transcoded to an output type, and the DVD Author option that places a
 * chapter mark at every chapter duration.
 */
module Job {
  import opened Bytes
  import opened Strings
  import opened MediaStreamInfo
  import opened MovieInputFile

  /** QtlMovieOutputFile::OutputType. */
  datatype OutputType = DvdFile | DvdImage | DvdBurn | Ipad | Iphone | Avi | SubRipFile | NoOutput

  /** The subtitle type of the selected subtitle stream, SubNone without one. */
  function SelectedSubtitleType(f: InputFile): (r: SubtitleType)
    reads f
    ensures f.SelectedSubtitleStreamInfo().None? ==> r == SubNone
  {
    match f.SelectedSubtitleStreamInfo()
      case None => SubNone
      case Some(s) => s.subtitleType
  }

  /**
   * canTranscode: nothing without an input file; an ISO image can only be
   * burnt; DVD and iPad outputs need a selected audio and video stream and
   * no unsupported subtitles; SRT output needs subtitles it can export;
   * doing nothing is always possible; other outputs are not supported.
   */
  function CanTranscode(f: InputFile?, outputType: OutputType): bool
    reads f
  {
    if f == null then false
    else if f.IsIsoImage() then outputType == DvdBurn
    else
      var subtitleType := SelectedSubtitleType(f);
      match outputType
        case DvdFile | DvdImage | DvdBurn | Ipad =>
          f.SelectedAudioStreamIndex() >= 0 && f.SelectedVideoStreamIndex() >= 0 && subtitleType != SubOther
        case SubRipFile => subtitleType in {SubRip, SubSsa, SubAss, SubTeletext}
        case NoOutput => true
        case Iphone | Avi => false
  }

  /**
   * A transcoding to a DVD or an iPad is possible only with a selected
   * audio and video stream inside the stream list.
   */
  lemma TranscodeNeedsStreams(f: InputFile, outputType: OutputType)
    requires outputType in {DvdFile, DvdImage, Ipad} && CanTranscode(f, outputType)
    ensures 0 <= f.selectedAudio < |f.streams| && 0 <= f.selectedVideo < |f.streams|
    ensures f.streams[f.selectedAudio] == f.streams[f.SelectedAudioStreamIndex()]
  {
  }

  /** SRT output is possible only with a selected subtitle stream inside the stream list. */
  lemma SubRipNeedsSubtitles(f: InputFile)
    requires CanTranscode(f, SubRipFile)
    ensures 0 <= f.selectedSubtitle < |f.streams|
    ensures f.streams[f.selectedSubtitle].subtitleType in {SubRip, SubSsa, SubAss, SubTeletext}
  {
  }

  /** An ISO image can be burnt and nothing else, not even left alone. */
  lemma IsoOnlyBurns(f: InputFile, outputType: OutputType)
    requires f.IsIsoImage()
    ensures CanTranscode(f, outputType) <==> outputType == DvdBurn
  {
  }

  // ---------------------------------------------------------------------
  // Chapters
  // ---------------------------------------------------------------------

  /** A time split into hours, minutes and seconds. */
  datatype Clock = Clock(hours: nat, minutes: nat, seconds: nat)

  function ClockOf(t: nat): (c: Clock)
    ensures c.minutes < 60 && c.seconds < 60
    ensures 3600 * c.hours + 60 * c.minutes + c.seconds == t
  {
    var c := Clock(t / 3600, (t / 60) % 60, t % 60);
    assert t == 60 * (t / 60) + t % 60;
    assert t / 60 == 60 * ((t / 60) / 60) + (t / 60) % 60;
    DivDiv(t);
    c
  }

  lemma DivDiv(t: nat)
    ensures (t / 60) / 60 == t / 3600
  {
    var q := t / 3600;
    var r := t % 3600;
    assert t == 3600 * q + r && 0 <= r < 3600;
    assert t == 60 * (60 * q + r / 60) + r % 60;
    assert t / 60 == 60 * q + r / 60;
  }

  /** arg(n, 2, 10, '0'): the decimal digits of n, padded with zeros to two characters. */
  function Pad2(n: nat): (r: string)
    ensures |r| >= 2 && AllDigits(r) && DigitsValue(r) == n
    ensures n < 100 ==> |r| == 2
  {
    DecimalTextValue(n);
    if n < 10 then
      var r := "0" + DecimalText(n);
      assert r[..1] == "0" && r[..1][..0] == [];
      r
    else DecimalText(n)
  }

  /** A chapter mark "hh:mm:ss". */
  function Stamp(t: nat): string
  {
    var c := ClockOf(t);
    Pad2(c.hours) + ":" + Pad2(c.minutes) + ":" + Pad2(c.seconds)
  }

  /** The chapter list with the first n marks after the start. */
  function ChapterList(chapterSeconds: nat, n: nat): string
  {
    if n == 0 then "00:00:00" else ChapterList(chapterSeconds, n - 1) + "," + Stamp(n * chapterSeconds)
  }

  /** The chapter starts listed: 0, then every multiple of the chapter duration up to n of them. */
  function ChapterStarts(chapterSeconds: nat, n: nat): (r: seq<nat>)
    ensures |r| == n + 1
  {
    if n == 0 then [0] else ChapterStarts(chapterSeconds, n - 1) + [n * chapterSeconds]
  }

  /** The chapter list is the marks of the chapter starts, in order, separated by commas. */
  function Marks(starts: seq<nat>): string
    requires |starts| > 0
  {
    if |starts| == 1 then Stamp(starts[0]) else Marks(starts[..|starts| - 1]) + "," + Stamp(starts[|starts| - 1])
  }

  lemma {:induction false} ChapterListMarks(chapterSeconds: nat, n: nat)
    ensures ChapterList(chapterSeconds, n) == Marks(ChapterStarts(chapterSeconds, n))
    decreases n
  {
    if n == 0 {
      assert ClockOf(0) == Clock(0, 0, 0);
      assert Pad2(0) == "00";
    } else {
      ChapterListMarks(chapterSeconds, n - 1);
      var starts := ChapterStarts(chapterSeconds, n);
      assert starts[..|starts| - 1] == ChapterStarts(chapterSeconds, n - 1);
    }
  }

  /**
   * The chapter starts: every multiple of the chapter duration from 0 that
   * does not pass the total, each within the movie, and none left out.
   */
  lemma {:induction false} ChapterStartsSpan(chapterSeconds: nat, n: nat)
    ensures forall k :: 0 <= k <= n ==> ChapterStarts(chapterSeconds, n)[k] == k * chapterSeconds
    decreases n
  {
    if n > 0 {
      ChapterStartsSpan(chapterSeconds, n - 1);
    }
  }

  /** The number of whole chapters in the total, from its bounds. */
  lemma QuotientUnique(k: nat, c: int, total: int)
    requires c > 0 && k * c <= total < (k + 1) * c
    ensures total / c == k
  {
    var q := total / c;
    assert total == q * c + total % c && 0 <= total % c < c;
    assert (q + 1) * c == q * c + c;
    if q < k {
      MulMono(q + 1, k, c);
    }
    if q > k {
      MulMono(k + 1, q, c);
    }
  }

  lemma ChapterListStep(c: nat, n: nat, start: nat)
    requires start == (n + 1) * c
    ensures ChapterList(c, n + 1) == ChapterList(c, n) + "," + Stamp(start)
  {
  }

  lemma MulMono(a: int, b: int, c: int)
    requires a <= b && c > 0
    ensures a * c <= b * c
  {
  }

  lemma NextStart(n: nat, c: int, start: int)
    requires start == (n + 1) * c
    ensures start + c == (n + 2) * c
  {
  }

  /**
   * chapterOptions: nothing when a duration is unknown or the movie is
   * shorter than a chapter; otherwise "-c" and the list of chapter marks,
   * the first at the start, then every chapter duration up to the total.
   */
  method ChapterOptions(totalSeconds: int, chapterSeconds: int) returns (options: seq<string>)
    ensures totalSeconds <= 0 || chapterSeconds <= 0 || totalSeconds < chapterSeconds ==> options == []
    ensures totalSeconds > 0 && chapterSeconds > 0 && totalSeconds >= chapterSeconds ==>
              options == ["-c", ChapterList(chapterSeconds, totalSeconds / chapterSeconds)]
  {
    if totalSeconds <= 0 || chapterSeconds <= 0 || totalSeconds < chapterSeconds {
      return [];
    }
    var list := "00:00:00";
    var n: nat := 0;
    var start := chapterSeconds;
    while start <= totalSeconds
      invariant start == (n + 1) * chapterSeconds && n * chapterSeconds <= totalSeconds
      invariant list == ChapterList(chapterSeconds, n)
      decreases totalSeconds - start
    {
      var c := ClockOf(start);
      var mark := Pad2(c.hours) + ":" + Pad2(c.minutes) + ":" + Pad2(c.seconds);
      ChapterListStep(chapterSeconds, n, start);
      list := list + "," + mark;
      NextStart(n, chapterSeconds, start);
      n := n + 1;
      start := start + chapterSeconds;
    }
    QuotientUnique(n, chapterSeconds, totalSeconds);
    return ["-c", list];
  }
}
