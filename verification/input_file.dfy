/**
 * QtlMovieInputFile: the choice of the default video, audio and subtitle
 * streams of an input file for a given audience, the selected stream
 * indices and the external subtitle file.
 */
module MovieInputFile {
  import opened Bytes
  import opened Strings
  import opened MediaStreamInfo

  /** QStringList::contains with Qt::CaseInsensitive, on ASCII letters. */
  predicate InLanguages(languages: seq<string>, language: string)
  {
    exists i :: 0 <= i < |languages| && ToLower(languages[i]) == ToLower(language)
  }

  /**
   * The suffix test of isIsoImage on a file name `name.ext` outside any
   * directory: "iso" in any mix of cases, and nothing else.
   */
  lemma IsoImageName(name: string, ext: string)
    requires !HasChar(name, '/') && !HasChar(ext, '/') && !HasChar(ext, '.')
    ensures ToLower(Suffix(name + ['.'] + ext)) == "iso" <==>
      |ext| == 3 && LowerChar(ext[0]) == 'i' && LowerChar(ext[1]) == 's' && LowerChar(ext[2]) == 'o'
  {
    SuffixOfDotted(name, ext);
  }

  /** width * height in a 32-bit int. */
  function FrameSize(s: StreamInfo): (r: int)
    ensures -0x8000_0000 <= r < 0x8000_0000
    ensures -0x8000_0000 <= s.width * s.height < 0x8000_0000 ==> r == s.width * s.height
  {
    I32(s.width * s.height)
  }

  /** The kinds of stream the selection looks for, each the first of its kind. */
  datatype Criterion =
    | AnyAudio          // an audio stream
    | OriginalAudio     // the original soundtrack, not dubbed, not for impaired
    | NotAudienceAudio  // audio not in the audience languages, not for impaired
    | NotImpairedAudio  // audio not for impaired
    | AnySubtitle       // subtitles in the audience languages
    | ForcedSubtitle    // forced subtitles in the audience languages
    | ImpairedSubtitle  // subtitles for impaired in the audience languages
    | CompleteSubtitle  // neither forced nor for impaired, in the audience languages

  predicate Matches(s: StreamInfo, languages: seq<string>, c: Criterion)
  {
    var inAudience := InLanguages(languages, s.language);
    match c
      case AnyAudio => s.streamType == Audio
      case OriginalAudio => s.streamType == Audio && !s.impaired && s.originalAudio && !s.dubbedAudio
      case NotAudienceAudio => s.streamType == Audio && !s.impaired && !inAudience
      case NotImpairedAudio => s.streamType == Audio && !s.impaired
      case AnySubtitle => s.streamType == Subtitle && inAudience
      case ForcedSubtitle => s.streamType == Subtitle && inAudience && s.forced
      case ImpairedSubtitle => s.streamType == Subtitle && inAudience && s.impaired
      case CompleteSubtitle => s.streamType == Subtitle && inAudience && !s.forced && !s.impaired
  }

  /** The index of the first stream that matches, or -1. */
  function First(streams: seq<StreamInfo>, languages: seq<string>, c: Criterion): (r: int)
    ensures -1 <= r < |streams|
  {
    if |streams| == 0 then -1
    else
      var f := First(streams[..|streams| - 1], languages, c);
      if f >= 0 then f
      else if Matches(streams[|streams| - 1], languages, c) then |streams| - 1
      else -1
  }

  /** First finds the first matching stream, and -1 means there is none. */
  lemma {:induction false} FirstIsFirst(streams: seq<StreamInfo>, languages: seq<string>, c: Criterion)
    ensures var r := First(streams, languages, c);
            && (r == -1 <==> forall j :: 0 <= j < |streams| ==> !Matches(streams[j], languages, c))
            && (r >= 0 ==> Matches(streams[r], languages, c) && forall j :: 0 <= j < r ==> !Matches(streams[j], languages, c))
    decreases |streams|
  {
    if |streams| > 0 {
      var front := streams[..|streams| - 1];
      FirstIsFirst(front, languages, c);
      assert forall j :: 0 <= j < |front| ==> front[j] == streams[j];
    }
  }

  /** The video stream with the largest frame size so far, and that size (-1 before any). */
  function BestVideo(streams: seq<StreamInfo>): (r: (int, int))
    ensures -1 <= r.0 < |streams| && r.1 >= -1
  {
    if |streams| == 0 then (-1, -1)
    else
      var best := BestVideo(streams[..|streams| - 1]);
      var last := streams[|streams| - 1];
      if last.streamType == Video && FrameSize(last) > best.1 then (|streams| - 1, FrameSize(last)) else best
  }

  /**
   * The selected video is the first video stream with the largest frame
   * size; a video stream whose frame size is negative is never selected.
   */
  lemma {:induction false} BestVideoIsLargest(streams: seq<StreamInfo>)
    ensures var (b, h) := BestVideo(streams);
            && (b == -1 <==> h == -1)
            && (b == -1 ==> forall j :: 0 <= j < |streams| && streams[j].streamType == Video ==> FrameSize(streams[j]) < 0)
            && (b >= 0 ==> streams[b].streamType == Video && FrameSize(streams[b]) == h >= 0)
            && (forall j :: 0 <= j < |streams| && streams[j].streamType == Video ==> FrameSize(streams[j]) <= h)
            && (forall j :: 0 <= j < b && streams[j].streamType == Video ==> FrameSize(streams[j]) < h)
    decreases |streams|
  {
    if |streams| > 0 {
      var front := streams[..|streams| - 1];
      BestVideoIsLargest(front);
      assert forall j :: 0 <= j < |front| ==> front[j] == streams[j];
    }
  }

  /** The default audio: original, else not in the audience languages, else not for impaired, else the first. */
  function AudioChoice(streams: seq<StreamInfo>, languages: seq<string>): int
  {
    if First(streams, languages, OriginalAudio) >= 0 then First(streams, languages, OriginalAudio)
    else if First(streams, languages, NotAudienceAudio) >= 0 then First(streams, languages, NotAudienceAudio)
    else if First(streams, languages, NotImpairedAudio) >= 0 then First(streams, languages, NotImpairedAudio)
    else First(streams, languages, AnyAudio)
  }

  /**
   * The default subtitles: only forced ones when the chosen audio is in an
   * audience language; otherwise complete, else for impaired, else the first.
   */
  function SubtitleChoice(streams: seq<StreamInfo>, languages: seq<string>, audio: int): int
  {
    if 0 <= audio < |streams| && InLanguages(languages, streams[audio].language) then First(streams, languages, ForcedSubtitle)
    else if First(streams, languages, CompleteSubtitle) >= 0 then First(streams, languages, CompleteSubtitle)
    else if First(streams, languages, ImpairedSubtitle) >= 0 then First(streams, languages, ImpairedSubtitle)
    else First(streams, languages, AnySubtitle)
  }

  /**
   * The audio choice is an audio stream whenever there is one: an
   * original soundtrack whenever there is one (not dubbed, not for
   * impaired), else audio outside the audience languages whenever there is
   * one, and never audio for impaired when there is other audio.
   */
  lemma AudioChoiceIsAudio(streams: seq<StreamInfo>, languages: seq<string>)
    ensures var a := AudioChoice(streams, languages);
            && -1 <= a < |streams|
            && (a == -1 <==> forall j :: 0 <= j < |streams| ==> streams[j].streamType != Audio)
            && (a >= 0 ==> streams[a].streamType == Audio)
            && ((exists j :: 0 <= j < |streams| && Matches(streams[j], languages, OriginalAudio)) ==> Matches(streams[a], languages, OriginalAudio))
            && ((forall j :: 0 <= j < |streams| ==> !Matches(streams[j], languages, OriginalAudio))
                && (exists j :: 0 <= j < |streams| && Matches(streams[j], languages, NotAudienceAudio))
                ==> Matches(streams[a], languages, NotAudienceAudio))
            && ((exists j :: 0 <= j < |streams| && Matches(streams[j], languages, NotImpairedAudio)) ==> !streams[a].impaired)
  {
    FirstIsFirst(streams, languages, OriginalAudio);
    FirstIsFirst(streams, languages, NotAudienceAudio);
    FirstIsFirst(streams, languages, NotImpairedAudio);
    FirstIsFirst(streams, languages, AnyAudio);
  }

  /**
   * The subtitle choice is a subtitle stream in an audience language, or
   * none; it is a forced one when the audio is in an audience language, and
   * otherwise there is one whenever some subtitles are in an audience language.
   */
  lemma SubtitleChoiceInAudience(streams: seq<StreamInfo>, languages: seq<string>, audio: int)
    ensures var s := SubtitleChoice(streams, languages, audio);
            && -1 <= s < |streams|
            && (s >= 0 ==> streams[s].streamType == Subtitle && InLanguages(languages, streams[s].language))
            && (0 <= audio < |streams| && InLanguages(languages, streams[audio].language) ==> s == -1 || streams[s].forced)
            && (!(0 <= audio < |streams| && InLanguages(languages, streams[audio].language)) ==>
                  (s == -1 <==> forall j :: 0 <= j < |streams| ==> !Matches(streams[j], languages, AnySubtitle)))
  {
    FirstIsFirst(streams, languages, ForcedSubtitle);
    FirstIsFirst(streams, languages, CompleteSubtitle);
    FirstIsFirst(streams, languages, ImpairedSubtitle);
    FirstIsFirst(streams, languages, AnySubtitle);
  }

  /** The first-match trackers of one stream more. */
  lemma FirstStep(streams: seq<StreamInfo>, languages: seq<string>, c: Criterion, i: nat)
    requires i < |streams|
    ensures First(streams[..i + 1], languages, c) ==
              if First(streams[..i], languages, c) >= 0 then First(streams[..i], languages, c)
              else if Matches(streams[i], languages, c) then i else -1
  {
    assert streams[..i + 1][..i] == streams[..i];
  }

  lemma BestVideoStep(streams: seq<StreamInfo>, i: nat)
    requires i < |streams|
    ensures BestVideo(streams[..i + 1]) ==
              if streams[i].streamType == Video && FrameSize(streams[i]) > BestVideo(streams[..i]).1
              then (i, FrameSize(streams[i])) else BestVideo(streams[..i])
  {
    assert streams[..i + 1][..i] == streams[..i];
  }

  /** The trackers of the selection loop, over the streams seen so far. */
  datatype Trackers = Trackers(video: int, highest: int, firstAudio: int, originalAudio: int,
                               notAudienceAudio: int, notImpairedAudio: int, firstSubtitle: int,
                               completeSubtitle: int, forcedSubtitle: int, impairedSubtitle: int)

  predicate Tracks(t: Trackers, seen: seq<StreamInfo>, languages: seq<string>)
  {
    && (t.video, t.highest) == BestVideo(seen)
    && t.firstAudio == First(seen, languages, AnyAudio)
    && t.originalAudio == First(seen, languages, OriginalAudio)
    && t.notAudienceAudio == First(seen, languages, NotAudienceAudio)
    && t.notImpairedAudio == First(seen, languages, NotImpairedAudio)
    && t.firstSubtitle == First(seen, languages, AnySubtitle)
    && t.completeSubtitle == First(seen, languages, CompleteSubtitle)
    && t.forcedSubtitle == First(seen, languages, ForcedSubtitle)
    && t.impairedSubtitle == First(seen, languages, ImpairedSubtitle)
  }

  /**
   * The loop of selectDefaultStreams: each stream, by its type, updates
   * the largest video frame and the first stream of each kind.
   */
  method ScanStreams(streams: seq<StreamInfo>, languages: seq<string>) returns (t: Trackers)
    ensures Tracks(t, streams, languages)
  {
    t := Trackers(-1, -1, -1, -1, -1, -1, -1, -1, -1, -1);
    for i := 0 to |streams|
      invariant Tracks(t, streams[..i], languages)
    {
      StepAll(streams, languages, i);
      match streams[i].streamType {
        case Video => t := VideoStep(streams, languages, i, t);
        case Audio => t := AudioStep(streams, languages, i, t);
        case Subtitle => t := SubtitleStep(streams, languages, i, t);
        case Other =>
      }
    }
    assert streams[..|streams|] == streams;
  }

  /** A video stream larger than the largest so far becomes the selected video. */
  method VideoStep(streams: seq<StreamInfo>, languages: seq<string>, i: nat, t0: Trackers) returns (t: Trackers)
    requires i < |streams| && streams[i].streamType == Video && Tracks(t0, streams[..i], languages)
    ensures Tracks(t, streams[..i + 1], languages)
  {
    StepAll(streams, languages, i);
    t := t0;
    var frameSize := FrameSize(streams[i]);
    if frameSize > t.highest {
      t := t.(video := i, highest := frameSize);
    }
  }

  /** An audio stream may be the first audio of each kind. */
  method AudioStep(streams: seq<StreamInfo>, languages: seq<string>, i: nat, t0: Trackers) returns (t: Trackers)
    requires i < |streams| && streams[i].streamType == Audio && Tracks(t0, streams[..i], languages)
    ensures Tracks(t, streams[..i + 1], languages)
  {
    StepAll(streams, languages, i);
    t := t0;
    var stream := streams[i];
    var inAudience := InLanguages(languages, stream.language);
    if t.firstAudio < 0 {
      t := t.(firstAudio := i);
    }
    if t.originalAudio < 0 && !stream.impaired && stream.originalAudio && !stream.dubbedAudio {
      t := t.(originalAudio := i);
    }
    if t.notAudienceAudio < 0 && !stream.impaired && !inAudience {
      t := t.(notAudienceAudio := i);
    }
    if t.notImpairedAudio < 0 && !stream.impaired {
      t := t.(notImpairedAudio := i);
    }
  }

  /** Subtitles in an audience language may be the first subtitles of each kind. */
  method SubtitleStep(streams: seq<StreamInfo>, languages: seq<string>, i: nat, t0: Trackers) returns (t: Trackers)
    requires i < |streams| && streams[i].streamType == Subtitle && Tracks(t0, streams[..i], languages)
    ensures Tracks(t, streams[..i + 1], languages)
  {
    StepAll(streams, languages, i);
    t := t0;
    var stream := streams[i];
    if InLanguages(languages, stream.language) {
      if t.firstSubtitle < 0 {
        t := t.(firstSubtitle := i);
      }
      if t.forcedSubtitle < 0 && stream.forced {
        t := t.(forcedSubtitle := i);
      }
      if t.impairedSubtitle < 0 && stream.impaired {
        t := t.(impairedSubtitle := i);
      }
      if t.completeSubtitle < 0 && !stream.forced && !stream.impaired {
        t := t.(completeSubtitle := i);
      }
    }
  }

  lemma StepAll(streams: seq<StreamInfo>, languages: seq<string>, i: nat)
    requires i < |streams|
    ensures forall c: Criterion :: First(streams[..i + 1], languages, c) ==
              if First(streams[..i], languages, c) >= 0 then First(streams[..i], languages, c)
              else if Matches(streams[i], languages, c) then i else -1
    ensures BestVideo(streams[..i + 1]) ==
              if streams[i].streamType == Video && FrameSize(streams[i]) > BestVideo(streams[..i]).1
              then (i, FrameSize(streams[i])) else BestVideo(streams[..i])
  {
    forall c: Criterion
      ensures First(streams[..i + 1], languages, c) ==
                if First(streams[..i], languages, c) >= 0 then First(streams[..i], languages, c)
                else if Matches(streams[i], languages, c) then i else -1
    {
      FirstStep(streams, languages, c, i);
    }
    BestVideoStep(streams, i);
  }

  class InputFile {
    var fileName: string
    var streams: seq<StreamInfo>
    var selectedVideo: int
    var selectedAudio: int
    var selectedSubtitle: int
    var externalSubtitleFileName: string

    constructor(fileName: string, streams: seq<StreamInfo>)
      ensures this.fileName == fileName && this.streams == streams && selectedVideo == -1 && selectedAudio == -1
      ensures selectedSubtitle == -1 && externalSubtitleFileName == ""
    {
      this.fileName := fileName;
      this.streams := streams;
      selectedVideo, selectedAudio, selectedSubtitle := -1, -1, -1;
      externalSubtitleFileName := "";
    }

    /**
     * selectDefaultStreams: the largest video, the audio by priority and
     * the subtitles for the audience, as the choice functions define them.
     */
    method SelectDefaultStreams(languages: seq<string>)
      modifies this
      ensures fileName == old(fileName) && streams == old(streams) && externalSubtitleFileName == old(externalSubtitleFileName)
      ensures selectedVideo == BestVideo(streams).0
      ensures selectedAudio == AudioChoice(streams, languages)
      ensures selectedSubtitle == SubtitleChoice(streams, languages, selectedAudio)
    {
      selectedVideo, selectedAudio, selectedSubtitle := -1, -1, -1;
      var t := ScanStreams(streams, languages);
      selectedVideo := t.video;
      if t.originalAudio >= 0 {
        selectedAudio := t.originalAudio;
      } else if t.notAudienceAudio >= 0 {
        selectedAudio := t.notAudienceAudio;
      } else if t.notImpairedAudio >= 0 {
        selectedAudio := t.notImpairedAudio;
      } else {
        selectedAudio := t.firstAudio;
      }
      var audioInAudience := selectedAudio >= 0 && InLanguages(languages, streams[selectedAudio].language);
      if audioInAudience {
        selectedSubtitle := t.forcedSubtitle;
      } else if t.completeSubtitle >= 0 {
        selectedSubtitle := t.completeSubtitle;
      } else if t.impairedSubtitle >= 0 {
        selectedSubtitle := t.impairedSubtitle;
      } else {
        selectedSubtitle := t.firstSubtitle;
      }
    }

    /** selectedVideoStreamIndex: an index past the streams reads back as -1. */
    function SelectedVideoStreamIndex(): (r: int)
      reads this
      ensures r < |streams|
      ensures selectedVideo < |streams| ==> r == selectedVideo
    {
      if selectedVideo < |streams| then selectedVideo else -1
    }

    function SelectedAudioStreamIndex(): (r: int)
      reads this
      ensures r < |streams|
      ensures selectedAudio < |streams| ==> r == selectedAudio
    {
      if selectedAudio < |streams| then selectedAudio else -1
    }

    function SelectedSubtitleStreamIndex(): (r: int)
      reads this
      ensures r < |streams|
      ensures selectedSubtitle < |streams| ==> r == selectedSubtitle
    {
      if selectedSubtitle < |streams| then selectedSubtitle else -1
    }

    /** isIsoImage: the file name has the suffix "iso", in any case. */
    predicate IsIsoImage()
      reads this
      ensures IsIsoImage() ==> HasChar(FileName(fileName), '.')
    {
      ToLower(Suffix(fileName)) == "iso"
    }

    /** streamInfo: the stream at an index, none out of range. */
    function StreamAt(index: int): (r: Option<StreamInfo>)
      reads this
      ensures r.Some? <==> 0 <= index < |streams|
      ensures r.Some? ==> r.value == streams[index]
    {
      if 0 <= index < |streams| then Some(streams[index]) else None
    }

    /** selectedSubtitleStreamInfo: the selected subtitle stream, if any. */
    function SelectedSubtitleStreamInfo(): (r: Option<StreamInfo>)
      reads this
      ensures r.Some? <==> 0 <= selectedSubtitle < |streams|
    {
      StreamAt(selectedSubtitle)
    }

    /** externalSubtitleFileName: only when no subtitle stream is selected. */
    function ExternalSubtitleFileName(): (r: string)
      reads this
      ensures SelectedSubtitleStreamIndex() < 0 ==> r == externalSubtitleFileName
      ensures SelectedSubtitleStreamIndex() >= 0 ==> r == ""
    {
      if SelectedSubtitleStreamIndex() < 0 then externalSubtitleFileName else ""
    }

    method SetSelectedVideoStreamIndex(index: int)
      modifies this
      ensures selectedVideo == index && fileName == old(fileName) && streams == old(streams) && selectedAudio == old(selectedAudio)
      ensures selectedSubtitle == old(selectedSubtitle) && externalSubtitleFileName == old(externalSubtitleFileName)
    {
      selectedVideo := index;
    }

    method SetSelectedAudioStreamIndex(index: int)
      modifies this
      ensures selectedAudio == index && fileName == old(fileName) && streams == old(streams) && selectedVideo == old(selectedVideo)
      ensures selectedSubtitle == old(selectedSubtitle) && externalSubtitleFileName == old(externalSubtitleFileName)
    {
      selectedAudio := index;
    }

    method SetSelectedSubtitleStreamIndex(index: int)
      modifies this
      ensures selectedSubtitle == index && fileName == old(fileName) && streams == old(streams) && selectedVideo == old(selectedVideo)
      ensures selectedAudio == old(selectedAudio) && externalSubtitleFileName == old(externalSubtitleFileName)
    {
      selectedSubtitle := index;
    }

    /**
     * setExternalSubtitleFileName: a non-empty file name deselects the
     * subtitle stream, so that it reads back as the external subtitles.
     */
    method SetExternalSubtitleFileName(subtitleFileName: string)
      modifies this
      ensures externalSubtitleFileName == subtitleFileName && fileName == old(fileName) && streams == old(streams)
      ensures selectedVideo == old(selectedVideo) && selectedAudio == old(selectedAudio)
      ensures selectedSubtitle == if subtitleFileName != "" then -1 else old(selectedSubtitle)
      ensures subtitleFileName != "" ==> SelectedSubtitleStreamIndex() == -1 && ExternalSubtitleFileName() == subtitleFileName
    {
      externalSubtitleFileName := subtitleFileName;
      if subtitleFileName != "" {
        selectedSubtitle := -1;
      }
    }
  }
}
