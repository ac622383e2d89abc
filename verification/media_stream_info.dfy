/**
 * QtlMediaStreamInfo: the description of one stream of a media file, its
 * normalising setters, the subtitle file types and the merge of two stream
 * lists that describe the same file.
 */
module MediaStreamInfo {
  import opened Bytes
  import opened Strings

  datatype StreamType = Video | Audio | Subtitle | Other

  datatype SubtitleType = SubRip | SubSsa | SubAss | SubDvd | SubDvb | SubTeletext | SubCc | SubOther | SubNone

  /**
   * The integer, string and boolean attributes of a stream. The display
   * aspect ratios and the frame rate are floating point and not modelled.
   */
  datatype StreamInfo = StreamInfo(
    streamType: StreamType,
    title: string,
    codecName: string,
    language: string,
    ffIndex: int,
    streamId: int,
    subtitleType: SubtitleType,
    teletextPage: int,
    ccNumber: int,
    width: int,
    height: int,
    rotation: int,
    forced: bool,
    impaired: bool,
    bitRate: int,
    originalAudio: bool,
    dubbedAudio: bool,
    audioChannels: int,
    samplingRate: int,
    commentary: bool)

  /** A freshly constructed stream description. */
  const Default: StreamInfo :=
    StreamInfo(Other, "", "", "", -1, -1, SubNone, -1, -1, 0, 0, 0, false, false, 0, false, false, 0, 0, false)

  // ---------------------------------------------------------------------
  // Setters
  // ---------------------------------------------------------------------

  /** setLanguage: trimmed, lower-cased, and "und" (undefined) becomes empty. */
  function NormalizeLanguage(language: string): (r: string)
    ensures IsTrimmed(r) && IsLower(r) && r != "und"
    ensures r == "" || r == ToLower(Trim(language))
  {
    TrimIsTrimmed(language);
    var l := ToLower(Trim(language));
    if l == "und" then "" else l
  }

  /** Normalising a language twice is normalising it once. */
  lemma NormalizeLanguageIdempotent(language: string)
    ensures NormalizeLanguage(NormalizeLanguage(language)) == NormalizeLanguage(language)
  {
    var r := NormalizeLanguage(language);
    TrimOfTrimmed(r);
    assert ToLower(r) == r;
  }

  function SetTitle(s: StreamInfo, title: string): (r: StreamInfo)
    ensures IsTrimmed(r.title) && (IsTrimmed(title) ==> r.title == title)
    ensures r == s.(title := r.title)
  {
    TrimIsTrimmed(title);
    TrimOfTrimmed(title);
    s.(title := Trim(title))
  }

  function SetCodecName(s: StreamInfo, codecName: string): (r: StreamInfo)
    ensures IsTrimmed(r.codecName) && (IsTrimmed(codecName) ==> r.codecName == codecName)
    ensures r == s.(codecName := r.codecName)
  {
    TrimIsTrimmed(codecName);
    TrimOfTrimmed(codecName);
    s.(codecName := Trim(codecName))
  }

  function SetLanguage(s: StreamInfo, language: string): (r: StreamInfo)
    ensures r.language == NormalizeLanguage(language) && r == s.(language := r.language)
  {
    s.(language := NormalizeLanguage(language))
  }

  /** setFFIndex and setTeletextPage: any negative value means "none", -1. */
  function NoneIfNegative(x: int): (r: int)
    ensures r >= -1 && (x >= 0 ==> r == x) && (x < 0 ==> r == -1)
  {
    if x < 0 then -1 else x
  }

  /** setCcNumber: closed caption channels count from 1; anything else is "none", -1. */
  function CcNumber(x: int): (r: int)
    ensures (x >= 1 ==> r == x) && (x < 1 ==> r == -1)
  {
    if x >= 1 then x else -1
  }

  /** setWidth and setHeight: negative sizes become 0. */
  function ZeroIfNegative(x: int): (r: int)
    ensures r >= 0 && (x >= 0 ==> r == x) && (x < 0 ==> r == 0)
  {
    if x < 0 then 0 else x
  }

  /** Every clamping setter leaves an already clamped value alone. */
  lemma ClampsAreIdempotent(x: int)
    ensures NoneIfNegative(NoneIfNegative(x)) == NoneIfNegative(x)
    ensures CcNumber(CcNumber(x)) == CcNumber(x)
    ensures ZeroIfNegative(ZeroIfNegative(x)) == ZeroIfNegative(x)
  {
  }

  // ---------------------------------------------------------------------
  // Subtitle files
  // ---------------------------------------------------------------------

  /**
   * subtitleType(fileName): the subtitle file type from the extension. The
   * file system is represented by `fileExists` and `idxExists` (the .idx
   * companion of a .sub file), consulted only with `checkExistence`.
   */
  function SubtitleTypeOfFile(fileName: string, checkExistence: bool, fileExists: bool, idxExists: bool): (r: SubtitleType)
    ensures fileName == "" ==> r == SubNone
    ensures r != SubDvb && r != SubTeletext && r != SubCc
  {
    var ext := ToLower(Suffix(fileName));
    if fileName == "" then SubNone
    else if checkExistence && !fileExists then SubNone
    else if ext == "srt" then SubRip
    else if ext == "ssa" then SubSsa
    else if ext == "ass" then SubAss
    else if ext == "sub" then (if checkExistence && !idxExists then SubNone else SubDvd)
    else SubOther
  }

  /** fileExtension: the usual extension of a subtitle file type, empty if it has none. */
  function FileExtension(t: SubtitleType): (r: string)
    ensures r != "" <==> t in {SubRip, SubSsa, SubAss, SubDvd}
  {
    match t
    case SubRip => ".srt"
    case SubSsa => ".ssa"
    case SubAss => ".ass"
    case SubDvd => ".sub"
    case _ => ""
  }

  /** isTextFile: SRT, SSA and ASS are the plain text subtitle files. */
  function IsTextFile(t: SubtitleType): (r: bool)
    ensures r <==> t == SubRip || t == SubSsa || t == SubAss
  {
    t.SubRip? || t.SubSsa? || t.SubAss?
  }

  /**
   * A file named after the usual extension of a subtitle type is recognised
   * as that type (when existence is not checked): fileExtension and
   * subtitleType are inverse.
   */
  lemma ExtensionRoundTrip(name: string, t: SubtitleType)
    requires FileExtension(t) != "" && !HasChar(name, '/')
    ensures SubtitleTypeOfFile(name + FileExtension(t), false, false, false) == t
  {
    DottedExtension(name, t);
    var ext := ToLower(Suffix(name + FileExtension(t)));
    match t {
      case SubRip => assert ext == "srt";
      case SubSsa => assert ext == "ssa" && ext != "srt";
      case SubAss => assert ext == "ass" && ext != "srt" && ext != "ssa";
      case SubDvd => assert ext == "sub" && ext != "srt" && ext != "ssa" && ext != "ass";
    }
  }

  /** The extension found in a name ending with a usual extension is that extension without its dot. */
  lemma DottedExtension(name: string, t: SubtitleType)
    requires FileExtension(t) != "" && !HasChar(name, '/')
    ensures ToLower(Suffix(name + FileExtension(t))) == FileExtension(t)[1..]
  {
    var tail := FileExtension(t)[1..];
    ExtensionTail(t);
    assert name + FileExtension(t) == name + ['.'] + tail;
    SuffixOfDotted(name, tail);
  }

  /** A usual extension is a dot followed by lower-case letters. */
  lemma ExtensionTail(t: SubtitleType)
    requires FileExtension(t) != ""
    ensures var tail := FileExtension(t)[1..];
      FileExtension(t) == ['.'] + tail && !HasChar(tail, '/') && !HasChar(tail, '.') && ToLower(tail) == tail
  {
    var tail := FileExtension(t)[1..];
    assert |tail| == 3 && forall i :: 0 <= i < 3 ==> 'a' <= tail[i] <= 'z';
  }

  // ---------------------------------------------------------------------
  // Merge
  // ---------------------------------------------------------------------

  /** The description `dest` completed, field by field, with what `src` knows and `dest` does not. */
  function MergeInfo(dest: StreamInfo, src: StreamInfo): StreamInfo
  {
    dest.(
      streamType := if dest.streamType == Other then src.streamType else dest.streamType,
      title := if dest.title == "" then src.title else dest.title,
      codecName := if dest.codecName == "" then src.codecName else dest.codecName,
      language := if dest.language == "" then src.language else dest.language,
      ffIndex := if dest.ffIndex < 0 then src.ffIndex else dest.ffIndex,
      subtitleType := if dest.subtitleType == SubOther && src.subtitleType != SubNone then src.subtitleType else dest.subtitleType,
      teletextPage := if dest.teletextPage < 0 then src.teletextPage else dest.teletextPage,
      width := if dest.width <= 0 then src.width else dest.width,
      height := if dest.height <= 0 then src.height else dest.height,
      rotation := if dest.rotation == 0 then src.rotation else dest.rotation,
      forced := dest.forced || src.forced,
      impaired := dest.impaired || src.impaired,
      bitRate := if dest.bitRate <= 0 then src.bitRate else dest.bitRate,
      originalAudio := dest.originalAudio || src.originalAudio,
      dubbedAudio := dest.dubbedAudio || src.dubbedAudio,
      audioChannels := if dest.audioChannels <= 0 then src.audioChannels else dest.audioChannels,
      samplingRate := if dest.samplingRate <= 0 then src.samplingRate else dest.samplingRate,
      commentary := dest.commentary || src.commentary)
  }

  /** Every field that `dest` already knows is kept by a merge. */
  lemma MergeKeepsKnownFields(dest: StreamInfo, src: StreamInfo)
    ensures var r := MergeInfo(dest, src);
      r.streamId == dest.streamId && r.ccNumber == dest.ccNumber
      && (dest.streamType != Other ==> r.streamType == dest.streamType)
      && (dest.title != "" ==> r.title == dest.title)
      && (dest.codecName != "" ==> r.codecName == dest.codecName)
      && (dest.language != "" ==> r.language == dest.language)
      && (dest.ffIndex >= 0 ==> r.ffIndex == dest.ffIndex)
      && (dest.subtitleType != SubOther ==> r.subtitleType == dest.subtitleType)
      && (dest.width > 0 ==> r.width == dest.width) && (dest.height > 0 ==> r.height == dest.height)
      && (dest.forced ==> r.forced) && (dest.impaired ==> r.impaired) && (dest.commentary ==> r.commentary)
      && (dest.audioChannels > 0 ==> r.audioChannels == dest.audioChannels)
      && (dest.teletextPage >= 0 ==> r.teletextPage == dest.teletextPage)
      && (dest.rotation != 0 ==> r.rotation == dest.rotation)
      && (dest.bitRate > 0 ==> r.bitRate == dest.bitRate)
      && (dest.samplingRate > 0 ==> r.samplingRate == dest.samplingRate)
      && (dest.originalAudio ==> r.originalAudio) && (dest.dubbedAudio ==> r.dubbedAudio)
  {
  }

  /** Merging the same source twice adds nothing the first merge did not. */
  lemma MergeInfoIdempotent(dest: StreamInfo, src: StreamInfo)
    ensures MergeInfo(MergeInfo(dest, src), src) == MergeInfo(dest, src)
  {
  }

  /** The first stream of `source` with the given stream id. */
  function FindById(source: seq<StreamInfo>, id: int): (r: Option<nat>)
    ensures r.Some? ==> (r.value < |source| && source[r.value].streamId == id
      && forall k :: 0 <= k < r.value ==> source[k].streamId != id)
    ensures r.None? ==> forall k :: 0 <= k < |source| ==> source[k].streamId != id
  {
    if |source| == 0 then None
    else if source[0].streamId == id then Some(0)
    else match FindById(source[1..], id)
      case None => None
      case Some(k) => Some(k + 1)
  }

  /** A destination stream after the merge. */
  function Merged(dest: StreamInfo, source: seq<StreamInfo>): StreamInfo
  {
    if dest.streamId < 0 then dest
    else match FindById(source, dest.streamId)
      case None => dest
      case Some(k) => MergeInfo(dest, source[k])
  }

  /**
   * merge: each destination stream with a stream id is completed from the
   * first source stream with the same id; the others are left as they are.
   */
  method Merge(destination: seq<StreamInfo>, source: seq<StreamInfo>) returns (result: seq<StreamInfo>)
    ensures |result| == |destination|
    ensures forall i :: 0 <= i < |destination| ==> result[i] == Merged(destination[i], source)
  {
    result := [];
    var i := 0;
    while i < |destination|
      invariant 0 <= i <= |destination| && |result| == i
      invariant forall j :: 0 <= j < i ==> result[j] == Merged(destination[j], source)
    {
      var dest := destination[i];
      if dest.streamId >= 0 {
        var k := 0;
        while k < |source| && source[k].streamId != dest.streamId
          invariant 0 <= k <= |source|
          invariant forall j :: 0 <= j < k ==> source[j].streamId != dest.streamId
        {
          k := k + 1;
        }
        if k < |source| {
          dest := MergeInfo(dest, source[k]);
        }
      }
      result := result + [dest];
      i := i + 1;
    }
  }

  /** A stream without id, or without a counterpart, comes out of the merge unchanged. */
  lemma MergedUnmatched(dest: StreamInfo, source: seq<StreamInfo>)
    requires dest.streamId < 0 || forall k :: 0 <= k < |source| ==> source[k].streamId != dest.streamId
    ensures Merged(dest, source) == dest
  {
  }
}
