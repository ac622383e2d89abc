/**
 * The small arithmetic helpers of the MPEG transport stream core: bitrate
 * conversions between 188- and 204-byte packets, packet intervals and
 * distances, the number of packets a section needs, PTS wrap-up and the
 * PES stream-id families.
 */
module QtsCore {
  import opened Bytes

  /** Size in bytes of a transport stream packet. */
  const PacketSize := 188

  /** Bits of one packet per second times milliseconds per second. */
  const PacketMilliBits := 8 * PacketSize * 1000

  /** PTS and DTS wrap up at 2^33. */
  const PtsScale := 0x2_0000_0000

  /** A jump backwards larger than this is taken as a wrap-up, not a reordering. */
  const PtsWrapThreshold := 0x1_F000_0000

  /** C++ integer division, truncated toward zero (Dafny's `/` is Euclidean). */
  function Quot(a: int, b: int): (r: int)
    requires b > 0
    ensures a >= 0 ==> r * b <= a < (r + 1) * b
    ensures a < 0 ==> r == -((-a) / b)
  {
    if a >= 0 then a / b else -((-a) / b)
  }

  /** A 64-bit signed result (qint64 arithmetic) in two's complement. */
  function I64(x: int): (r: int)
    ensures -0x8000_0000_0000_0000 <= r < 0x8000_0000_0000_0000
    ensures (r - x) % 0x1_0000_0000_0000_0000 == 0
    ensures -0x8000_0000_0000_0000 <= x < 0x8000_0000_0000_0000 ==> r == x
  {
    var u := x % 0x1_0000_0000_0000_0000;
    if u < 0x8000_0000_0000_0000 then u else u - 0x1_0000_0000_0000_0000
  }

  /** The bitrates that fit a QtsBitRate (a signed 32-bit integer). */
  predicate IsBitRate(b: int)
  {
    -0x8000_0000 <= b < 0x8000_0000
  }

  // ---------------------------------------------------------------------
  // Bitrates
  // ---------------------------------------------------------------------

  /**
   * qtsToBitrate204: the 64-bit product scaled by 204/188, truncated, then
   * cut back to a 32-bit bitrate.
   */
  function ToBitrate204(bitrate188: int): (r: int)
    requires IsBitRate(bitrate188)
    ensures IsBitRate(r)
  {
    I32(Quot(bitrate188 * 204, 188))
  }

  /** qtsToBitrate188: the inverse scaling by 188/204. */
  function ToBitrate188(bitrate204: int): (r: int)
    requires IsBitRate(bitrate204)
    ensures IsBitRate(r)
  {
    I32(Quot(bitrate204 * 188, 204))
  }

  /** The largest 188-byte bitrate whose 204-byte bitrate still fits 32 bits. */
  const MaxConvertible := 1979053557

  /**
   * Converting a bitrate to 204-byte packets never lowers it and, when the
   * result fits 32 bits, it is the exact ratio rounded down.
   */
  lemma Bitrate204Bounds(b: int)
    requires 0 <= b <= MaxConvertible
    ensures var r := ToBitrate204(b); b <= r && r * 188 <= b * 204 < (r + 1) * 188
  {
    var q := Quot(b * 204, 188);
    assert q * 188 <= b * 204 < (q + 1) * 188;
    assert q < 0x8000_0000;
  }

  /**
   * Converting to 204-byte packets and back loses at most one bit per
   * second, through the two truncations.
   */
  lemma BitrateRoundTrip(b: int)
    requires 0 <= b <= MaxConvertible
    ensures var back := ToBitrate188(ToBitrate204(b)); b - 1 <= back <= b
  {
    Bitrate204Bounds(b);
    var r := ToBitrate204(b);
    var q := Quot(r * 188, 204);
    assert q * 204 <= r * 188 < (q + 1) * 204;
    assert r * 188 <= b * 204;
    assert q * 204 <= b * 204;
    assert (b - 1) * 204 < r * 188 + 17 by {
      assert b * 204 < (r + 1) * 188;
    }
    assert q >= b - 1 by {
      assert (b - 1) * 204 < (q + 1) * 204 + 17;
    }
  }

  // ---------------------------------------------------------------------
  // Packet timing
  // ---------------------------------------------------------------------

  /**
   * qtsPacketInterval: milliseconds between two packets `distance` packets
   * apart; a null bitrate gives 0.
   */
  function PacketInterval(bitrate: int, distance: int): (r: int)
    requires IsBitRate(bitrate)
    ensures bitrate == 0 ==> r == 0
  {
    if bitrate == 0 then 0
    else if bitrate > 0 then Quot(I64(distance * PacketMilliBits), bitrate)
    else -Quot(I64(distance * PacketMilliBits), -bitrate)
  }

  /**
   * Without 64-bit overflow, the interval is the exact time rounded down:
   * `distance` packets take at least `r` and less than `r + 1` milliseconds.
   */
  lemma PacketIntervalBounds(bitrate: int, distance: int)
    requires 0 < bitrate < 0x8000_0000 && distance >= 0
    requires distance * PacketMilliBits < 0x8000_0000_0000_0000
    ensures var r := PacketInterval(bitrate, distance);
      r >= 0 && r * bitrate <= distance * PacketMilliBits < (r + 1) * bitrate
  {
    var x := distance * PacketMilliBits;
    assert I64(x) == x;
  }

  /** qtsPacketDistance: packets sent during `duration` milliseconds, in either direction. */
  function PacketDistance(bitrate: int, duration: int): (r: int)
    requires IsBitRate(bitrate)
    requires -0x8000_0000_0000_0000 < duration < 0x8000_0000_0000_0000
  {
    Quot(I64(bitrate * Abs(duration)), PacketMilliBits)
  }

  /** Without 64-bit overflow, the distance is the exact packet count rounded down. */
  lemma PacketDistanceBounds(bitrate: int, duration: int)
    requires 0 <= bitrate < 0x8000_0000
    requires -0x8000_0000_0000_0000 < duration < 0x8000_0000_0000_0000
    requires bitrate * Abs(duration) < 0x8000_0000_0000_0000
    ensures var r := PacketDistance(bitrate, duration);
      r == PacketDistance(bitrate, -duration) &&
      r >= 0 && r * PacketMilliBits <= bitrate * Abs(duration) < (r + 1) * PacketMilliBits
  {
    var x := bitrate * Abs(duration);
    DistanceSymmetric(bitrate, duration);
    DistanceIsQuotient(bitrate, duration, x);
  }

  /** The distance depends only on the length of the duration. */
  lemma DistanceSymmetric(bitrate: int, duration: int)
    requires IsBitRate(bitrate)
    requires -0x8000_0000_0000_0000 < duration < 0x8000_0000_0000_0000
    ensures PacketDistance(bitrate, duration) == PacketDistance(bitrate, -duration)
  {
    assert Abs(-duration) == Abs(duration);
  }

  /** Without overflow, the distance is the quotient of the exact product. */
  lemma DistanceIsQuotient(bitrate: int, duration: int, x: int)
    requires 0 <= bitrate < 0x8000_0000
    requires -0x8000_0000_0000_0000 < duration < 0x8000_0000_0000_0000
    requires x == bitrate * Abs(duration) && x < 0x8000_0000_0000_0000
    ensures x >= 0 && PacketDistance(bitrate, duration) == Quot(x, PacketMilliBits)
  {
    MulNonNegative(bitrate, Abs(duration));
    assert I64(x) == x;
  }

  lemma MulNonNegative(a: int, b: int)
    requires a >= 0 && b >= 0
    ensures a * b >= 0
  {
  }

  function Abs(x: int): (r: nat)
    ensures r == x || r == -x
  {
    if x >= 0 then x else -x
  }

  /**
   * Over the interval between two packets, a stream sends no more packets
   * than the distance between them.
   */
  lemma DistanceOfInterval(bitrate: int, distance: int)
    requires 0 < bitrate < 0x8000_0000 && 0 <= distance < 0x1_0000_0000
    ensures var t := PacketInterval(bitrate, distance); PacketDistance(bitrate, t) <= distance
  {
    var t := PacketInterval(bitrate, distance);
    assert distance * PacketMilliBits < 0x8000_0000_0000_0000;
    PacketIntervalBounds(bitrate, distance);
    assert t * bitrate <= distance * PacketMilliBits;
    assert bitrate * t < 0x8000_0000_0000_0000;
    PacketDistanceBounds(bitrate, t);
    var p := PacketDistance(bitrate, t);
    assert p * PacketMilliBits <= bitrate * t;
    CancelPacketBits(p, distance);
  }

  lemma CancelPacketBits(p: int, d: int)
    requires p * PacketMilliBits <= d * PacketMilliBits
    ensures p <= d
  {
  }

  /**
   * qtsSectionPacketCount: the fewest packets whose 184-byte payloads carry
   * the section and the pointer field of its first packet.
   */
  function SectionPacketCount(sectionSize: int): (r: int)
  {
    Quot(sectionSize + 184, 184)
  }

  /** The count is minimal: one packet fewer would not hold section and pointer field. */
  lemma SectionPacketCountMinimal(sectionSize: nat)
    ensures var n := SectionPacketCount(sectionSize);
      n >= 1 && (n - 1) * 184 < sectionSize + 1 <= n * 184
  {
  }

  // ---------------------------------------------------------------------
  // Presentation time stamps
  // ---------------------------------------------------------------------

  /** The 33-bit values a PTS or DTS field holds. */
  predicate IsPts(x: int)
  {
    0 <= x < PtsScale
  }

  /** qtsWrapUpPts: pts2 comes after pts1 once the clock has wrapped at 2^33. */
  predicate WrapUpPts(pts1: nat, pts2: nat)
  {
    pts2 < pts1 && pts1 - pts2 > PtsWrapThreshold
  }

  /** qtsSequencedPts: pts2 follows pts1, with or without wrap-up. */
  predicate SequencedPts(pts1: nat, pts2: nat)
  {
    pts1 <= pts2 || WrapUpPts(pts1, pts2)
  }

  /**
   * A wrap-up is a short step forward on the circular 33-bit clock: pts2 lies
   * less than 2^28 ticks after pts1 once 2^33 is added to it.
   */
  lemma WrapUpIsShortStep(pts1: nat, pts2: nat)
    requires IsPts(pts1) && IsPts(pts2)
    ensures WrapUpPts(pts1, pts2) <==> pts2 < pts1 && pts2 + PtsScale - pts1 < 0x1000_0000
  {
  }

  /**
   * A wrap-up goes one way only; of two distinct stamps one is always
   * sequenced after the other; a stamp is sequenced after itself.
   */
  lemma SequencedOneWay(pts1: nat, pts2: nat)
    requires IsPts(pts1) && IsPts(pts2) && pts1 != pts2
    ensures WrapUpPts(pts1, pts2) ==> !WrapUpPts(pts2, pts1)
    ensures SequencedPts(pts1, pts2) || SequencedPts(pts2, pts1)
    ensures SequencedPts(pts1, pts1)
  {
  }

  // ---------------------------------------------------------------------
  // PES stream identifiers
  // ---------------------------------------------------------------------

  const VideoSid: bv8 := 0xE0
  const VideoSidMask: bv8 := 0x0F
  const AudioSid: bv8 := 0xC0
  const AudioSidMask: bv8 := 0x1F

  /** qtsIsVideoPesStreamId: the bits above the stream number are those of 0xE0. */
  predicate IsVideoSid(sid: bv8)
  {
    sid & !VideoSidMask == VideoSid
  }

  /** qtsIsAudioPesStreamId: the bits above the stream number are those of 0xC0. */
  predicate IsAudioSid(sid: bv8)
  {
    sid & !AudioSidMask == AudioSid
  }

  /** The video stream ids are 0xE0..0xEF and the audio stream ids 0xC0..0xDF, two disjoint blocks. */
  lemma SidRanges(sid: bv8)
    ensures IsVideoSid(sid) <==> 0xE0 <= sid <= 0xEF
    ensures IsAudioSid(sid) <==> 0xC0 <= sid <= 0xDF
    ensures !(IsVideoSid(sid) && IsAudioSid(sid))
  {
    assert IsVideoSid(sid) <==> sid & 0xF0 == 0xE0;
    assert IsAudioSid(sid) <==> sid & 0xE0 == 0xC0;
  }
}
