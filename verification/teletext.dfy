/**
 * The Teletext demux (ETSI EN 300 472 and ETSI EN 300 706): Hamming 8/4 and
 * 24/18 decoding, BCD page numbers, the walk over the data units of a PES
 * packet and the frame counters kept per PID and page.
 */
module Teletext {
  import opened Sequences
  import opened Bytes
  import Sections

  /** Bounds of the EBU data_identifier of a Teletext PES packet. */
  const FirstEbuDataId := 0x10
  const LastEbuDataId := 0x1F

  /** data_unit_id of EBU Teletext non-subtitle and subtitle data. */
  const NonSubtitleUnit := 0x02
  const SubtitleUnit := 0x03

  /** Size of a Teletext packet. */
  const PacketSize := 44

  // ---------------------------------------------------------------------
  // Hamming 8/4
  // ---------------------------------------------------------------------

  /** The decoding table of unham_8_4: 0xFF marks an uncorrectable byte. */
  const Unham84Table: seq<byte> := [
    0x01, 0xff, 0x01, 0x01, 0xff, 0x00, 0x01, 0xff, 0xff, 0x02, 0x01, 0xff, 0x0a, 0xff, 0xff, 0x07,
    0xff, 0x00, 0x01, 0xff, 0x00, 0x00, 0xff, 0x00, 0x06, 0xff, 0xff, 0x0b, 0xff, 0x00, 0x03, 0xff,
    0xff, 0x0c, 0x01, 0xff, 0x04, 0xff, 0xff, 0x07, 0x06, 0xff, 0xff, 0x07, 0xff, 0x07, 0x07, 0x07,
    0x06, 0xff, 0xff, 0x05, 0xff, 0x00, 0x0d, 0xff, 0x06, 0x06, 0x06, 0xff, 0x06, 0xff, 0xff, 0x07,
    0xff, 0x02, 0x01, 0xff, 0x04, 0xff, 0xff, 0x09, 0x02, 0x02, 0xff, 0x02, 0xff, 0x02, 0x03, 0xff,
    0x08, 0xff, 0xff, 0x05, 0xff, 0x00, 0x03, 0xff, 0xff, 0x02, 0x03, 0xff, 0x03, 0xff, 0x03, 0x03,
    0x04, 0xff, 0xff, 0x05, 0x04, 0x04, 0x04, 0xff, 0xff, 0x02, 0x0f, 0xff, 0x04, 0xff, 0xff, 0x07,
    0xff, 0x05, 0x05, 0x05, 0x04, 0xff, 0xff, 0x05, 0x06, 0xff, 0xff, 0x05, 0xff, 0x0e, 0x03, 0xff,
    0xff, 0x0c, 0x01, 0xff, 0x0a, 0xff, 0xff, 0x09, 0x0a, 0xff, 0xff, 0x0b, 0x0a, 0x0a, 0x0a, 0xff,
    0x08, 0xff, 0xff, 0x0b, 0xff, 0x00, 0x0d, 0xff, 0xff, 0x0b, 0x0b, 0x0b, 0x0a, 0xff, 0xff, 0x0b,
    0x0c, 0x0c, 0xff, 0x0c, 0xff, 0x0c, 0x0d, 0xff, 0xff, 0x0c, 0x0f, 0xff, 0x0a, 0xff, 0xff, 0x07,
    0xff, 0x0c, 0x0d, 0xff, 0x0d, 0xff, 0x0d, 0x0d, 0x06, 0xff, 0xff, 0x0b, 0xff, 0x0e, 0x0d, 0xff,
    0x08, 0xff, 0xff, 0x09, 0xff, 0x09, 0x09, 0x09, 0xff, 0x02, 0x0f, 0xff, 0x0a, 0xff, 0xff, 0x09,
    0x08, 0x08, 0x08, 0xff, 0x08, 0xff, 0xff, 0x09, 0x08, 0xff, 0xff, 0x0b, 0xff, 0x0e, 0x03, 0xff,
    0xff, 0x0c, 0x0f, 0xff, 0x04, 0xff, 0xff, 0x09, 0x0f, 0xff, 0x0f, 0x0f, 0xff, 0x0e, 0x0f, 0xff,
    0x08, 0xff, 0xff, 0x05, 0xff, 0x0e, 0x0d, 0xff, 0xff, 0x0e, 0x0f, 0xff, 0x0e, 0x0e, 0xff, 0x0e
  ]

  /** unham_8_4: the 4 data bits of a Hamming 8/4 byte, 0 when it cannot be corrected. */
  function Unham84(a: byte): (r: byte)
    ensures r <= 0x0F
    ensures Unham84Table[a] == 0xFF ==> r == 0
  {
    var t := Unham84Table[a];
    if t == 0xFF then 0 else ((t as bv8) & 0x0F) as byte
  }

  // ---------------------------------------------------------------------
  // Hamming 24/18
  // ---------------------------------------------------------------------

  /**
   * What bit j of a 24/18 word adds to the tests: the weight w when the bit
   * is set. The tests, a quint8, stay below 64.
   */
  function Term(a: bv32, j: bv8, w: bv8): bv8
    requires j < 32
  {
    if (a >> j) & 1 == 1 then w else 0
  }

  /** The tests after the loop of unham_24_18 has folded in the bits 0 .. n-1: bit i weighs i + 33. */
  function TestsUpTo(a: bv32, n: bv8): bv8
    requires n <= 23
  {
    if n == 0 then 0 else TestsUpTo(a, n - 1) ^ Term(a, n - 1, n - 1 + 33)
  }

  /**
   * The six tests A-F of a 24/18 word as bits 0-5, a test passing when its
   * bit is 1; bit 23 enters the overall parity test F only.
   */
  function Syndrome(a: bv32): (t: bv8)
    ensures t < 64
  {
    TestsBelow64(a, 23);
    TermBelow64(a, 23, 32);
    XorBelow64(TestsUpTo(a, 23), Term(a, 23, 32));
    TestsUpTo(a, 23) ^ Term(a, 23, 32)
  }

  /** Some of the tests A-E fail while the parity test F passes: two bits are wrong. */
  predicate DoubleError(t: bv8)
  {
    t & 0x1F != 0x1F && t & 0x20 == 0x20
  }

  /** The word after the single-error correction: when F fails, the failing tests name the bit to invert. */
  function Corrected(a: bv32, t: bv8): bv32
    requires t < 64
  {
    if t & 0x1F != 0x1F && t & 0x20 != 0x20 then a ^ (1 << (30 - t)) else a
  }

  /** The 18 data bits of a 24/18 word: bits 2, 4-6, 8-14 and 16-22, packed from bit 0. */
  function Data18(a: bv32): (r: bv32)
    ensures r < 0x4_0000
  {
    ((a & 0x04) >> 2) | ((a & 0x70) >> 3) | ((a & 0x7F00) >> 4) | ((a & 0x7F_0000) >> 5)
  }

  /**
   * unham_24_18: 0xFFFFFFFF when the tests report a double error, otherwise
   * the 18 data bits of the word once a single wrong bit has been inverted;
   * those fit 18 bits, so the two outcomes never meet.
   */
  method Unham2418(a: bv32) returns (r: bv32)
    ensures r == 0xFFFF_FFFF <==> DoubleError(Syndrome(a))
    ensures !DoubleError(Syndrome(a)) ==> r == Data18(Corrected(a, Syndrome(a))) && r < 0x4_0000
  {
    var test: bv8 := 0;
    var i: bv8 := 0;
    while i < 23
      invariant i <= 23 && test == TestsUpTo(a, i)
      decreases 23 - i
    {
      TestsStep(a, i);
      BitTimesWeight(a, i, i + 33);
      test := test ^ ((((a >> i) & 1) as bv8) * (i + 33));
      i := i + 1;
    }
    SyndromeFromTests(a, test);
    BitTimesWeight(a, 23, 32);
    test := test ^ ((((a >> 23) & 1) as bv8) * 32);
    var x := a;
    if test & 0x1F != 0x1F {
      if test & 0x20 == 0x20 {
        return 0xFFFF_FFFF;
      }
      CorrectedFlips(a, test);
      x := x ^ (1 << (30 - test));
    }
    r := ((x & 0x04) >> 2) | ((x & 0x70) >> 3) | ((x & 0x7F00) >> 4) | ((x & 0x7F_0000) >> 5);
    DataBits(x, r);
  }

  /** The C++ product of a bit and a weight is the weight or nothing. */
  lemma BitTimesWeight(a: bv32, j: bv8, w: bv8)
    requires j < 32
    ensures (((a >> j) & 1) as bv8) * w == Term(a, j, w)
  {
  }

  lemma TermBelow64(a: bv32, j: bv8, w: bv8)
    requires j < 32 && w < 64
    ensures Term(a, j, w) < 64
  {
  }

  lemma XorBelow64(x: bv8, y: bv8)
    requires x < 64 && y < 64
    ensures x ^ y < 64
  {
  }

  lemma {:induction false} TestsBelow64(a: bv32, n: bv8)
    requires n <= 23
    ensures TestsUpTo(a, n) < 64
  {
    if n > 0 {
      TestsBelow64(a, n - 1);
      TermBelow64(a, n - 1, n - 1 + 33);
      XorBelow64(TestsUpTo(a, n - 1), Term(a, n - 1, n - 1 + 33));
    }
  }

  lemma TestsStep(a: bv32, i: bv8)
    requires i < 23
    ensures TestsUpTo(a, i + 1) == TestsUpTo(a, i) ^ Term(a, i, i + 33)
  {
    assert i + 1 - 1 == i;
  }

  lemma SyndromeFromTests(a: bv32, test: bv8)
    requires test == TestsUpTo(a, 23)
    ensures test ^ Term(a, 23, 32) == Syndrome(a)
  {
  }

  lemma CorrectedFlips(a: bv32, t: bv8)
    requires t < 64 && t & 0x1F != 0x1F && t & 0x20 != 0x20
    ensures Corrected(a, t) == a ^ (1 << (30 - t))
  {
  }

  lemma DataBits(x: bv32, r: bv32)
    requires r == ((x & 0x04) >> 2) | ((x & 0x70) >> 3) | ((x & 0x7F00) >> 4) | ((x & 0x7F_0000) >> 5)
    ensures r == Data18(x)
  {
  }

  // ---------------------------------------------------------------------
  // Page numbers
  // ---------------------------------------------------------------------

  /**
   * pageBcdToBinary: the number written by the three BCD nibbles at bits
   * 8-11, 4-7 and 0-3. Euclidean division and remainder by a power of two are
   * the arithmetic shift and the mask of a two's-complement int.
   */
  function PageBcdToBinary(bcd: int): (r: int)
    ensures 0 <= r <= 1665
  {
    100 * ((bcd / 256) % 16) + 10 * ((bcd / 16) % 16) + bcd % 16
  }

  /** A page number in BCD: three decimal digits, one per nibble. */
  predicate IsBcdPage(bcd: int)
  {
    0 <= bcd < 0x1000 && bcd / 256 <= 9 && (bcd / 16) % 16 <= 9 && bcd % 16 <= 9
  }

  /**
   * pageBinaryToBcd: the last three decimal digits of a page number, one per
   * nibble. The nibbles do not overlap, so the bitwise or is a sum.
   */
  function PageBinaryToBcd(bin: int): (r: int)
    requires 0 <= bin
    ensures IsBcdPage(r)
  {
    Nibbles(bin / 100 % 10, bin / 10 % 10, bin % 10);
    (bin / 100 % 10) * 256 + (bin / 10 % 10) * 16 + bin % 10
  }

  /** Three nibbles placed at bits 8, 4 and 0 read back one by one. */
  lemma Nibbles(h: int, t: int, u: int)
    requires 0 <= h < 16 && 0 <= t < 16 && 0 <= u < 16
    ensures (h * 256 + t * 16 + u) / 256 == h
    ensures (h * 256 + t * 16 + u) / 16 % 16 == t
    ensures (h * 256 + t * 16 + u) % 16 == u
  {
    var x := h * 256 + t * 16 + u;
    assert x == (h * 16 + t) * 16 + u;
    assert x / 16 == h * 16 + t;
  }

  /** A number below 1000 is its three decimal digits. */
  lemma Digits(n: int)
    requires 0 <= n
    ensures n % 1000 == (n / 100 % 10) * 100 + (n / 10 % 10) * 10 + n % 10
  {
    var a, b, c, d := n / 1000, n / 100 % 10, n / 10 % 10, n % 10;
    Tens(n);
    Tens(n / 10);
    Tens(n / 100);
    Hundreds(n);
    Thousands(n);
    assert n == a * 1000 + (b * 100 + c * 10 + d);
  }

  /** n is ten times n / 10 plus its last digit. */
  lemma Tens(n: int)
    requires 0 <= n
    ensures n == n / 10 * 10 + n % 10 && 0 <= n % 10 < 10
  {
  }

  lemma Hundreds(n: int)
    requires 0 <= n
    ensures n / 10 / 10 == n / 100
  {
    var r := n / 10 / 10;
    Tens(n);
    Tens(n / 10);
    assert n == r * 100 + (n / 10 % 10 * 10 + n % 10);
  }

  lemma Thousands(n: int)
    requires 0 <= n
    ensures n / 100 / 10 == n / 1000
  {
    var r := n / 100 / 10;
    Tens(n / 100);
    assert n == n / 100 * 100 + n % 100;
    assert n == r * 1000 + (n / 100 % 10 * 100 + n % 100);
  }

  /** Page numbers 0-999 survive the trip to BCD and back; larger ones lose their thousands. */
  lemma BinaryBcdRoundTrip(bin: int)
    requires 0 <= bin
    ensures PageBcdToBinary(PageBinaryToBcd(bin)) == bin % 1000
    ensures bin < 1000 ==> PageBcdToBinary(PageBinaryToBcd(bin)) == bin
  {
    var h, t, u := bin / 100 % 10, bin / 10 % 10, bin % 10;
    var bcd := PageBinaryToBcd(bin);
    assert bcd == h * 256 + t * 16 + u;
    BcdOfDigits(h, t, u);
    assert PageBcdToBinary(bcd) == 100 * h + 10 * t + u;
    Digits(bin);
    if bin < 1000 {
      BelowModulus(bin, 1000);
    }
  }

  lemma BelowModulus(x: int, m: int)
    requires 0 <= x < m
    ensures x % m == x
  {
  }

  /** Three digits in BCD read back as their number. */
  lemma BcdOfDigits(h: int, t: int, u: int)
    requires 0 <= h < 10 && 0 <= t < 10 && 0 <= u < 10
    ensures PageBcdToBinary(h * 256 + t * 16 + u) == 100 * h + 10 * t + u
  {
    Nibbles(h, t, u);
  }

  /** Three decimal digits read back one by one. */
  lemma Decimals(h: int, t: int, u: int)
    requires 0 <= h < 10 && 0 <= t < 10 && 0 <= u < 10
    ensures (100 * h + 10 * t + u) / 100 % 10 == h
    ensures (100 * h + 10 * t + u) / 10 % 10 == t
    ensures (100 * h + 10 * t + u) % 10 == u
  {
    var n := 100 * h + 10 * t + u;
    assert n == (10 * h + t) * 10 + u;
    assert n / 10 == 10 * h + t;
    assert n / 100 == h;
  }
  /** A number below 4096 is its three nibbles. */
  lemma SplitNibbles(x: int)
    requires 0 <= x
    ensures x == x / 256 * 256 + x / 16 % 16 * 16 + x % 16
  {
    var q := x / 16;
    assert x == q * 16 + x % 16;
    assert q == q / 16 * 16 + q % 16;
    assert q / 16 == x / 256;
  }
  /** A BCD page number survives the trip to binary and back. */
  lemma BcdBinaryRoundTrip(bcd: int)
    requires IsBcdPage(bcd)
    ensures PageBinaryToBcd(PageBcdToBinary(bcd)) == bcd
  {
    var h, t, u := bcd / 256, bcd / 16 % 16, bcd % 16;
    SplitNibbles(bcd);
    Decimals(h, t, u);
    var n := PageBcdToBinary(bcd);
    assert n == 100 * h + 10 * t + u;
    assert PageBinaryToBcd(n) == h * 256 + t * 16 + u;
  }

  // ---------------------------------------------------------------------
  // Teletext packets
  // ---------------------------------------------------------------------

  /** The magazine and the packet row of a Teletext packet. */
  datatype Address = Address(magazine: nat, row: nat)

  /**
   * The address of a Teletext packet from the data nibbles of its two
   * Hamming 8/4 address bytes: magazine 1-8 (0 stands for 8) in the low three
   * bits of the first, the row in its fourth bit and the second nibble.
   */
  function AddressOf(lo: nat, hi: nat): (r: Address)
    requires lo < 16 && hi < 16
    ensures 1 <= r.magazine <= 8 && r.row < 32
    ensures r.magazine % 8 == lo % 8
    ensures r.row == 2 * hi + lo / 8
  {
    var address := hi * 16 + lo;
    var m := address % 8;
    Address(if m == 0 then 8 else m, address / 8 % 32)
  }

  /** The address of a Teletext packet, after its clock run-in and framing code. */
  function PacketAddress(pkt: seq<byte>): Address
    requires |pkt| >= 4
  {
    AddressOf(Unham84(pkt[2]), Unham84(pkt[3]))
  }

  /** The low `n` bits of `b`, least significant first. */
  function ToBits(b: nat, n: nat): (c: seq<bool>)
    ensures |c| == n
  {
    if n == 0 then [] else [b % 2 == 1] + ToBits(b / 2, n - 1)
  }

  /** The number whose bits, least significant first, are `c`. */
  function FromBits(c: seq<bool>): nat
  {
    if |c| == 0 then 0 else (if c[0] then 1 else 0) + 2 * FromBits(c[1..])
  }

  /** A number below 2^n is given back by its n bits. */
  lemma {:induction false} FromToBits(b: nat, n: nat)
    requires b < Pow2(n)
    ensures FromBits(ToBits(b, n)) == b
  {
    if n > 0 {
      DivUnique(b, b / 2, b % 2, 2);
      FromToBits(b / 2, n - 1);
      assert ToBits(b, n)[1..] == ToBits(b / 2, n - 1);
    }
  }

  /** The bits of the number a bit sequence makes are that sequence. */
  lemma {:induction false} ToFromBits(c: seq<bool>)
    ensures ToBits(FromBits(c), |c|) == c
  {
    if |c| > 0 {
      DivUnique(FromBits(c), FromBits(c[1..]), if c[0] then 1 else 0, 2);
      ToFromBits(c[1..]);
      assert c == [c[0]] + c[1..];
    }
  }

  lemma {:induction false} FromBitsBound(c: seq<bool>)
    ensures FromBits(c) < Pow2(|c|)
  {
    if |c| > 0 {
      FromBitsBound(c[1..]);
    }
  }

  /**
   * REVERSE_8: a byte with its bits in the opposite order, bit i going to
   * bit 7 - i, Teletext being sent least significant bit first.
   */
  function ReverseByte(b: byte): byte
  {
    FromBitsBound(Reverse(ToBits(b, 8)));
    FromBits(Reverse(ToBits(b, 8)))
  }

  /** Bit i of a reversed byte is bit 7 - i of the byte. */
  lemma ReverseByteBits(b: byte)
    ensures ToBits(ReverseByte(b), 8) == Reverse(ToBits(b, 8))
  {
    ToFromBits(Reverse(ToBits(b, 8)));
  }

  /** Reversing the bits twice gives the byte back. */
  lemma ReverseByteTwice(b: byte)
    ensures ReverseByte(ReverseByte(b)) == b
  {
    ReverseByteBits(b);
    ReverseReverse(ToBits(b, 8));
    FromToBits(b, 8);
  }

  /** Every byte of a data unit with its bits reversed. */
  function Reversed(data: seq<byte>): (r: seq<byte>)
    ensures |r| == |data| && forall i :: 0 <= i < |data| ==> r[i] == ReverseByte(data[i])
  {
    seq(|data|, i requires 0 <= i < |data| => ReverseByte(data[i]))
  }

  /** Reversing the bits of a data unit twice gives it back. */
  lemma ReversedTwice(data: seq<byte>)
    ensures Reversed(Reversed(data)) == data
  {
    forall i | 0 <= i < |data|
      ensures Reversed(Reversed(data))[i] == data[i]
    {
      ReverseByteTwice(data[i]);
    }
  }

  /**
   * The loop of handlePesPacket copying a data unit into the packet buffer
   * with the bits of each byte reversed.
   */
  method ReverseBytes(data: seq<byte>) returns (pkt: array<byte>)
    ensures fresh(pkt) && pkt[..] == Reversed(data)
  {
    pkt := new byte[|data|];
    for i := 0 to |data|
      invariant forall k :: 0 <= k < i ==> pkt[k] == ReverseByte(data[k])
    {
      pkt[i] := ReverseByte(data[i]);
    }
  }

  // ---------------------------------------------------------------------
  // Data units of a PES packet
  // ---------------------------------------------------------------------

  /** A data unit: its data_unit_id and its data. */
  datatype DataUnit = DataUnit(id: byte, data: seq<byte>)

  /**
   * The data units after the data_identifier: an id byte, a size byte and
   * that many bytes each. The walk ends with fewer than two bytes left or at
   * a unit that claims more bytes than remain.
   */
  function DataUnits(pl: seq<byte>): seq<DataUnit>
    decreases |pl|
  {
    if |pl| < 2 || pl[1] > |pl| - 2 then []
    else [DataUnit(pl[0], pl[2..2 + pl[1]])] + DataUnits(pl[2 + pl[1]..])
  }

  /** A data unit that carries a Teletext packet: 44 bytes of (non-)subtitle data. */
  predicate IsTeletextUnit(u: DataUnit)
  {
    |u.data| == PacketSize && (u.id == NonSubtitleUnit || u.id == SubtitleUnit)
  }

  /** The Teletext packet a data unit carries, its bits reversed, if any. */
  function UnitPackets(u: DataUnit): seq<DataUnit>
  {
    if IsTeletextUnit(u) then [DataUnit(u.id, Reversed(u.data))] else []
  }

  /** The Teletext packets among data units, in order. */
  function Packets(us: seq<DataUnit>): seq<DataUnit>
  {
    if us == [] then [] else UnitPackets(us[0]) + Packets(us[1..])
  }

  /**
   * The Teletext packets of a PES payload: none unless the first byte is an
   * EBU data_identifier.
   */
  function TeletextPackets(payload: seq<byte>): seq<DataUnit>
  {
    if |payload| < 1 || payload[0] < FirstEbuDataId || payload[0] > LastEbuDataId then []
    else Packets(DataUnits(payload[1..]))
  }

  /** The bytes of data units, each as its id, its size and its data. */
  function EncodeUnits(us: seq<DataUnit>): seq<byte>
    requires forall k :: 0 <= k < |us| ==> |us[k].data| < 256
  {
    if us == [] then [] else [us[0].id, |us[0].data|] + us[0].data + EncodeUnits(us[1..])
  }

  /** Walking the encoding of data units gives them back, then the units of what follows. */
  lemma {:induction false} DataUnitsRoundTrip(us: seq<DataUnit>, tail: seq<byte>)
    requires forall k :: 0 <= k < |us| ==> |us[k].data| < 256
    ensures DataUnits(EncodeUnits(us) + tail) == us + DataUnits(tail)
  {
    if us != [] {
      EncodeUnitsCons(us, tail);
      DataUnitsCons(us[0], EncodeUnits(us[1..]) + tail);
      DataUnitsRoundTrip(us[1..], tail);
      ConsAppend(us, DataUnits(tail));
    } else {
      EmptyAppend(EncodeUnits(us), tail);
    }
  }

  lemma EmptyAppend(e: seq<byte>, tail: seq<byte>)
    requires e == []
    ensures e + tail == tail
  {
  }

  lemma EncodeUnitsCons(us: seq<DataUnit>, tail: seq<byte>)
    requires us != [] && forall k :: 0 <= k < |us| ==> |us[k].data| < 256
    ensures EncodeUnits(us) + tail == [us[0].id, |us[0].data|] + us[0].data + (EncodeUnits(us[1..]) + tail)
  {
  }

  /** The walk reads one encoded data unit, then goes on after it. */
  lemma DataUnitsCons(u: DataUnit, rest: seq<byte>)
    requires |u.data| < 256
    ensures DataUnits([u.id, |u.data|] + u.data + rest) == [u] + DataUnits(rest)
  {
    var pl := [u.id, |u.data|] + u.data + rest;
    assert pl[2..2 + |u.data|] == u.data;
    assert pl[2 + |u.data|..] == rest;
  }

  lemma ConsAppend(us: seq<DataUnit>, vs: seq<DataUnit>)
    requires us != []
    ensures us + vs == [us[0]] + (us[1..] + vs)
  {
  }

  /**
   * Every packet kept is a 44-byte unit of id 2 or 3 that was among the data
   * units, with its bits reversed.
   */
  lemma {:induction false} PacketsKept(us: seq<DataUnit>)
    ensures |Packets(us)| <= |us|
    ensures forall p :: p in Packets(us) ==> IsTeletextUnit(p) && DataUnit(p.id, Reversed(p.data)) in us
  {
    if us != [] {
      PacketsKept(us[1..]);
      ReversedTwice(us[0].data);
      forall p | p in Packets(us[1..])
        ensures DataUnit(p.id, Reversed(p.data)) in us
      {
        assert DataUnit(p.id, Reversed(p.data)) in us[1..];
      }
    }
  }

  /** Units that all carry Teletext packets are all kept, in order. */
  lemma {:induction false} PacketsOfTeletextUnits(us: seq<DataUnit>)
    requires forall k :: 0 <= k < |us| ==> IsTeletextUnit(us[k])
    ensures |Packets(us)| == |us|
    ensures forall k :: 0 <= k < |us| ==> Packets(us)[k] == DataUnit(us[k].id, Reversed(us[k].data))
  {
    if us != [] {
      PacketsOfTeletextUnits(us[1..]);
      assert Packets(us) == [DataUnit(us[0].id, Reversed(us[0].data))] + Packets(us[1..]);
    }
  }

  /**
   * A PES payload made of an EBU data_identifier and Teletext data units
   * yields one packet per unit, in order, its bits reversed.
   */
  lemma PesRoundTrip(dataId: byte, us: seq<DataUnit>)
    requires FirstEbuDataId <= dataId <= LastEbuDataId
    requires forall k :: 0 <= k < |us| ==> |us[k].data| == PacketSize && IsTeletextUnit(us[k])
    ensures |TeletextPackets([dataId] + EncodeUnits(us))| == |us|
    ensures forall k :: 0 <= k < |us| ==>
              TeletextPackets([dataId] + EncodeUnits(us))[k] == DataUnit(us[k].id, Reversed(us[k].data))
  {
    var pl := [dataId] + EncodeUnits(us);
    assert pl[1..] == EncodeUnits(us) + [];
    DataUnitsRoundTrip(us, []);
    assert us + DataUnits([]) == us;
    PacketsOfTeletextUnits(us);
  }

  /** The packets the walk finds from an offset on; none past the end. */
  ghost function PacketsFrom(payload: seq<byte>, pos: nat): seq<DataUnit>
  {
    if pos <= |payload| then Packets(DataUnits(payload[pos..])) else []
  }

  /** The packet the unit at an offset contributes, if it fits in the payload. */
  ghost function StepPackets(payload: seq<byte>, pos: nat): seq<DataUnit>
    requires pos + 2 <= |payload|
  {
    var n := payload[pos + 1];
    if n <= |payload| - pos - 2 then UnitPackets(DataUnit(payload[pos], payload[pos + 2..pos + 2 + n])) else []
  }

  /**
   * One step of the walk: the unit at an offset, then the walk after it; a
   * unit that overruns the payload ends the walk.
   */
  lemma WalkStep(payload: seq<byte>, pos: nat)
    requires pos + 2 <= |payload|
    ensures PacketsFrom(payload, pos) == StepPackets(payload, pos) + PacketsFrom(payload, pos + 2 + payload[pos + 1])
  {
    var n := payload[pos + 1];
    DataUnitsAt(payload, pos);
    if n <= |payload| - pos - 2 {
      PacketsCons(DataUnit(payload[pos], payload[pos + 2..pos + 2 + n]), DataUnits(payload[pos + 2 + n..]));
    }
  }

  /** The data units from an offset: the unit there, if it fits, then those after it. */
  lemma DataUnitsAt(payload: seq<byte>, pos: nat)
    requires pos + 2 <= |payload|
    ensures var n := payload[pos + 1];
      DataUnits(payload[pos..]) ==
        if n <= |payload| - pos - 2
        then [DataUnit(payload[pos], payload[pos + 2..pos + 2 + n])] + DataUnits(payload[pos + 2 + n..])
        else []
  {
    var pl := payload[pos..];
    var n := payload[pos + 1];
    assert pl[0] == payload[pos] && pl[1] == n && |pl| == |payload| - pos;
    if n <= |payload| - pos - 2 {
      assert pl[2..2 + n] == payload[pos + 2..pos + 2 + n];
      assert pl[2 + n..] == payload[pos + 2 + n..];
      DataUnitsFirst(pl);
    } else {
      DataUnitsOverrun(pl);
    }
  }

  /** A unit that fits is the first of the data units. */
  lemma DataUnitsFirst(pl: seq<byte>)
    requires 2 <= |pl| && pl[1] <= |pl| - 2
    ensures DataUnits(pl) == [DataUnit(pl[0], pl[2..2 + pl[1]])] + DataUnits(pl[2 + pl[1]..])
  {
  }

  /** A unit that overruns the payload ends the data units. */
  lemma DataUnitsOverrun(pl: seq<byte>)
    requires 2 <= |pl| && pl[1] > |pl| - 2
    ensures DataUnits(pl) == []
  {
  }

  /** The packets of a unit followed by more units. */
  lemma PacketsCons(u: DataUnit, us: seq<DataUnit>)
    ensures Packets([u] + us) == UnitPackets(u) + Packets(us)
  {
    assert ([u] + us)[1..] == us;
  }

  /** What the step contributes, in the terms of the loop of handlePesPacket. */
  lemma StepPacketsFilter(payload: seq<byte>, pos: nat)
    requires pos + 2 <= |payload|
    ensures var id, n := payload[pos], payload[pos + 1];
            StepPackets(payload, pos) ==
              if n <= |payload| - pos - 2 && n == PacketSize && (id == NonSubtitleUnit || id == SubtitleUnit)
              then [DataUnit(id, Reversed(payload[pos + 2..pos + 2 + n]))]
              else []
  {
  }

  /** The invariant of the walk survives one step. */
  lemma WalkInvariant(payload: seq<byte>, pos: nat, next: nat, before: seq<DataUnit>, packets: seq<DataUnit>, total: seq<DataUnit>)
    requires pos + 2 <= |payload| && next == pos + 2 + payload[pos + 1]
    requires before + PacketsFrom(payload, pos) == total
    requires packets == before + StepPackets(payload, pos)
    ensures packets + PacketsFrom(payload, next) == total
  {
    WalkStep(payload, pos);
    AppendAssoc(before, StepPackets(payload, pos), PacketsFrom(payload, pos + 2 + payload[pos + 1]));
  }

  /** The walk ends with fewer than two bytes left. */
  lemma WalkEnd(payload: seq<byte>, pos: nat, packets: seq<DataUnit>)
    requires |payload| < pos + 2
    ensures packets + PacketsFrom(payload, pos) == packets
  {
  }

  /** The walk starts after the data_identifier. */
  lemma WalkFromStart(payload: seq<byte>)
    requires |payload| >= 1 && FirstEbuDataId <= payload[0] <= LastEbuDataId
    ensures TeletextPackets(payload) == PacketsFrom(payload, 1)
  {
  }

  /**
   * The loop of handlePesPacket over the data units after the
   * data_identifier: the Teletext packets found, in order, their bits
   * reversed.
   */
  method WalkDataUnits(payload: seq<byte>) returns (packets: seq<DataUnit>)
    requires |payload| >= 1
    ensures packets == PacketsFrom(payload, 1)
  {
    packets := [];
    var pos := 1;
    var size := |payload| - 1;
    AppendEmpty(PacketsFrom(payload, pos));
    while size >= 2
      invariant 1 <= pos && pos + size == |payload|
      invariant packets + PacketsFrom(payload, pos) == PacketsFrom(payload, 1)
      decreases size
    {
      ghost var before := packets;
      ghost var start := pos;
      StepPacketsFilter(payload, pos);
      var unitId := payload[pos];
      var unitSize := payload[pos + 1];
      size := size - 2;
      pos := pos + 2;
      if unitSize <= size && unitSize == PacketSize && (unitId == NonSubtitleUnit || unitId == SubtitleUnit) {
        var pkt := ReverseBytes(payload[pos..pos + unitSize]);
        packets := packets + [DataUnit(unitId, pkt[..])];
      }
      size := size - unitSize;
      pos := pos + unitSize;
      WalkInvariant(payload, start, pos, before, packets, PacketsFrom(payload, 1));
    }
    WalkEnd(payload, pos, packets);
  }

  lemma AppendEmpty(a: seq<DataUnit>)
    ensures [] + a == a
  {
  }

  // ---------------------------------------------------------------------
  // The demux
  // ---------------------------------------------------------------------

  /**
   * The state of QtsTeletextDemux that the frame counters live in: per PID
   * seen, the frame count (a quint32) of each page, by BCD page number.
   */
  class TeletextDemux {
    var pids: map<int, map<int, nat>>

    ghost predicate Valid()
      reads this
    {
      forall pid, page :: pid in pids && page in pids[pid] ==> pids[pid][page] < Two32
    }

    constructor()
      ensures Valid() && pids == map[]
    {
      pids := map[];
    }

    /**
     * handlePesPacket: create the context of the PID if needed, then walk the
     * data units of a PES payload and return the Teletext packets found, in
     * order, each with its bits reversed.
     */
    method HandlePesPacket(pid: int, payload: seq<byte>) returns (packets: seq<DataUnit>)
      requires Valid()
      modifies this
      ensures Valid()
      ensures pids == if pid in old(pids) then old(pids) else old(pids)[pid := map[]]
      ensures packets == TeletextPackets(payload)
    {
      if pid !in pids {
        pids := pids[pid := map[]];
      }
      packets := [];
      if |payload| < 1 || payload[0] < FirstEbuDataId || payload[0] > LastEbuDataId {
        return;
      }
      packets := WalkDataUnits(payload);
      WalkFromStart(payload);
    }

    /**
     * The frame counting of processTeletextPage: the page gets an entry of
     * its PID's context, and a page with text counts one more frame, modulo
     * 2^32; the count of the frame is returned.
     */
    method CountFrame(pid: int, page: int, pageIsEmpty: bool) returns (frame: nat)
      requires Valid() && pid in pids
      modifies this
      ensures Valid()
      ensures var before := if page in old(pids)[pid] then old(pids)[pid][page] else 0;
              var pages: map<int, nat> := old(pids)[pid][page := frame];
              frame == (if pageIsEmpty then before else (before + 1) % Two32)
              && pids == old(pids)[pid := pages]
    {
      var pages: map<int, nat> := pids[pid];
      if page !in pages {
        pages := pages[page := 0];
      }
      frame := pages[page];
      if !pageIsEmpty {
        frame := U32(frame + 1);
        pages := pages[page := frame];
      }
      assert pages == old(pids)[pid][page := frame];
      pids := pids[pid := pages];
    }

    /**
     * frameCount: the frames of a page (in binary) on one PID, or with the
     * null PID on the first PID, by increasing value, with frames in it; 0
     * when there are none. The quint32 count is returned as an int.
     */
    method FrameCount(page: int, pid: int) returns (count: int)
      requires Valid() && 0 <= page
      ensures var bcd := PageBinaryToBcd(page);
              && (pid != Sections.NullPid ==> count == if pid in pids && bcd in pids[pid] then I32(pids[pid][bcd]) else 0)
              && (pid == Sections.NullPid ==> (count == 0 <==> forall p :: p in pids ==> !Counted(pids, bcd, p)))
              && (pid == Sections.NullPid && count != 0 ==> exists p :: FirstCounted(pids, bcd, p) && count == I32(pids[p][bcd]))
    {
      var bcd := PageBinaryToBcd(page);
      if pid != Sections.NullPid {
        if pid in pids {
          var pages := pids[pid];
          return if bcd in pages then I32(pages[bcd]) else 0;
        }
      } else {
        var all := pids;
        var rest := all.Keys;
        while rest != {}
          invariant rest <= all.Keys
          invariant forall q :: q in all && q !in rest ==> !Counted(all, bcd, q) && forall r :: r in rest ==> q < r
          decreases |rest|
        {
          var p := Least(rest);
          if bcd in all[p] && all[p][bcd] > 0 {
            NonZeroI32(all[p][bcd]);
            assert FirstCounted(all, bcd, p);
            return I32(all[p][bcd]);
          }
          rest := rest - {p};
        }
      }
      return 0;
    }
  }

  /** The page has frames on that PID. */
  ghost predicate Counted(pids: map<int, map<int, nat>>, bcd: int, p: int)
  {
    p in pids && bcd in pids[p] && pids[p][bcd] > 0
  }

  /** p is the least PID on which the page has frames. */
  ghost predicate FirstCounted(pids: map<int, map<int, nat>>, bcd: int, p: int)
  {
    Counted(pids, bcd, p) && forall q :: q in pids && q < p ==> !Counted(pids, bcd, q)
  }

  /** A positive quint32 stays non-zero as an int. */
  lemma NonZeroI32(x: int)
    requires 0 < x < Two32
    ensures I32(x) != 0
  {
  }

  /** The least of a non-empty finite set of PIDs, as QMap iterates them first. */
  method Least(s: set<int>) returns (m: int)
    requires s != {}
    ensures m in s && forall x :: x in s ==> m <= x
  {
    HasMember(s);
    m :| m in s;
    var rest := s - {m};
    while rest != {}
      invariant rest <= s && m in s
      invariant forall x :: x in s && x !in rest ==> m <= x
      decreases |rest|
    {
      HasMember(rest);
      var y :| y in rest;
      if y < m {
        m := y;
      }
      rest := rest - {y};
    }
  }

  lemma HasMember(s: set<int>)
    requires s != {}
    ensures exists x :: x in s
  {
    assert (forall x :: x !in s) ==> s == {};
  }
}
