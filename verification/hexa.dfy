/**
 * Hexadecimal text: decoding a string of hexadecimal digits, blanks
 * ignored, into bytes, and the one-line hexadecimal dump of bytes.
 */
module Hexa {
  import opened Bytes
  import opened Strings

  type nibble = n: int | 0 <= n < 16

  /** The value of one hexadecimal digit, either case. */
  function Nibble(c: char): (r: Option<nibble>)
    ensures r.Some? <==> ('0' <= c <= '9' || 'A' <= c <= 'F' || 'a' <= c <= 'f')
  {
    if '0' <= c <= '9' then Some(c as int - '0' as int)
    else if 'A' <= c <= 'F' then Some(c as int - 'A' as int + 10)
    else if 'a' <= c <= 'f' then Some(c as int - 'a' as int + 10)
    else None
  }

  /** A character the decoder accepts: a blank or a hexadecimal digit. */
  predicate Accepted(c: char)
  {
    IsSpace(c) || Nibble(c).Some?
  }

  predicate AllAccepted(s: string)
  {
    forall i :: 0 <= i < |s| ==> Accepted(s[i])
  }

  /** The digits the decoder reads: blanks skipped, up to the first character it refuses. */
  function Nibbles(s: string): seq<nibble>
  {
    if |s| == 0 then []
    else if IsSpace(s[0]) then Nibbles(s[1..])
    else match Nibble(s[0])
      case None => []
      case Some(n) => [n] + Nibbles(s[1..])
  }

  /** The bytes of the complete digit pairs, high nibble first. */
  function Pairs(ns: seq<nibble>): (r: seq<byte>)
    ensures |r| == |ns| / 2
  {
    if |ns| < 2 then []
    else
      var b: byte := 16 * (ns[0] as int) + ns[1] as int;
      [b] + Pairs(ns[2..])
  }

  /**
   * qtlHexaDecodeAndAppend: the string read character by character, blanks
   * skipped, every second digit completing a byte appended to the result.
   * A refused character stops the decoding, keeping the bytes appended so
   * far; the outcome is true when every character was accepted and no digit
   * is left alone.
   */
  method DecodeAndAppend(result: seq<byte>, s: string) returns (ok: bool, bytes: seq<byte>)
    ensures bytes == result + Pairs(Nibbles(s))
    ensures ok <==> AllAccepted(s) && |Nibbles(s)| % 2 == 0
  {
    bytes := result;
    var gotFirstNibble := false;
    var hi: nibble := 0;
    for i := 0 to |s|
      invariant AllAccepted(s[..i])
      invariant gotFirstNibble <==> |Nibbles(s[..i])| % 2 == 1
      invariant gotFirstNibble ==> hi == Nibbles(s[..i])[|Nibbles(s[..i])| - 1]
      invariant bytes == result + Pairs(Nibbles(s[..i]))
    {
      var c := s[i];
      NibblesStep(s, i);
      if IsSpace(c) {
        continue;
      }
      var n := Nibble(c);
      if n.None? {
        NibblesStop(s[..i], s[i..]);
        assert s[..i] + s[i..] == s;
        return false, bytes;
      }
      var ns := Nibbles(s[..i]);
      if gotFirstNibble {
        CompletePair(ns, n.value);
        bytes := bytes + [16 * hi + n.value];
      } else {
        OpenPair(ns, n.value);
        hi := n.value;
      }
      gotFirstNibble := !gotFirstNibble;
    }
    assert s[..|s|] == s;
    ok := !gotFirstNibble;
  }

  /** qtlHexaDecode: the same, into an empty block. */
  method Decode(s: string) returns (ok: bool, bytes: seq<byte>)
    ensures bytes == Pairs(Nibbles(s))
    ensures ok <==> AllAccepted(s) && |Nibbles(s)| % 2 == 0
  {
    ok, bytes := DecodeAndAppend([], s);
  }

  // ---------------------------------------------------------------------
  // Facts about the digits read
  // ---------------------------------------------------------------------

  /** The digits of accepted text, then of what follows. */
  lemma {:induction false} NibblesAppend(p: string, q: string)
    requires AllAccepted(p)
    ensures Nibbles(p + q) == Nibbles(p) + Nibbles(q)
    decreases |p|
  {
    if |p| == 0 {
      assert p + q == q;
    } else {
      assert (p + q)[0] == p[0] && (p + q)[1..] == p[1..] + q;
      NibblesAppend(p[1..], q);
    }
  }

  /** A refused character hides everything after it. */
  lemma NibblesStop(p: string, q: string)
    requires AllAccepted(p) && |q| > 0 && !Accepted(q[0])
    ensures Nibbles(p + q) == Nibbles(p)
  {
    NibblesAppend(p, q);
    assert Nibbles(p) + [] == Nibbles(p);
  }

  /** One more accepted character: one more digit unless it is a blank. */
  lemma NibblesStep(s: string, i: nat)
    requires i < |s| && AllAccepted(s[..i])
    ensures Accepted(s[i]) ==> AllAccepted(s[..i + 1])
    ensures IsSpace(s[i]) ==> Nibbles(s[..i + 1]) == Nibbles(s[..i])
    ensures !IsSpace(s[i]) && Nibble(s[i]).Some? ==> Nibbles(s[..i + 1]) == Nibbles(s[..i]) + [Nibble(s[i]).value]
  {
    assert s[..i + 1] == s[..i] + [s[i]];
    NibblesAppend(s[..i], [s[i]]);
    assert [s[i]][1..] == [];
  }

  /** A trailing lone digit adds no byte. */
  lemma {:induction false} PairsOdd(ns: seq<nibble>)
    requires |ns| % 2 == 1
    ensures Pairs(ns) == Pairs(ns[..|ns| - 1])
    decreases |ns|
  {
    if |ns| > 1 {
      PairsOdd(ns[2..]);
      assert ns[2..][..|ns| - 3] == ns[..|ns| - 1][2..];
    }
  }

  /** Two more digits after complete pairs add their byte. */
  lemma {:induction false} PairsEven(ns: seq<nibble>, a: nibble, b: nibble)
    requires |ns| % 2 == 0
    ensures Pairs(ns + [a, b]) == Pairs(ns) + [16 * a + b]
    decreases |ns|
  {
    if |ns| == 0 {
      assert ns + [a, b] == [a, b];
    } else {
      assert (ns + [a, b])[2..] == ns[2..] + [a, b];
      PairsEven(ns[2..], a, b);
    }
  }

  /** A second digit completes the pending byte. */
  lemma CompletePair(ns: seq<nibble>, n: nibble)
    requires |ns| % 2 == 1
    ensures Pairs(ns + [n]) == Pairs(ns) + [16 * ns[|ns| - 1] + n]
  {
    var front, a := ns[..|ns| - 1], ns[|ns| - 1];
    assert front + [a, n] == ns + [n];
    PairsOdd(ns);
    PairsEven(front, a, n);
  }

  /** A first digit adds no byte yet. */
  lemma OpenPair(ns: seq<nibble>, n: nibble)
    requires |ns| % 2 == 0
    ensures Pairs(ns + [n]) == Pairs(ns)
  {
    PairsOdd(ns + [n]);
    assert (ns + [n])[..|ns|] == ns;
  }

  /**
   * A refused character ends the decoding: the bytes are those of the text
   * before it, whatever follows.
   */
  lemma RefusedKeepsDecoded(p: string, c: char, q: string)
    requires AllAccepted(p) && !Accepted(c)
    ensures Pairs(Nibbles(p + [c] + q)) == Pairs(Nibbles(p))
    ensures !AllAccepted(p + [c] + q)
  {
    assert p + [c] + q == p + ([c] + q);
    NibblesStop(p, [c] + q);
    assert (p + [c] + q)[|p|] == c;
  }

  /** Blanks anywhere do not change the digits read. */
  lemma BlanksIgnored(p: string, q: string)
    requires AllAccepted(p)
    ensures Nibbles(p + " " + q) == Nibbles(p + q)
  {
    assert p + " " + q == p + (" " + q);
    NibblesAppend(p, " " + q);
    NibblesAppend(p, q);
    assert (" " + q)[1..] == q;
  }

  // ---------------------------------------------------------------------
  // The one-line dump
  // ---------------------------------------------------------------------

  /** An upper-case hexadecimal digit. */
  function HexDigit(n: nibble): (r: char)
    ensures Nibble(r) == Some(n) && !IsSpace(r)
    ensures '0' <= r <= '9' || 'A' <= r <= 'F'
  {
    if n < 10 then ('0' as int + n) as char else ('A' as int + n - 10) as char
  }

  /** qtlHexaInt of a byte: two upper-case digits. */
  function ByteText(b: byte): (r: string)
    ensures |r| == 2 && Nibbles(r) == [b / 16, b % 16]
  {
    var r := [HexDigit(b / 16), HexDigit(b % 16)];
    assert r[1..] == [HexDigit(b % 16)] && r[1..][1..] == [];
    assert Nibbles(r[1..]) == [b % 16];
    r
  }

  /**
   * The text of byte number i of the one-line dump: a space before all
   * but the first unless compact, "0x" and "," around the digits in C style.
   */
  function Item(i: nat, b: byte, cStyle: bool, compact: bool): string
  {
    (if i > 0 && !compact then " " else "") + (if cStyle then "0x" else "") + ByteText(b) + (if cStyle then "," else "")
  }

  /** The one-line dump of the bytes, item after item. */
  function SingleLine(data: seq<byte>, cStyle: bool, compact: bool): string
  {
    if |data| == 0 then "" else SingleLine(data[..|data| - 1], cStyle, compact) + Item(|data| - 1, data[|data| - 1], cStyle, compact)
  }

  /**
   * qtlHexa with HexSingleLine or HexCompact: the whole dump on one line,
   * no line feed, the other layout flags ignored.
   */
  method HexaSingleLine(data: seq<byte>, cStyle: bool, compact: bool) returns (str: string)
    ensures str == SingleLine(data, cStyle, compact)
    ensures |str| == |data| * (if cStyle then 5 else 2) + (if compact || |data| == 0 then 0 else |data| - 1)
  {
    str := "";
    for i := 0 to |data|
      invariant str == SingleLine(data[..i], cStyle, compact)
    {
      var before := str;
      if i > 0 && !compact {
        str := str + " ";
      }
      if cStyle {
        str := str + "0x";
      }
      str := str + ByteText(data[i]);
      if cStyle {
        str := str + ",";
      }
      assert str == before + Item(i, data[i], cStyle, compact);
      SingleLineStep(data, i, cStyle, compact);
    }
    assert data[..|data|] == data;
    SingleLineLength(data, cStyle, compact);
  }

  lemma SingleLineStep(data: seq<byte>, i: nat, cStyle: bool, compact: bool)
    requires i < |data|
    ensures SingleLine(data[..i + 1], cStyle, compact) == SingleLine(data[..i], cStyle, compact) + Item(i, data[i], cStyle, compact)
  {
    assert data[..i + 1][..i] == data[..i];
  }

  lemma {:induction false} SingleLineLength(data: seq<byte>, cStyle: bool, compact: bool)
    ensures |SingleLine(data, cStyle, compact)| == |data| * (if cStyle then 5 else 2) + (if compact || |data| == 0 then 0 else |data| - 1)
    decreases |data|
  {
    if |data| > 0 {
      SingleLineLength(data[..|data| - 1], cStyle, compact);
    }
  }

  /** The digits of bytes, two per byte, high nibble first. */
  function ByteNibbles(data: seq<byte>): (r: seq<nibble>)
    ensures |r| == 2 * |data|
  {
    if |data| == 0 then [] else ByteNibbles(data[..|data| - 1]) + [data[|data| - 1] / 16, data[|data| - 1] % 16]
  }

  /** The plain dump holds only accepted characters and reads back the digits of the bytes. */
  lemma {:induction false} SingleLineNibbles(data: seq<byte>, compact: bool)
    ensures AllAccepted(SingleLine(data, false, compact))
    ensures Nibbles(SingleLine(data, false, compact)) == ByteNibbles(data)
    decreases |data|
  {
    if |data| > 0 {
      var front := data[..|data| - 1];
      var b := data[|data| - 1];
      SingleLineNibbles(front, compact);
      var item := Item(|data| - 1, b, false, compact);
      var sep := if |data| - 1 > 0 && !compact then " " else "";
      assert item == sep + ByteText(b);
      NibblesAppend(SingleLine(front, false, compact), item);
      if sep == " " {
        assert item[1..] == ByteText(b);
        assert Nibbles(item) == Nibbles(ByteText(b));
      } else {
        assert item == ByteText(b);
      }
      var whole := SingleLine(data, false, compact);
      forall k | 0 <= k < |whole|
        ensures Accepted(whole[k])
      {
        if k >= |SingleLine(front, false, compact)| {
          assert whole[k] == item[k - |SingleLine(front, false, compact)|];
        }
      }
    }
  }

  /** The digit pairs of bytes are the bytes. */
  lemma {:induction false} PairsOfByteNibbles(data: seq<byte>)
    ensures Pairs(ByteNibbles(data)) == data
    decreases |data|
  {
    if |data| > 0 {
      var front := data[..|data| - 1];
      var b := data[|data| - 1];
      PairsOfByteNibbles(front);
      PairsEven(ByteNibbles(front), b / 16, b % 16);
      assert front + [b] == data;
    }
  }

  /**
   * Decoding the one-line dump (plain or compact) gives the bytes back and
   * succeeds.
   */
  lemma DecodeSingleLine(data: seq<byte>, compact: bool)
    ensures Pairs(Nibbles(SingleLine(data, false, compact))) == data
    ensures AllAccepted(SingleLine(data, false, compact)) && |Nibbles(SingleLine(data, false, compact))| % 2 == 0
  {
    SingleLineNibbles(data, compact);
    PairsOfByteNibbles(data);
  }
}
