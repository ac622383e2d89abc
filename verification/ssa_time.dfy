/**
 * QtlSubStationAlphaFrame::toTimestamp: an SSA/ASS timestamp in
 * milliseconds.
 */
module SubStationAlphaTime {
  import opened Bytes
  import opened Strings

  predicate IsTimeSeparator(c: char)
  {
    c == ':' || c == '.'
  }

  predicate NoTimeSeparator(s: string)
  {
    forall i :: 0 <= i < |s| ==> !IsTimeSeparator(s[i])
  }

  /** QString::split on ':' or '.', empty parts kept. */
  function TimeFields(s: string): (r: seq<string>)
    ensures |r| >= 1
  {
    if |s| == 0 then [""]
    else
      var rest := TimeFields(s[1..]);
      if IsTimeSeparator(s[0]) then [""] + rest else [[s[0]] + rest[0]] + rest[1..]
  }

  const MaxTimestamp: nat := IntMax * 3_661_010

  /**
   * toTimestamp: "H:MM:SS:hh" or "H:MM:SS.hh" in milliseconds; 0 unless
   * there are exactly four fields, each a non-negative decimal. The sum
   * cannot overflow the 64-bit result.
   */
  function ToTimestamp(value: string): (r: nat)
    ensures r <= MaxTimestamp < 0x1_0000_0000_0000_0000
  {
    var fields := TimeFields(value);
    if |fields| != 4 then 0
    else
      var h := FieldValue(fields[0]);
      var m := FieldValue(fields[1]);
      var s := FieldValue(fields[2]);
      var hh := FieldValue(fields[3]);
      if h < 0 || m < 0 || s < 0 || hh < 0 then 0
      else h * 3_600_000 + m * 60_000 + s * 1_000 + hh * 10
  }

  /** Fields without a separator stay whole. */
  lemma {:induction false} TimeFieldsWhole(a: string)
    requires NoTimeSeparator(a)
    ensures TimeFields(a) == [a]
  {
    if |a| > 0 {
      TimeFieldsWhole(a[1..]);
      assert [a[0]] + a[1..] == a;
    }
  }

  /** A separator after a field without one cuts exactly there. */
  lemma {:induction false} TimeFieldsCut(a: string, sep: char, t: string)
    requires NoTimeSeparator(a) && IsTimeSeparator(sep)
    ensures TimeFields(a + [sep] + t) == [a] + TimeFields(t)
  {
    if |a| == 0 {
      assert a + [sep] + t == [sep] + t;
      assert ([sep] + t)[1..] == t;
    } else {
      TimeFieldsCut(a[1..], sep, t);
      var s := a + [sep] + t;
      assert s[0] == a[0] && s[1..] == a[1..] + [sep] + t;
      assert [a[0]] + a[1..] == a;
    }
  }

  lemma DecimalNoSeparator(n: nat)
    ensures NoTimeSeparator(DecimalText(n))
  {
    var d := DecimalText(n);
    forall i | 0 <= i < |d|
      ensures !IsTimeSeparator(d[i])
    {
      assert IsDigit(d[i]);
    }
  }

  /** The timestamp text of the four fields, the hundredths after `sep`. */
  function TimestampText(h: nat, m: nat, s: nat, hh: nat, sep: char): string
  {
    DecimalText(h) + [':'] + (DecimalText(m) + [':'] + (DecimalText(s) + [sep] + DecimalText(hh)))
  }

  /**
   * Reading the text of four decimal fields, the last after ':' or '.',
   * gives hours, minutes, seconds and hundredths in milliseconds.
   */
  lemma TimestampRoundTrip(h: nat, m: nat, s: nat, hh: nat, sep: char)
    requires h <= IntMax && m <= IntMax && s <= IntMax && hh <= IntMax
    requires IsTimeSeparator(sep)
    ensures ToTimestamp(TimestampText(h, m, s, hh, sep)) == h * 3_600_000 + m * 60_000 + s * 1_000 + hh * 10
  {
    TimestampFields(h, m, s, hh, sep);
    DecimalFieldValue(h);
    DecimalFieldValue(m);
    DecimalFieldValue(s);
    DecimalFieldValue(hh);
  }

  /** Four fields without separators, joined by separators, split back into themselves. */
  lemma FourFields(a: string, b: string, c: string, d: string, sep: char)
    requires NoTimeSeparator(a) && NoTimeSeparator(b) && NoTimeSeparator(c) && NoTimeSeparator(d)
    requires IsTimeSeparator(sep)
    ensures TimeFields(a + [':'] + (b + [':'] + (c + [sep] + d))) == [a, b, c, d]
  {
    TimeFieldsWhole(d);
    TimeFieldsCut(c, sep, d);
    TimeFieldsCut(b, ':', c + [sep] + d);
    TimeFieldsCut(a, ':', b + [':'] + (c + [sep] + d));
  }

  /** The timestamp text splits into the four decimal texts. */
  lemma TimestampFields(h: nat, m: nat, s: nat, hh: nat, sep: char)
    requires IsTimeSeparator(sep)
    ensures TimeFields(TimestampText(h, m, s, hh, sep)) == [DecimalText(h), DecimalText(m), DecimalText(s), DecimalText(hh)]
  {
    var dh, dm, ds, dhh := DecimalText(h), DecimalText(m), DecimalText(s), DecimalText(hh);
    DecimalNoSeparator(h);
    DecimalNoSeparator(m);
    DecimalNoSeparator(s);
    DecimalNoSeparator(hh);
    FourFields(dh, dm, ds, dhh, sep);
  }

  /** A non-zero timestamp comes from exactly four fields, all valid. */
  lemma TimestampNeedsFourFields(value: string)
    requires ToTimestamp(value) != 0
    ensures |TimeFields(value)| == 4
    ensures var f := TimeFields(value);
            FieldValue(f[0]) >= 0 && FieldValue(f[1]) >= 0 && FieldValue(f[2]) >= 0 && FieldValue(f[3]) >= 0
  {
  }
}
