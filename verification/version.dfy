/**
 * QtlVersion: a version number as a list of non-negative integers and an
 * optional beta (release candidate) index, built from integers or parsed
 * from a text such as "1.2.3" or "1.2-rc4", printed back and compared.
 */
module QtlVersion {
  import opened Sequences
  import opened Bytes
  import opened Strings

  // ---------------------------------------------------------------------
  // Text of a version
  // ---------------------------------------------------------------------

  predicate IsSeparator(c: char)
  {
    c == '-' || c == '.'
  }

  /** QChar::isLetter, on ASCII letters. */
  predicate IsLetter(c: char)
  {
    'a' <= c <= 'z' || 'A' <= c <= 'Z'
  }

  predicate NoSeparator(s: string)
  {
    forall i :: 0 <= i < |s| ==> !IsSeparator(s[i])
  }

  /**
   * The fields of a text split at every '-' or '.', empty fields skipped;
   * `cur` is the field read so far.
   */
  function FieldsFrom(s: string, cur: string): (r: seq<string>)
    decreases |s|
  {
    if |s| == 0 then (if |cur| == 0 then [] else [cur])
    else if IsSeparator(s[0]) then (if |cur| == 0 then [] else [cur]) + FieldsFrom(s[1..], "")
    else FieldsFrom(s[1..], cur + [s[0]])
  }

  /** split(QRegExp("[-\\.]"), QString::SkipEmptyParts). */
  function Fields(s: string): seq<string>
  {
    FieldsFrom(s, "")
  }

  /** The fields are never empty and never hold a separator. */
  lemma {:induction false} FieldsShape(s: string, cur: string)
    requires NoSeparator(cur)
    ensures forall k :: 0 <= k < |FieldsFrom(s, cur)| ==> |FieldsFrom(s, cur)[k]| > 0 && NoSeparator(FieldsFrom(s, cur)[k])
    decreases |s|
  {
    if |s| > 0 {
      if IsSeparator(s[0]) {
        FieldsShape(s[1..], "");
      } else {
        FieldsShape(s[1..], cur + [s[0]]);
      }
    }
  }

  /** s.remove(QRegExp("^\\D*")): the leading non-digits removed. */
  function DropNonDigits(s: string): (r: string)
    ensures |r| == 0 || IsDigit(r[0])
  {
    if |s| > 0 && !IsDigit(s[0]) then DropNonDigits(s[1..]) else s
  }

  /** The outcome of setText: the integer fields, the beta index and the kept text. */
  datatype Parsed = Parsed(values: seq<int>, beta: int, text: string)

  const Cleared := Parsed([], -1, "")

  /** The last field names a beta when it starts with a letter. */
  predicate HasBetaField(fields: seq<string>)
  {
    |fields| > 0 && |fields[|fields| - 1]| > 0 && IsLetter(fields[|fields| - 1][0])
  }

  /** The beta index the last field gives, or -1 when there is no beta field. */
  function BetaOf(fields: seq<string>): (r: int)
    ensures -1 <= r <= IntMax
  {
    if HasBetaField(fields) then FieldValue(DropNonDigits(fields[|fields| - 1])) else -1
  }

  /** The fields that hold the integer values. */
  function NumberFields(fields: seq<string>): seq<string>
  {
    if HasBetaField(fields) then fields[..|fields| - 1] else fields
  }

  predicate AllNumbers(nums: seq<string>)
  {
    forall k :: 0 <= k < |nums| ==> FieldValue(nums[k]) >= 0
  }

  function ValuesOf(nums: seq<string>): seq<int>
  {
    seq(|nums|, k requires 0 <= k < |nums| => FieldValue(nums[k]))
  }

  /**
   * setText: the fields of the text, the last one giving the beta index
   * from its digits when it starts with a letter, the others each a
   * non-negative int; any field that is not clears the whole version.
   */
  function ParseText(text: string): (r: Parsed)
    ensures r == Cleared || r.text == text
    ensures forall i :: 0 <= i < |r.values| ==> 0 <= r.values[i] <= IntMax
    ensures -1 <= r.beta <= IntMax
  {
    var fields := Fields(text);
    if HasBetaField(fields) && BetaOf(fields) < 0 then Cleared
    else if !AllNumbers(NumberFields(fields)) then Cleared
    else Parsed(ValuesOf(NumberFields(fields)), BetaOf(fields), text)
  }

  /** The values joined by dots, as text() builds them. */
  function Dotted(values: seq<int>): string
    requires forall i :: 0 <= i < |values| ==> values[i] >= 0
  {
    if |values| == 0 then ""
    else if |values| == 1 then DecimalText(values[0])
    else DecimalText(values[0]) + "." + Dotted(values[1..])
  }

  /** text() without an original text: the dotted values, then "-rc" and the beta index if any. */
  function VersionText(values: seq<int>, beta: int): string
    requires forall i :: 0 <= i < |values| ==> values[i] >= 0
  {
    Dotted(values) + (if beta >= 0 then "-rc" + DecimalText(beta) else "")
  }

  // ---------------------------------------------------------------------
  // Order of versions
  // ---------------------------------------------------------------------

  /**
   * Two versions with the same values: a beta comes before the official
   * release, two betas (or two releases) compare their index.
   */
  predicate BetaLess(a: int, b: int)
  {
    if (a >= 0) == (b >= 0) then a < b else a >= 0
  }

  /**
   * The order of versions: the values compared lexicographically, a version
   * coming before any longer one with the same leading values, and equal
   * values ordered by their beta.
   */
  predicate VersionLess(a: seq<int>, aBeta: int, b: seq<int>, bBeta: int)
  {
    if |a| == 0 && |b| == 0 then BetaLess(aBeta, bBeta)
    else if |a| == 0 then true
    else if |b| == 0 then false
    else if a[0] != b[0] then a[0] < b[0]
    else VersionLess(a[1..], aBeta, b[1..], bBeta)
  }

  // ---------------------------------------------------------------------
  // The object
  // ---------------------------------------------------------------------

  class Version {
    var values: seq<int>
    var beta: int
    var text: string

    ghost predicate Valid()
      reads this
    {
      -1 <= beta <= IntMax && forall i :: 0 <= i < |values| ==> 0 <= values[i] <= IntMax
    }

    function State(): Parsed
      reads this
    {
      Parsed(values, beta, text)
    }

    /** QtlVersion(): an invalid version. */
    constructor()
      ensures Valid() && State() == Cleared
    {
      values, beta, text := [], -1, "";
    }

    method Clear()
      modifies this
      ensures Valid() && State() == Cleared
    {
      values, beta, text := [], -1, "";
    }

    /** isValid: there is at least one value. */
    predicate IsValid()
      reads this
    {
      |values| > 0
    }

    predicate IsBeta()
      reads this
    {
      beta >= 0
    }

    /**
     * setValues: the values, unless one is negative, in which case the
     * version is left cleared and invalid; a negative beta becomes -1. There
     * is no original text any more.
     */
    method SetValues(vs: seq<int>, b: int)
      requires forall i :: 0 <= i < |vs| ==> IntMin <= vs[i] <= IntMax
      requires IntMin <= b <= IntMax
      modifies this
      ensures Valid() && text == ""
      ensures (exists i :: 0 <= i < |vs| && vs[i] < 0) ==> State() == Cleared && !IsValid()
      ensures (forall i :: 0 <= i < |vs| ==> vs[i] >= 0) ==> values == vs && beta == (if b < 0 then -1 else b)
    {
      Clear();
      for i := 0 to |vs|
        invariant forall k :: 0 <= k < i ==> vs[k] >= 0
        invariant State() == Cleared
      {
        if vs[i] < 0 {
          return;
        }
      }
      values := vs;
      beta := if b < 0 then -1 else b;
    }

    /** setText: the version parsed from a text, which is kept unless the text is not a version. */
    method SetText(t: string)
      modifies this
      ensures Valid() && State() == ParseText(t)
    {
      Clear();
      text := t;
      var fields := Fields(t);
      if HasBetaField(fields) {
        var s := fields[|fields| - 1];
        fields := fields[..|fields| - 1];
        s := DropNonDigits(s);
        beta := FieldValue(s);
        if beta < 0 {
          Clear();
          return;
        }
      }
      assert fields == NumberFields(Fields(t)) && beta == BetaOf(Fields(t));
      var ok, vs := FieldValues(fields);
      if !ok {
        Clear();
        return;
      }
      values := vs;
    }

    /** text(): the original text if there is one, otherwise the dotted values and the beta suffix. */
    method Text() returns (r: string)
      requires Valid()
      ensures r == if text == "" then VersionText(values, beta) else text
    {
      if text != "" {
        return text;
      }
      r := "";
      for i := 0 to |values|
        invariant r == Dotted(values[..i])
      {
        if r != "" {
          r := r + ".";
        }
        r := r + DecimalText(values[i]);
        DottedStep(values, i);
      }
      assert values[..|values|] == values;
      if beta >= 0 {
        r := r + "-rc" + DecimalText(beta);
      }
    }

    /** operator==: the same values and the same beta index; the text does not matter. */
    predicate Equals(other: Version)
      reads this, other
    {
      values == other.values && beta == other.beta
    }

    /** operator<: this version comes before the other one. */
    method Less(other: Version) returns (r: bool)
      ensures r == VersionLess(values, beta, other.values, other.beta)
    {
      var a, b := values, other.values;
      for i := 0 to |a|
        invariant i <= |b| && a[..i] == b[..i]
        invariant VersionLess(a, beta, b, other.beta) == VersionLess(a[i..], beta, b[i..], other.beta)
      {
        if i >= |b| {
          return false;
        }
        if a[i] != b[i] {
          return a[i] < b[i];
        }
        LessDrop(a, beta, b, other.beta, i);
      }
      if |a| < |b| {
        return true;
      }
      assert a[|a|..] == [] && b[|a|..] == [];
      if (beta >= 0) == (other.beta >= 0) {
        return beta < other.beta;
      } else {
        return beta >= 0;
      }
    }
  }

  /** The integer values of the fields, failing at the first one that is not a non-negative int. */
  method FieldValues(nums: seq<string>) returns (ok: bool, vs: seq<int>)
    ensures ok == AllNumbers(nums)
    ensures ok ==> vs == ValuesOf(nums)
  {
    vs := [];
    for i := 0 to |nums|
      invariant vs == ValuesOf(nums[..i]) && AllNumbers(nums[..i])
    {
      var n := FieldValue(nums[i]);
      if n < 0 {
        return false, vs;
      }
      assert nums[..i + 1] == nums[..i] + [nums[i]];
      vs := vs + [n];
    }
    assert nums[..|nums|] == nums;
    ok := true;
  }

  /** One more value joined to the dotted text. */
  lemma DottedStep(values: seq<int>, i: nat)
    requires i < |values| && forall k :: 0 <= k < |values| ==> values[k] >= 0
    ensures Dotted(values[..i + 1]) == (if Dotted(values[..i]) != "" then Dotted(values[..i]) + "." else "") + DecimalText(values[i])
  {
    DottedSnoc(values[..i], values[i]);
    assert values[..i + 1] == values[..i] + [values[i]];
  }

  lemma {:induction false} DottedSnoc(vs: seq<int>, v: int)
    requires v >= 0 && forall k :: 0 <= k < |vs| ==> vs[k] >= 0
    ensures Dotted(vs + [v]) == (if Dotted(vs) != "" then Dotted(vs) + "." else "") + DecimalText(v)
    ensures |vs| > 0 ==> Dotted(vs) != ""
    decreases |vs|
  {
    if |vs| == 1 {
      assert vs + [v] == [vs[0], v];
      assert (vs + [v])[1..] == [v];
    } else if |vs| > 1 {
      DottedSnoc(vs[1..], v);
      assert (vs + [v])[1..] == vs[1..] + [v];
    }
  }

  /** Equal leading values can be skipped when comparing. */
  lemma LessDrop(a: seq<int>, aBeta: int, b: seq<int>, bBeta: int, i: nat)
    requires i < |a| && i < |b| && a[i] == b[i]
    ensures VersionLess(a[i..], aBeta, b[i..], bBeta) == VersionLess(a[i + 1..], aBeta, b[i + 1..], bBeta)
  {
    assert a[i..][1..] == a[i + 1..] && b[i..][1..] == b[i + 1..];
  }

  // ---------------------------------------------------------------------
  // Properties
  // ---------------------------------------------------------------------

  /** No version comes before itself. */
  lemma {:induction false} LessIrreflexive(a: seq<int>, beta: int)
    ensures !VersionLess(a, beta, a, beta)
  {
    if |a| > 0 {
      LessIrreflexive(a[1..], beta);
    }
  }

  /** Two versions are never each before the other. */
  lemma {:induction false} LessAsymmetric(a: seq<int>, aBeta: int, b: seq<int>, bBeta: int)
    ensures VersionLess(a, aBeta, b, bBeta) ==> !VersionLess(b, bBeta, a, aBeta)
  {
    if |a| > 0 && |b| > 0 && a[0] == b[0] {
      LessAsymmetric(a[1..], aBeta, b[1..], bBeta);
    }
  }

  /** Two versions that are not equal are ordered one way or the other. */
  lemma {:induction false} LessTotal(a: seq<int>, aBeta: int, b: seq<int>, bBeta: int)
    ensures (a == b && aBeta == bBeta) || VersionLess(a, aBeta, b, bBeta) || VersionLess(b, bBeta, a, aBeta)
  {
    if |a| > 0 && |b| > 0 && a[0] == b[0] {
      LessTotal(a[1..], aBeta, b[1..], bBeta);
      if a[1..] == b[1..] {
        assert a == [a[0]] + a[1..] && b == [b[0]] + b[1..];
      }
    }
  }

  /** The order is transitive. */
  lemma {:induction false} LessTransitive(a: seq<int>, aBeta: int, b: seq<int>, bBeta: int, c: seq<int>, cBeta: int)
    requires VersionLess(a, aBeta, b, bBeta) && VersionLess(b, bBeta, c, cBeta)
    ensures VersionLess(a, aBeta, c, cBeta)
  {
    if |a| > 0 && |b| > 0 && |c| > 0 && a[0] == b[0] && b[0] == c[0] {
      LessTransitive(a[1..], aBeta, b[1..], bBeta, c[1..], cBeta);
    }
  }

  /** A version comes before any longer one that starts with its values, whatever the betas. */
  lemma {:induction false} PrefixLess(a: seq<int>, aBeta: int, b: seq<int>, bBeta: int)
    requires |a| < |b| && a == b[..|a|]
    ensures VersionLess(a, aBeta, b, bBeta) && !VersionLess(b, bBeta, a, aBeta)
  {
    if |a| > 0 {
      assert a[1..] == b[1..][..|a| - 1];
      PrefixLess(a[1..], aBeta, b[1..], bBeta);
    }
  }

  /** With the same values, a beta comes before the official release. */
  lemma {:induction false} BetaBeforeRelease(a: seq<int>, beta: int)
    requires beta >= 0
    ensures VersionLess(a, beta, a, -1) && !VersionLess(a, -1, a, beta)
  {
    if |a| > 0 {
      BetaBeforeRelease(a[1..], beta);
    }
  }

  // ---------------------------------------------------------------------
  // Printing then parsing a version gives it back
  // ---------------------------------------------------------------------

  /** Characters without a separator go into the current field. */
  lemma {:induction false} FieldsFromChunk(a: string, rest: string, cur: string)
    requires NoSeparator(a)
    ensures FieldsFrom(a + rest, cur) == FieldsFrom(rest, cur + a)
    decreases |a|
  {
    if |a| > 0 {
      assert (a + rest)[0] == a[0] && (a + rest)[1..] == a[1..] + rest;
      FieldsFromChunk(a[1..], rest, cur + [a[0]]);
      assert cur + [a[0]] + a[1..] == cur + a;
    } else {
      assert a + rest == rest && cur + a == cur;
    }
  }

  lemma DecimalTextNoSeparator(n: nat)
    ensures NoSeparator(DecimalText(n)) && !IsLetter(DecimalText(n)[0])
  {
  }

  /** A separator, or the end of the text, closes the current field. */
  lemma FieldBreak(tail: string, cur: string)
    requires |cur| > 0 && (|tail| == 0 || IsSeparator(tail[0]))
    ensures FieldsFrom(tail, cur) == [cur] + FieldsFrom(tail, "")
  {
    if |tail| > 0 {
      assert FieldsFrom(tail, "") == [] + FieldsFrom(tail[1..], "");
    }
  }

  /** The decimal texts of the values. */
  function Decimals(values: seq<int>): (r: seq<string>)
    requires forall i :: 0 <= i < |values| ==> values[i] >= 0
    ensures |r| == |values|
  {
    seq(|values|, k requires 0 <= k < |values| => DecimalText(values[k]))
  }

  /** A field of its own, followed by a tail that starts a new field. */
  lemma OneField(d: string, tail: string)
    requires |d| > 0 && NoSeparator(d) && (|tail| == 0 || IsSeparator(tail[0]))
    ensures FieldsFrom(d + tail, "") == [d] + FieldsFrom(tail, "")
  {
    FieldsFromChunk(d, tail, "");
    assert "" + d == d;
    FieldBreak(tail, d);
  }

  /** A leading separator with no field open adds no field. */
  lemma SkipSeparator(c: char, s: string)
    requires IsSeparator(c)
    ensures FieldsFrom([c] + s, "") == FieldsFrom(s, "")
  {
    assert ([c] + s)[0] == c && ([c] + s)[1..] == s;
  }

  /** The dotted text of two values or more, split after the first value. */
  lemma DottedCons(values: seq<int>, tail: string)
    requires |values| > 1 && forall i :: 0 <= i < |values| ==> values[i] >= 0
    ensures Dotted(values) + tail == DecimalText(values[0]) + (['.'] + (Dotted(values[1..]) + tail))
  {
    var a, b := DecimalText(values[0]), Dotted(values[1..]);
    assert Dotted(values) == (a + ['.']) + b;
    AppendAssoc(a + ['.'], b, tail);
    AppendAssoc(a, ['.'], b + tail);
  }

  /** The fields of dotted values then a tail that starts a new field. */
  lemma {:induction false} FieldsOfDotted(values: seq<int>, tail: string)
    requires forall i :: 0 <= i < |values| ==> values[i] >= 0
    requires |tail| == 0 || IsSeparator(tail[0])
    ensures FieldsFrom(Dotted(values) + tail, "") == Decimals(values) + FieldsFrom(tail, "")
    decreases |values|
  {
    if |values| == 0 {
      assert Dotted(values) + tail == tail;
      assert Decimals(values) + FieldsFrom(tail, "") == FieldsFrom(tail, "");
    } else {
      var d := DecimalText(values[0]);
      DecimalTextNoSeparator(values[0]);
      if |values| == 1 {
        assert Dotted(values) == d;
        OneField(d, tail);
        assert Decimals(values) == [d];
      } else {
        var more := Dotted(values[1..]) + tail;
        DottedCons(values, tail);
        OneField(d, ['.'] + more);
        SkipSeparator('.', more);
        FieldsOfDotted(values[1..], tail);
        assert Decimals(values) == [d] + Decimals(values[1..]);
        AppendAssoc([d], Decimals(values[1..]), FieldsFrom(tail, ""));
      }
    }
  }

  /** The beta suffix is one field. */
  lemma FieldsOfBeta(beta: nat)
    ensures FieldsFrom("-rc" + DecimalText(beta), "") == ["rc" + DecimalText(beta)]
  {
    var d := DecimalText(beta);
    DecimalTextNoSeparator(beta);
    var f := "rc" + d;
    assert NoSeparator(f) by {
      forall i | 0 <= i < |f|
        ensures !IsSeparator(f[i])
      {
        if i >= 2 {
          assert f[i] == d[i - 2];
        }
      }
    }
    OneField(f, "");
    assert f + "" == f;
    var s := "-rc" + d;
    assert s[0] == '-' && s[1..] == f;
    LeadingSeparator(s);
  }

  /** A separator with no field open yields no field. */
  lemma LeadingSeparator(s: string)
    requires |s| > 0 && IsSeparator(s[0])
    ensures FieldsFrom(s, "") == FieldsFrom(s[1..], "")
  {
  }

  /** The fields of the text of a version: its values, then its beta. */
  lemma FieldsOfVersion(values: seq<int>, beta: int)
    requires forall i :: 0 <= i < |values| ==> values[i] >= 0
    ensures Fields(VersionText(values, beta)) == Decimals(values) + (if beta >= 0 then ["rc" + DecimalText(beta)] else [])
  {
    if beta >= 0 {
      FieldsOfDotted(values, "-rc" + DecimalText(beta));
      FieldsOfBeta(beta);
    } else {
      FieldsOfDotted(values, "");
      assert Dotted(values) + "" == Dotted(values);
    }
  }

  /** The beta field reads back its index. */
  lemma BetaFieldValue(beta: nat)
    requires beta <= IntMax
    ensures DropNonDigits("rc" + DecimalText(beta)) == DecimalText(beta)
    ensures FieldValue(DropNonDigits("rc" + DecimalText(beta))) == beta
  {
    var d := DecimalText(beta);
    assert IsDigit(d[0]) && DropNonDigits(d) == d;
    assert ("c" + d)[0] == 'c' && ("c" + d)[1..] == d;
    assert ("rc" + d)[0] == 'r' && ("rc" + d)[1..] == "c" + d;
    DecimalFieldValue(beta);
  }

  /**
   * setText(text()) gives back the values and the beta index of a version
   * built with setValues.
   */
  lemma TextRoundTrip(values: seq<int>, beta: int)
    requires forall i :: 0 <= i < |values| ==> 0 <= values[i] <= IntMax
    requires -1 <= beta <= IntMax
    ensures ParseText(VersionText(values, beta)).values == values
    ensures ParseText(VersionText(values, beta)).beta == beta
  {
    var ds := Decimals(values);
    FieldsOfVersion(values, beta);
    var fields := Fields(VersionText(values, beta));
    forall k | 0 <= k < |values|
      ensures FieldValue(ds[k]) == values[k]
    {
      DecimalFieldValue(values[k]);
    }
    if beta >= 0 {
      BetaFieldValue(beta);
      assert fields[|fields| - 1] == "rc" + DecimalText(beta);
      assert HasBetaField(fields);
      assert NumberFields(fields) == ds;
      assert BetaOf(fields) == beta;
    } else {
      assert fields == ds;
      if |values| > 0 {
        DecimalTextNoSeparator(values[|values| - 1]);
      }
      assert !HasBetaField(fields);
      assert NumberFields(fields) == ds;
    }
    assert AllNumbers(ds);
    assert ValuesOf(ds) == values;
  }
}
