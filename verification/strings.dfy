/**
 * The few QString and QFileInfo operations the model relies on: trimming,
 * ASCII case conversion and the suffix and base name of a file path.
 */
module Strings {
  import opened Bytes

  /**
   * QChar::isSpace: the ASCII blanks U+0009..U+000D and U+0020, NEL (U+0085),
   * and the Unicode separators (categories Zs, Zl and Zp).
   */
  predicate IsSpace(c: char)
  {
    ('\t' <= c <= '\r') || c == ' ' || c == '\U{85}' || c == '\U{A0}' || c == '\U{1680}'
    || ('\U{2000}' <= c <= '\U{200A}') || c == '\U{2028}' || c == '\U{2029}' || c == '\U{202F}'
    || c == '\U{205F}' || c == '\U{3000}'
  }

  function TrimStart(s: string): string
  {
    if |s| > 0 && IsSpace(s[0]) then TrimStart(s[1..]) else s
  }

  function TrimEnd(s: string): string
  {
    if |s| > 0 && IsSpace(s[|s| - 1]) then TrimEnd(s[..|s| - 1]) else s
  }

  /** QString::trimmed: leading and trailing white space removed. */
  function Trim(s: string): string
  {
    TrimEnd(TrimStart(s))
  }

  predicate IsTrimmed(s: string)
  {
    |s| == 0 || (!IsSpace(s[0]) && !IsSpace(s[|s| - 1]))
  }

  lemma {:induction false} TrimStartShape(s: string)
    ensures |TrimStart(s)| <= |s|
    ensures |TrimStart(s)| == 0 || !IsSpace(TrimStart(s)[0])
    ensures TrimStart(s) == s[|s| - |TrimStart(s)|..]
  {
    if |s| > 0 && IsSpace(s[0]) {
      TrimStartShape(s[1..]);
    }
  }

  lemma {:induction false} TrimEndShape(s: string)
    ensures |TrimEnd(s)| <= |s|
    ensures |TrimEnd(s)| == 0 || !IsSpace(TrimEnd(s)[|TrimEnd(s)| - 1])
    ensures TrimEnd(s) == s[..|TrimEnd(s)|]
    ensures |s| > 0 && !IsSpace(s[0]) ==> |TrimEnd(s)| > 0
  {
    if |s| > 0 && IsSpace(s[|s| - 1]) {
      TrimEndShape(s[..|s| - 1]);
    }
  }

  /** A trimmed string starts and ends with something else than white space. */
  lemma TrimIsTrimmed(s: string)
    ensures IsTrimmed(Trim(s))
  {
    var t := TrimStart(s);
    TrimStartShape(s);
    TrimEndShape(t);
    if |TrimEnd(t)| > 0 {
      assert TrimEnd(t)[0] == t[0];
    }
  }

  lemma TrimOfTrimmed(s: string)
    ensures IsTrimmed(s) ==> Trim(s) == s
  {
  }

  function LowerChar(c: char): char
  {
    if 'A' <= c <= 'Z' then (c as int - 'A' as int + 'a' as int) as char else c
  }

  /** QString::toLower on ASCII letters. */
  function ToLower(s: string): (r: string)
    ensures |r| == |s| && forall i :: 0 <= i < |s| ==> r[i] == LowerChar(s[i])
  {
    seq(|s|, i requires 0 <= i < |s| => LowerChar(s[i]))
  }

  predicate IsLower(s: string)
  {
    forall i :: 0 <= i < |s| ==> !('A' <= s[i] <= 'Z')
  }

  function UpperChar(c: char): char
  {
    if 'a' <= c <= 'z' then (c as int - 'a' as int + 'A' as int) as char else c
  }

  /** QString::toUpper on ASCII letters. */
  function ToUpper(s: string): (r: string)
    ensures |r| == |s| && forall i :: 0 <= i < |s| ==> r[i] == UpperChar(s[i])
  {
    seq(|s|, i requires 0 <= i < |s| => UpperChar(s[i]))
  }

  predicate IsDigit(c: char)
  {
    '0' <= c <= '9'
  }

  predicate EndsWith(s: string, t: string)
  {
    |t| <= |s| && s[|s| - |t|..] == t
  }

  /** The characters after the last `c` of `s`, or all of `s` without one. */
  function AfterLast(s: string, c: char): (r: string)
    ensures |r| <= |s| && r == s[|s| - |r|..]
    ensures HasChar(s, c) ==> |r| < |s| && s[|s| - |r| - 1] == c
  {
    if |s| == 0 then ""
    else if s[|s| - 1] == c then ""
    else AfterLast(s[..|s| - 1], c) + [s[|s| - 1]]
  }

  function HasChar(s: string, c: char): bool
  {
    exists i :: 0 <= i < |s| && s[i] == c
  }

  /** QFileInfo::suffix: what follows the last dot of the file name, if any. */
  function Suffix(path: string): string
  {
    var name := FileName(path);
    if HasChar(name, '.') then AfterLast(name, '.') else ""
  }

  /** The file name of a path: what follows the last directory separator. */
  function FileName(path: string): string
  {
    AfterLast(path, '/')
  }

  /** QFileInfo::completeBaseName: the file name up to its last dot, all of it without a dot. */
  function CompleteBaseName(path: string): string
  {
    var name := FileName(path);
    if HasChar(name, '.') then name[..|name| - |AfterLast(name, '.')| - 1] else name
  }

  lemma {:induction false} AfterLastOfAppend(s: string, t: string, c: char)
    requires !HasChar(t, c)
    ensures AfterLast(s + [c] + t, c) == t
    decreases |t|
  {
    if |t| == 0 {
      assert s + [c] + t == s + [c];
    } else {
      var init, last := t[..|t| - 1], t[|t| - 1];
      assert last != c;
      assert !HasChar(init, c) by {
        forall i | 0 <= i < |init|
          ensures init[i] != c
        {
          assert init[i] == t[i];
        }
      }
      AfterLastOfAppend(s, init, c);
      assert s + [c] + t == (s + [c] + init) + [last];
      AfterLastSnoc(s + [c] + init, last, c);
      assert t == init + [last];
    }
  }

  /** A last character other than `c` is part of what follows the last `c`. */
  lemma AfterLastSnoc(s: string, x: char, c: char)
    requires x != c
    ensures AfterLast(s + [x], c) == AfterLast(s, c) + [x]
  {
    assert (s + [x])[..|s|] == s;
  }

  lemma {:induction false} AfterLastNoChar(s: string, c: char)
    requires !HasChar(s, c)
    ensures AfterLast(s, c) == s
  {
    if |s| > 0 {
      assert !HasChar(s[..|s| - 1], c);
      AfterLastNoChar(s[..|s| - 1], c);
      assert s == s[..|s| - 1] + [s[|s| - 1]];
    }
  }

  lemma NoCharInDotted(name: string, tail: string, c: char)
    requires c != '.' && !HasChar(name, c) && !HasChar(tail, c)
    ensures !HasChar(name + ['.'] + tail, c)
  {
    var path := name + ['.'] + tail;
    forall i | 0 <= i < |path| ensures path[i] != c {
      if i < |name| {
        assert path[i] == name[i];
      } else if i > |name| {
        assert path[i] == tail[i - |name| - 1];
      }
    }
  }

  /** The suffix of `name.tail`, where the name holds no directory separator and the tail no dot. */
  lemma SuffixOfDotted(name: string, tail: string)
    requires !HasChar(name, '/') && !HasChar(tail, '/') && !HasChar(tail, '.')
    ensures FileName(name + ['.'] + tail) == name + ['.'] + tail
    ensures Suffix(name + ['.'] + tail) == tail
  {
    var path := name + ['.'] + tail;
    NoCharInDotted(name, tail, '/');
    AfterLastNoChar(path, '/');
    assert FileName(path) == path;
    assert path[|name|] == '.';
    assert HasChar(path, '.');
    assert Suffix(path) == AfterLast(path, '.');
    AfterLastOfAppend(name, tail, '.');
  }

  /** The complete base name of `name.tail` is `name`. */
  lemma CompleteBaseNameOfDotted(name: string, tail: string)
    requires !HasChar(name, '/') && !HasChar(tail, '/') && !HasChar(tail, '.')
    ensures CompleteBaseName(name + ['.'] + tail) == name
  {
    SuffixOfDotted(name, tail);
    var path := name + ['.'] + tail;
    assert FileName(path) == path;
    assert HasChar(path, '.') by {
      assert path[|name|] == '.';
    }
  }

  // ---------------------------------------------------------------------
  // Integers in decimal text (qtlToInt and QString::number)
  // ---------------------------------------------------------------------

  const IntMin: int := -0x8000_0000
  const IntMax: int := 0x7FFF_FFFF

  predicate AllDigits(s: string)
  {
    forall i :: 0 <= i < |s| ==> IsDigit(s[i])
  }

  /** The value of a string of decimal digits, most significant first. */
  function DigitsValue(s: string): nat
    requires AllDigits(s)
  {
    if |s| == 0 then 0 else 10 * DigitsValue(s[..|s| - 1]) + (s[|s| - 1] as int - '0' as int)
  }

  function DigitChar(d: int): char
    requires 0 <= d < 10
  {
    ('0' as int + d) as char
  }

  /** The decimal digits of `n`, without leading zero ("0" for zero). */
  function DecimalText(n: nat): (r: string)
    ensures |r| >= 1 && AllDigits(r)
    ensures n >= 10 ==> |r| >= 2
    ensures n >= 100 ==> |r| >= 3
    ensures n < 10 ==> |r| == 1
    ensures n < 100 ==> |r| <= 2
  {
    if n < 10 then [DigitChar(n)] else DecimalText(n / 10) + [DigitChar(n % 10)]
  }

  /** Reading back the digits of `n` gives `n`. */
  lemma {:induction false} DecimalTextValue(n: nat)
    ensures DigitsValue(DecimalText(n)) == n
  {
    if n >= 10 {
      DecimalTextValue(n / 10);
      var r := DecimalText(n);
      assert r[..|r| - 1] == DecimalText(n / 10);
    }
  }

  /** QString::number(n): the decimal text of an integer, with a minus sign when negative. */
  function NumberText(n: int): (r: string)
    ensures |r| >= 1
  {
    if n < 0 then "-" + DecimalText(-n) else DecimalText(n)
  }

  /** What qtlToInt removes before converting: white space and underscores. */
  function RemoveBlanks(s: string): (r: string)
    ensures |r| <= |s|
  {
    if |s| == 0 then []
    else (if IsSpace(s[0]) || s[0] == '_' then [] else [s[0]]) + RemoveBlanks(s[1..])
  }

  /** A string without white space or underscore is left as it is. */
  lemma {:induction false} RemoveBlanksNone(s: string)
    requires forall i :: 0 <= i < |s| ==> !IsSpace(s[i]) && s[i] != '_'
    ensures RemoveBlanks(s) == s
  {
    if |s| > 0 {
      RemoveBlanksNone(s[1..]);
      assert s == [s[0]] + s[1..];
    }
  }

  /**
   * QString::toInt in base 10: an optional sign followed by at least one
   * digit, with a value in the range of a 32-bit int; None otherwise.
   */
  function ToInt(s: string): (r: Option<int>)
    ensures r.Some? ==> IntMin <= r.value <= IntMax
    ensures r.Some? && |s| > 0 && IsDigit(s[0]) ==> r.value >= 0
  {
    var signed := |s| > 0 && (s[0] == '-' || s[0] == '+');
    var digits := if signed then s[1..] else s;
    if |digits| == 0 || !AllDigits(digits) then None
    else
      var v: int := if |s| > 0 && s[0] == '-' then 0 - (DigitsValue(digits) as int) else DigitsValue(digits);
      if IntMin <= v <= IntMax then Some(v) else None
  }

  /**
   * qtlToInt(str, def, min, max): white space and underscores removed, the
   * rest converted in base 10; `def` when the conversion fails or the value
   * lies outside min..max.
   */
  function QtlToInt(str: string, def: int, min: int, max: int): (r: int)
    ensures r == def || min <= r <= max
  {
    match ToInt(RemoveBlanks(str))
    case Some(v) => if min <= v <= max then v else def
    case None => def
  }

  /** qtlToInt(s, -1, 0): the non-negative int a field holds, or -1. */
  function FieldValue(s: string): (r: int)
    ensures r == -1 || 0 <= r <= IntMax
  {
    QtlToInt(s, -1, 0, IntMax)
  }

  /** Each value up to the int maximum reads back from its digits. */
  lemma DecimalFieldValue(n: nat)
    requires n <= IntMax
    ensures FieldValue(DecimalText(n)) == n
  {
    NumberTextToInt(n, -1, 0, IntMax);
    assert NumberText(n) == DecimalText(n);
  }

  /** The text of an integer holds neither white space nor underscores. */
  lemma NumberTextHasNoBlanks(n: int)
    ensures RemoveBlanks(NumberText(n)) == NumberText(n)
  {
    var t := NumberText(n);
    var d := DecimalText(if n < 0 then -n else n);
    forall i | 0 <= i < |t|
      ensures !IsSpace(t[i]) && t[i] != '_'
    {
      if n < 0 && i > 0 {
        assert t[i] == d[i - 1];
      }
    }
    RemoveBlanksNone(t);
  }

  /** The text of any 32-bit int within min..max converts back to it. */
  lemma NumberTextToInt(n: int, def: int, min: int, max: int)
    requires IntMin <= n <= IntMax && min <= n <= max
    ensures QtlToInt(NumberText(n), def, min, max) == n
  {
    NumberTextHasNoBlanks(n);
    if n < 0 {
      NegativeTextToInt(-n);
    } else {
      DecimalTextToInt(n);
    }
  }

  /** The digits of a non-negative int convert back to it. */
  lemma DecimalTextToInt(m: nat)
    requires m <= IntMax
    ensures ToInt(DecimalText(m)) == Some(m)
  {
    DecimalTextValue(m);
    var t := DecimalText(m);
    assert IsDigit(t[0]);
  }

  /** A minus sign and the digits of m convert back to -m, down to INT_MIN. */
  lemma NegativeTextToInt(m: int)
    requires 0 < m <= -IntMin
    ensures ToInt("-" + DecimalText(m)) == Some(-m)
  {
    DecimalTextValue(m);
    var t := "-" + DecimalText(m);
    assert t[0] == '-' && t[1..] == DecimalText(m);
  }
}
