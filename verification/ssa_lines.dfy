/**
 * The last step of QtlSubStationAlphaFrame::toSubRip: the text of a frame
 * cut into lines at its line break codes.
 */
module SubStationAlphaLines {
  import opened Sequences

  /** A line break code "\n" or "\N" starts at i. */
  predicate BreakAt(t: string, i: int)
  {
    0 <= i && i + 1 < |t| && t[i] == '\\' && (t[i + 1] == 'n' || t[i + 1] == 'N')
  }

  predicate NoBreak(t: string)
  {
    forall i :: 0 <= i < |t| ==> !BreakAt(t, i)
  }

  /** toSubRip's final split: the text cut at every "\n" or "\N", empty lines kept. */
  function Lines(t: string): (r: seq<string>)
    ensures |r| >= 1
  {
    if |t| == 0 then [""]
    else if BreakAt(t, 0) then [""] + Lines(t[2..])
    else
      var rest := Lines(t[1..]);
      [[t[0]] + rest[0]] + rest[1..]
  }

  /** The lines put back with "\n" between them. */
  function JoinLines(lines: seq<string>): string
    requires |lines| >= 1
  {
    if |lines| == 1 then lines[0] else lines[0] + "\\n" + JoinLines(lines[1..])
  }

  /** No line holds a break code. */
  lemma {:induction false} LinesHaveNoBreak(t: string)
    ensures forall j :: 0 <= j < |Lines(t)| ==> NoBreak(Lines(t)[j])
  {
    if |t| > 0 {
      if BreakAt(t, 0) {
        LinesHaveNoBreak(t[2..]);
      } else {
        LinesHaveNoBreak(t[1..]);
        var rest := Lines(t[1..]);
        var first := [t[0]] + rest[0];
        forall i | 0 <= i < |first|
          ensures !BreakAt(first, i)
        {
          if i == 0 && |first| > 1 {
            assert first[1] == rest[0][0];
            LinesHead(t);
          } else if i > 0 {
            assert !BreakAt(rest[0], i - 1);
          }
        }
      }
    }
  }

  /** When no break starts a text, the first line starts with the same two characters. */
  lemma LinesHead(t: string)
    requires |t| > 0 && !BreakAt(t, 0) && |Lines(t[1..])[0]| > 0
    ensures t[0] != '\\' || (Lines(t[1..])[0][0] != 'n' && Lines(t[1..])[0][0] != 'N')
  {
    var u := t[1..];
    if |u| > 0 && !BreakAt(u, 0) {
      assert Lines(u)[0][0] == u[0];
    }
  }

  /** A text without break codes is a single line. */
  lemma {:induction false} LinesWhole(t: string)
    requires NoBreak(t)
    ensures Lines(t) == [t]
  {
    if |t| > 0 {
      assert !BreakAt(t, 0);
      assert NoBreak(t[1..]) by {
        forall i | 0 <= i < |t| - 1
          ensures !BreakAt(t[1..], i)
        {
          assert !BreakAt(t, i + 1);
        }
      }
      LinesWhole(t[1..]);
      assert [t[0]] + t[1..] == t;
    }
  }

  /** A break code appended after a text cuts exactly there. */
  lemma {:induction false} LinesCut(a: string, b: string)
    ensures Lines(a + "\\n" + b) == Lines(a) + Lines(b)
  {
    if |a| == 0 {
      CutEmpty(b);
      assert a + "\\n" + b == "\\n" + b;
    } else if BreakAt(a, 0) {
      LinesCut(a[2..], b);
      CutAfterBreak(a, b);
    } else {
      LinesCut(a[1..], b);
      CutAfterChar(a, b);
    }
  }

  lemma CutEmpty(b: string)
    ensures Lines("\\n" + b) == [""] + Lines(b)
  {
    var s := "\\n" + b;
    assert BreakAt(s, 0) && s[2..] == b;
  }

  lemma CutAfterBreak(a: string, b: string)
    requires BreakAt(a, 0)
    requires Lines(a[2..] + "\\n" + b) == Lines(a[2..]) + Lines(b)
    ensures Lines(a + "\\n" + b) == Lines(a) + Lines(b)
  {
    var s := a + "\\n" + b;
    assert BreakAt(s, 0) && s[2..] == a[2..] + "\\n" + b;
    LinesAtBreak(s);
    LinesAtBreak(a);
    AppendAssoc([""], Lines(a[2..]), Lines(b));
  }

  lemma CutAfterChar(a: string, b: string)
    requires |a| > 0 && !BreakAt(a, 0)
    requires Lines(a[1..] + "\\n" + b) == Lines(a[1..]) + Lines(b)
    ensures Lines(a + "\\n" + b) == Lines(a) + Lines(b)
  {
    var s := a + "\\n" + b;
    assert s[1..] == a[1..] + "\\n" + b;
    NoBreakBeforeCut(a, b);
    LinesAtChar(s);
    LinesAtChar(a);
    var l, y := Lines(a[1..]), Lines(b);
    HeadTailAppend(l, y);
    AppendAssoc([[a[0]] + l[0]], l[1..], y);
  }

  /** A text that does not start with a break code keeps not doing so with a break appended. */
  lemma NoBreakBeforeCut(a: string, b: string)
    requires |a| > 0 && !BreakAt(a, 0)
    ensures !BreakAt(a + "\\n" + b, 0) && (a + "\\n" + b)[0] == a[0]
  {
    var s := a + "\\n" + b;
    if |a| == 1 {
      assert s[1] == '\\';
    } else {
      assert s[1] == a[1];
    }
  }

  lemma LinesAtBreak(t: string)
    requires BreakAt(t, 0)
    ensures Lines(t) == [""] + Lines(t[2..])
  {
  }

  lemma LinesAtChar(t: string)
    requires |t| > 0 && !BreakAt(t, 0)
    ensures Lines(t) == [[t[0]] + Lines(t[1..])[0]] + Lines(t[1..])[1..]
  {
  }

  /** Lines without break codes joined with "\n" split back into the same lines. */
  lemma {:induction false} LinesRoundTrip(lines: seq<string>)
    requires |lines| >= 1
    requires forall j :: 0 <= j < |lines| ==> NoBreak(lines[j])
    ensures Lines(JoinLines(lines)) == lines
  {
    if |lines| == 1 {
      LinesWhole(lines[0]);
    } else {
      LinesRoundTrip(lines[1..]);
      LinesCut(lines[0], JoinLines(lines[1..]));
      LinesWhole(lines[0]);
      assert [lines[0]] + lines[1..] == lines;
    }
  }
}
