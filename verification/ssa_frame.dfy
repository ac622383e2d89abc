/**
 * QtlSubStationAlphaFrame: one "Dialogue" line of an SSA/ASS subtitle
 * script, split along the fields of the "Format" line of its section, with
 * its start and end timestamps in milliseconds and the lines of its text.
 */
module SubStationAlphaFrame {
  import opened Bytes
  import opened Strings
  import opened SubStationAlphaTime
  import opened Sequences

  // ---------------------------------------------------------------------
  // Splitting a definition along the format fields
  // ---------------------------------------------------------------------

  /** QString::indexOf(c, from): the first index at or after `from` holding `c`, or -1. */
  function IndexOf(s: string, c: char, from: nat): (r: int)
    requires from <= |s|
    ensures r == -1 || from <= r < |s|
    decreases |s| - from
  {
    if from == |s| then -1 else if s[from] == c then from else IndexOf(s, c, from + 1)
  }

  /** indexOf finds the first `c` from `from` on, if there is one. */
  lemma {:induction false} IndexOfFirst(s: string, c: char, from: nat)
    requires from <= |s|
    ensures var r := IndexOf(s, c, from);
            (r >= 0 ==> s[r] == c) &&
            forall i :: from <= i < (if r < 0 then |s| else r) ==> s[i] != c
    decreases |s| - from
  {
    if from < |s| && s[from] != c {
      IndexOfFirst(s, c, from + 1);
    }
  }

  /**
   * Where the field starting at `p` ends: at the next comma, or at the end
   * of the definition when there is none or when it is the last format field.
   */
  function FieldEnd(d: string, p: nat, last: bool): (e: nat)
    requires p <= |d|
    ensures p <= e <= |d|
    ensures e < |d| ==> !last
  {
    if last then |d|
    else
      var c := IndexOf(d, ',', p);
      if c < 0 then |d| else c
  }

  /** A field ends at a comma or at the end, and holds no comma unless it is the last. */
  lemma FieldEndComma(d: string, p: nat, last: bool)
    requires p <= |d|
    ensures var e := FieldEnd(d, p, last);
            (e < |d| ==> d[e] == ',') && (!last ==> forall i :: p <= i < e ==> d[i] != ',')
  {
    if !last {
      IndexOfFirst(d, ',', p);
    }
  }

  /**
   * The raw fields of the definition from position `p`, for the format
   * fields i..n-1: each field runs to the next comma, except the one of the
   * last format field which takes the rest of the definition; no field is
   * made once the definition is exhausted.
   */
  function Pieces(d: string, p: nat, n: nat, i: nat): (r: seq<string>)
    requires i <= n
    ensures |r| <= n - i
    decreases n - i
  {
    if i == n || p > |d| then []
    else
      var e := FieldEnd(d, p, i == n - 1);
      [d[p..e]] + Pieces(d, e + 1, n, i + 1)
  }

  /** The fields put back together, separated by commas. */
  function Join(pieces: seq<string>): string
  {
    if |pieces| == 0 then ""
    else if |pieces| == 1 then pieces[0]
    else pieces[0] + "," + Join(pieces[1..])
  }

  function Commas(s: string): nat
  {
    multiset(s)[',']
  }

  function Min(a: int, b: int): int
  {
    if a <= b then a else b
  }

  lemma CommaFreeSlice(d: string, p: nat, e: nat)
    requires p <= e <= |d|
    requires forall i :: p <= i < e ==> d[i] != ','
    ensures ',' !in d[p..e] && Commas(d[p..e]) == 0
  {
  }

  /** Cutting a string at a comma splits its commas between the two sides, plus one. */
  lemma CommasAround(d: string, p: nat, e: nat)
    requires p <= e < |d| && d[e] == ','
    ensures Commas(d[p..]) == Commas(d[p..e]) + 1 + Commas(d[e + 1..])
  {
    assert d[p..] == d[p..e] + [d[e]] + d[e + 1..];
  }

  lemma PiecesUnfold(d: string, p: nat, n: nat, i: nat)
    requires p <= |d| && i < n
    ensures Pieces(d, p, n, i) == [d[p..FieldEnd(d, p, i == n - 1)]] + Pieces(d, FieldEnd(d, p, i == n - 1) + 1, n, i + 1)
  {
  }

  /**
   * The split loses nothing: the fields joined by commas give back the
   * definition, the last format field taking the rest of it, commas included.
   */
  lemma {:induction false} PiecesJoin(d: string, p: nat, n: nat, i: nat)
    requires p <= |d| && i < n
    ensures Join(Pieces(d, p, n, i)) == d[p..]
    decreases n - i
  {
    var e := FieldEnd(d, p, i == n - 1);
    if e < |d| {
      PiecesJoin(d, e + 1, n, i + 1);
      JoinStep(d, p, n, i);
    } else {
      JoinLast(d, p, n, i);
    }
  }

  /** A field ended by a comma joins to the rest of the definition. */
  lemma JoinStep(d: string, p: nat, n: nat, i: nat)
    requires p <= |d| && i < n
    requires FieldEnd(d, p, i == n - 1) < |d|
    requires Join(Pieces(d, FieldEnd(d, p, i == n - 1) + 1, n, i + 1)) == d[FieldEnd(d, p, i == n - 1) + 1..]
    ensures Join(Pieces(d, p, n, i)) == d[p..]
  {
    var e := FieldEnd(d, p, i == n - 1);
    var x := d[p..e];
    var rest := Pieces(d, e + 1, n, i + 1);
    PiecesUnfold(d, p, n, i);
    PiecesUnfold(d, e + 1, n, i + 1);
    JoinCons(x, rest);
    FieldEndComma(d, p, i == n - 1);
    SliceAtComma(d, p, e);
  }

  /** A field running to the end of the definition is the last one. */
  lemma JoinLast(d: string, p: nat, n: nat, i: nat)
    requires p <= |d| && i < n
    requires FieldEnd(d, p, i == n - 1) == |d|
    ensures Join(Pieces(d, p, n, i)) == d[p..]
  {
    var e := FieldEnd(d, p, i == n - 1);
    var x := d[p..e];
    var rest := Pieces(d, e + 1, n, i + 1);
    PiecesUnfold(d, p, n, i);
    assert rest == [] && [x] + rest == [x];
  }

  lemma JoinCons(x: string, rest: seq<string>)
    requires |rest| >= 1
    ensures Join([x] + rest) == x + "," + Join(rest)
  {
    assert ([x] + rest)[1..] == rest;
  }

  lemma SliceAtComma(d: string, p: nat, e: nat)
    requires p <= e < |d| && d[e] == ','
    ensures d[p..] == d[p..e] + "," + d[e + 1..]
  {
  }

  /**
   * There is one field per comma plus one, up to the number of format
   * fields, and every field but the last format field's is free of commas.
   */
  lemma {:induction false} PiecesShape(d: string, p: nat, n: nat, i: nat)
    requires p <= |d| && i < n
    ensures |Pieces(d, p, n, i)| == Min(n - i, Commas(d[p..]) + 1)
    ensures forall j :: 0 <= j < |Pieces(d, p, n, i)| && i + j < n - 1 ==> ',' !in Pieces(d, p, n, i)[j]
    decreases n - i
  {
    var e := FieldEnd(d, p, i == n - 1);
    if i == n - 1 {
      LastPieceShape(d, p, n, i);
    } else if e < |d| {
      PiecesShape(d, e + 1, n, i + 1);
      InnerPieceShape(d, p, n, i, e, Pieces(d, e + 1, n, i + 1));
    } else {
      FinalPieceShape(d, p, n, i);
    }
  }

  /** The last format field takes the rest of the line, commas included. */
  lemma LastPieceShape(d: string, p: nat, n: nat, i: nat)
    requires p <= |d| && i == n - 1
    ensures |Pieces(d, p, n, i)| == Min(n - i, Commas(d[p..]) + 1)
    ensures forall j :: 0 <= j < |Pieces(d, p, n, i)| && i + j < n - 1 ==> ',' !in Pieces(d, p, n, i)[j]
  {
    PiecesUnfold(d, p, n, i);
    var e := FieldEnd(d, p, true);
    assert Pieces(d, e + 1, n, i + 1) == [];
    ConsLength(Pieces(d, p, n, i), d[p..e], [], Min(n - i, Commas(d[p..]) + 1));
  }

  /** A field ended by a comma, in front of the fields after it. */
  lemma InnerPieceShape(d: string, p: nat, n: nat, i: nat, e: nat, rest: seq<string>)
    requires p <= |d| && i < n - 1 && e == FieldEnd(d, p, false) && e < |d|
    requires rest == Pieces(d, e + 1, n, i + 1)
    requires |rest| == Min(n - (i + 1), Commas(d[e + 1..]) + 1)
    requires forall j :: 0 <= j < |rest| && i + 1 + j < n - 1 ==> ',' !in rest[j]
    ensures |Pieces(d, p, n, i)| == Min(n - i, Commas(d[p..]) + 1)
    ensures forall j :: 0 <= j < |Pieces(d, p, n, i)| && i + j < n - 1 ==> ',' !in Pieces(d, p, n, i)[j]
  {
    PiecesUnfold(d, p, n, i);
    FieldEndComma(d, p, false);
    CommaFreeSlice(d, p, e);
    CommasAround(d, p, e);
    MinStep(n - i, Commas(d[e + 1..]) + 1);
    ConsLength(Pieces(d, p, n, i), d[p..e], rest, Min(n - i, Commas(d[p..]) + 1));
    ConsCommaFree(d[p..e], rest, i, n);
  }

  /** A field that runs to the end of the line without a comma is the last one. */
  lemma FinalPieceShape(d: string, p: nat, n: nat, i: nat)
    requires p <= |d| && i < n - 1 && FieldEnd(d, p, false) >= |d|
    ensures |Pieces(d, p, n, i)| == Min(n - i, Commas(d[p..]) + 1)
    ensures forall j :: 0 <= j < |Pieces(d, p, n, i)| && i + j < n - 1 ==> ',' !in Pieces(d, p, n, i)[j]
  {
    var e := FieldEnd(d, p, false);
    PiecesUnfold(d, p, n, i);
    FieldEndComma(d, p, false);
    CommaFreeSlice(d, p, e);
    assert Pieces(d, e + 1, n, i + 1) == [];
    assert d[p..] == d[p..e];
    ConsLength(Pieces(d, p, n, i), d[p..e], [], Min(n - i, Commas(d[p..]) + 1));
  }

  lemma MinStep(a: int, b: int)
    requires a >= 2
    ensures 1 + Min(a - 1, b) == Min(a, b + 1)
  {
  }

  /** A comma-free field in front of the rest keeps every field before the last format field free of commas. */
  lemma ConsCommaFree(x: string, rest: seq<string>, i: nat, n: nat)
    requires ',' !in x
    requires forall j :: 0 <= j < |rest| && i + 1 + j < n - 1 ==> ',' !in rest[j]
    ensures forall j :: 0 <= j < |[x] + rest| && i + j < n - 1 ==> ',' !in ([x] + rest)[j]
  {
    forall j | 0 < j < |[x] + rest| && i + j < n - 1
      ensures ',' !in ([x] + rest)[j]
    {
      assert ([x] + rest)[j] == rest[j - 1];
    }
  }

  /** QString::simplified: trimmed, and every run of white space inside made one space. */
  function Squeeze(s: string, afterSpace: bool): (r: string)
    ensures |r| <= |s|
  {
    if |s| == 0 then ""
    else if IsSpace(s[0]) then (if afterSpace then "" else " ") + Squeeze(s[1..], true)
    else [s[0]] + Squeeze(s[1..], false)
  }

  /** QtlSubStationAlphaParser::normalized: lower case and simplified. */
  function Normalized(name: string): string
  {
    ToLower(Squeeze(Trim(name), false))
  }

  // ---------------------------------------------------------------------
  // The frame
  // ---------------------------------------------------------------------

  /**
   * A frame: its text, its style when the style field names a known one,
   * its start and end in milliseconds, and every field by format name.
   */
  datatype Frame<S> = Frame(text: string, style: Option<S>, start: nat, end: nat, info: map<string, string>)

  function EmptyFrame<S>(): Frame<S>
  {
    Frame("", None, 0, 0, map[])
  }

  /** Storing one field: recorded by name, and the known fields interpreted. */
  function Apply<S>(f: Frame<S>, fieldType: string, value: string, styles: map<string, S>): (r: Frame<S>)
    ensures r.info == f.info[fieldType := value]
  {
    var g := f.(info := f.info[fieldType := value]);
    if fieldType == "style" then
      (var key := Normalized(value); if key in styles then g.(style := Some(styles[key])) else g)
    else if fieldType == "text" then g.(text := value)
    else if fieldType == "start" then g.(start := ToTimestamp(value))
    else if fieldType == "end" then g.(end := ToTimestamp(value))
    else g
  }

  /**
   * The frame after the fields from position `p` on are stored, field `i`
   * of the format first, each trimmed: a field runs to the next comma,
   * the last format field to the end of the definition, and no field is
   * stored once the definition is exhausted.
   */
  function Rest<S>(f: Frame<S>, d: string, p: nat, format: seq<string>, i: nat, styles: map<string, S>): Frame<S>
    requires i <= |format|
    decreases |format| - i
  {
    if i == |format| || p > |d| then f
    else
      var e := FieldEnd(d, p, i == |format| - 1);
      Rest(Apply(f, format[i], Trim(d[p..e]), styles), d, e + 1, format, i + 1, styles)
  }

  /** The frame a definition makes under a format. */
  function FrameOf<S>(definition: string, format: seq<string>, styles: map<string, S>): Frame<S>
  {
    Rest(EmptyFrame(), definition, 0, format, 0, styles)
  }

  /** One field stored by the constructor loop: recorded, then filtered by its name. */
  method StoreField<S(==)>(f0: Frame<S>, fieldType: string, value: string, styles: map<string, S>) returns (f: Frame<S>)
    ensures f == Apply(f0, fieldType, value, styles)
  {
    f := f0.(info := f0.info[fieldType := value]);
    if fieldType == "style" {
      var key := Normalized(value);
      if key in styles {
        f := f.(style := Some(styles[key]));
      }
    } else if fieldType == "text" {
      f := f.(text := value);
    } else if fieldType == "start" {
      f := f.(start := ToTimestamp(value));
    } else if fieldType == "end" {
      f := f.(end := ToTimestamp(value));
    }
  }

  /**
   * The constructor of QtlSubStationAlphaFrame: the definition is cut
   * after the format fields, the last one taking the rest of the line.
   */
  method ParseDefinition<S(==)>(definition: string, format: seq<string>, styles: map<string, S>) returns (f: Frame<S>)
    ensures f == FrameOf(definition, format, styles)
  {
    f := EmptyFrame();
    var previousComma := -1;
    var i := 0;
    while previousComma < |definition| && i < |format|
      invariant -1 <= previousComma <= |definition| && 0 <= i <= |format|
      invariant Rest(f, definition, previousComma + 1, format, i, styles) == FrameOf(definition, format, styles)
      decreases |format| - i
    {
      var nextComma := IndexOf(definition, ',', previousComma + 1);
      if nextComma < 0 || i == |format| - 1 {
        nextComma := |definition|;
      }
      var value := Trim(definition[previousComma + 1..nextComma]);
      f := StoreField(f, format[i], value, styles);
      previousComma := nextComma;
      i := i + 1;
    }
  }

  /** The names of the n format fields from i. */
  function Names(format: seq<string>, i: nat, n: nat): set<string>
    requires i + n <= |format|
  {
    set j | i <= j < i + n :: format[j]
  }

  /** The names of n + 1 format fields from i are the name at i and those after it. */
  lemma NamesStep(format: seq<string>, i: nat, n: nat, m: nat)
    requires n == m + 1 && i + n <= |format|
    ensures Names(format, i, n) == {format[i]} + Names(format, i + 1, m)
  {
  }

  lemma UnionStep(before: set<string>, after: set<string>, name: string, later: set<string>)
    requires after == before + {name}
    ensures after + later == before + ({name} + later)
  {
  }

  /** Every field stored is recorded in the info map under its format name, and nothing else. */
  lemma {:induction false} RestKeys<S>(f: Frame<S>, d: string, p: nat, format: seq<string>, i: nat, styles: map<string, S>)
    requires i <= |format|
    ensures Rest(f, d, p, format, i, styles).info.Keys == f.info.Keys + Names(format, i, |Pieces(d, p, |format|, i)|)
    decreases |format| - i
  {
    if i == |format| || p > |d| {
      assert Names(format, i, 0) == {};
    } else {
      var e := FieldEnd(d, p, i == |format| - 1);
      RestKeys(Apply(f, format[i], Trim(d[p..e]), styles), d, e + 1, format, i + 1, styles);
      KeysStep(f, d, p, format, i, styles);
    }
  }

  lemma RestUnfold<S>(f: Frame<S>, d: string, p: nat, format: seq<string>, i: nat, styles: map<string, S>)
    requires i < |format| && p <= |d|
    ensures var e := FieldEnd(d, p, i == |format| - 1);
            Rest(f, d, p, format, i, styles) == Rest(Apply(f, format[i], Trim(d[p..e]), styles), d, e + 1, format, i + 1, styles)
  {
  }

  lemma PiecesCount(d: string, p: nat, n: nat, i: nat)
    requires p <= |d| && i < n
    ensures |Pieces(d, p, n, i)| == |Pieces(d, FieldEnd(d, p, i == n - 1) + 1, n, i + 1)| + 1
  {
    PiecesUnfold(d, p, n, i);
  }

  /** Storing one more field adds its format name to the keys. */
  lemma KeysStep<S>(f: Frame<S>, d: string, p: nat, format: seq<string>, i: nat, styles: map<string, S>)
    requires i < |format| && p <= |d|
    requires var e := FieldEnd(d, p, i == |format| - 1);
             var g := Apply(f, format[i], Trim(d[p..e]), styles);
             Rest(g, d, e + 1, format, i + 1, styles).info.Keys == g.info.Keys + Names(format, i + 1, |Pieces(d, e + 1, |format|, i + 1)|)
    ensures Rest(f, d, p, format, i, styles).info.Keys == f.info.Keys + Names(format, i, |Pieces(d, p, |format|, i)|)
  {
    var e := FieldEnd(d, p, i == |format| - 1);
    var g := Apply(f, format[i], Trim(d[p..e]), styles);
    var m := |Pieces(d, e + 1, |format|, i + 1)|;
    RestUnfold(f, d, p, format, i, styles);
    PiecesCount(d, p, |format|, i);
    NamesStep(format, i, |Pieces(d, p, |format|, i)|, m);
    UnionStep(f.info.Keys, g.info.Keys, format[i], Names(format, i + 1, m));
  }

  /**
   * When every format field gets a field, the last format name holds the
   * last field, trimmed; so does the text when the text comes last.
   */
  lemma {:induction false} RestLast<S>(f: Frame<S>, d: string, p: nat, format: seq<string>, i: nat, styles: map<string, S>)
    requires i < |format| && p <= |d|
    requires |Pieces(d, p, |format|, i)| == |format| - i
    ensures var last := Trim(Pieces(d, p, |format|, i)[|format| - i - 1]);
            var r := Rest(f, d, p, format, i, styles);
            format[|format| - 1] in r.info && r.info[format[|format| - 1]] == last &&
            (format[|format| - 1] == "text" ==> r.text == last)
    decreases |format| - i
  {
    var e := FieldEnd(d, p, i == |format| - 1);
    var g := Apply(f, format[i], Trim(d[p..e]), styles);
    PiecesUnfold(d, p, |format|, i);
    if i < |format| - 1 {
      RestLast(g, d, e + 1, format, i + 1, styles);
    }
  }

  /**
   * When the text is the last format field and the definition has a comma
   * for every other field, the fields joined by commas are the definition,
   * none but the last holds a comma, and the text is that last field,
   * trimmed.
   */
  lemma TextTakesRest<S>(definition: string, format: seq<string>, styles: map<string, S>)
    requires |format| >= 1 && format[|format| - 1] == "text"
    requires Commas(definition) >= |format| - 1
    ensures var pieces := Pieces(definition, 0, |format|, 0);
            |pieces| == |format| && Join(pieces) == definition &&
            (forall j :: 0 <= j < |format| - 1 ==> ',' !in pieces[j]) &&
            FrameOf(definition, format, styles).text == Trim(pieces[|format| - 1])
  {
    assert definition[0..] == definition;
    PiecesJoin(definition, 0, |format|, 0);
    PiecesShape(definition, 0, |format|, 0);
    RestLast(EmptyFrame(), definition, 0, format, 0, styles);
  }

  /** The info map of a frame holds the names of the format fields that got a field, and no other. */
  lemma FrameInfoKeys<S>(definition: string, format: seq<string>, styles: map<string, S>)
    ensures FrameOf(definition, format, styles).info.Keys == Names(format, 0, |Pieces(definition, 0, |format|, 0)|)
  {
    RestKeys(EmptyFrame(), definition, 0, format, 0, styles);
  }
}
