/**
 * The two coordinate-string parsers: `round_coordinate` (both copies) and
 * `clean_coordinates` (ingestion and reports).
 */
module Coordinates {
  import opened Wrappers
  import opened PyStr
  import opened PyFloat

  /** A grid cell: a pair of coordinates rounded to one decimal place, in tenths. */
  datatype Cell = Cell(lat: int, lon: int)

  /** What `round_coordinate` raises: a missing piece, or a piece `float()` rejects. */
  datatype CoordError = IndexError | ValueError

  /** The piece read as the latitude: reports/reports_in_python.py reads pieces 0 and 1. */
  const ReportsFirstToken: nat := 0

  /** main.py reads pieces 1 and 2, skipping the empty piece before a raw "POINT (x y)". */
  const MainFirstToken: nat := 1

  /** The pieces of `re.sub(r"[^0-9.\s]", "", coordinate).split(" ")`. */
  function Pieces(coordinate: string): seq<string> {
    SplitOn(KeepCoordinateChars(coordinate), ' ')
  }

  /**
   * `round_coordinate`: the pieces at `first` and `first + 1`, each through `float()`
   * and rounded to tenths; a missing piece is an IndexError, a non-number a ValueError,
   * checked in the order Python evaluates them. The minus sign is among the
   * characters removed, so every cell is non-negative.
   */
  function RoundCoordinate(coordinate: string, first: nat): (r: Result<Cell, CoordError>)
    ensures r.Ok? ==> r.value.lat >= 0 && r.value.lon >= 0
  {
    var pieces := Pieces(coordinate);
    assert '-' !in KeepCoordinateChars(coordinate);
    SplitOnExcludes(KeepCoordinateChars(coordinate), ' ', '-');
    if |pieces| <= first then Err(IndexError)
    else
      match ParseFloat(pieces[first])
      case None => Err(ValueError)
      case Some(lat) =>
        if |pieces| <= first + 1 then Err(IndexError)
        else
          match ParseFloat(pieces[first + 1])
          case None => Err(ValueError)
          case Some(lon) => Ok(Cell(RoundTenths(lat), RoundTenths(lon)))
  }

  /** Characters the regular expression removes never matter. */
  lemma RoundCoordinateIgnoresStripped(coordinate: string, first: nat)
    ensures RoundCoordinate(KeepCoordinateChars(coordinate), first) == RoundCoordinate(coordinate, first)
  {
    KeepIdempotent(coordinate);
  }

  /** `series.apply(round_coordinate)`: every row, or the error of the first row that fails. */
  function RoundColumn(coordinates: seq<string>, first: nat): (r: Result<seq<Cell>, CoordError>)
    ensures r.Ok? <==> forall i :: 0 <= i < |coordinates| ==> RoundCoordinate(coordinates[i], first).Ok?
    ensures r.Ok? ==> |r.value| == |coordinates|
    ensures r.Ok? ==>
      forall i :: 0 <= i < |coordinates| ==> RoundCoordinate(coordinates[i], first) == Ok(r.value[i])
    ensures r.Err? ==>
      exists i :: 0 <= i < |coordinates| && RoundCoordinate(coordinates[i], first) == Err(r.error) &&
        forall j :: 0 <= j < i ==> RoundCoordinate(coordinates[j], first).Ok?
  {
    Apply(coordinates, c => RoundCoordinate(c, first))
  }

  /**
   * `Series.apply` of a function that may raise: every result in order, or the
   * exception of the first element that raises.
   */
  function Apply<A, B, E>(xs: seq<A>, f: A -> Result<B, E>): (r: Result<seq<B>, E>)
    ensures r.Ok? <==> forall i :: 0 <= i < |xs| ==> f(xs[i]).Ok?
    ensures r.Ok? ==> |r.value| == |xs| && forall i :: 0 <= i < |xs| ==> f(xs[i]) == Ok(r.value[i])
    ensures r.Err? ==>
      exists i :: 0 <= i < |xs| && f(xs[i]) == Err(r.error) && forall j :: 0 <= j < i ==> f(xs[j]).Ok?
  {
    if xs == [] then Ok([])
    else
      var rest := xs[1..];
      assert forall i :: 1 <= i < |xs| ==> xs[i] == rest[i - 1];
      match f(xs[0])
      case Err(e) => Err(e)
      case Ok(y) =>
        match Apply(rest, f)
        case Err(e) =>
          ghost var k :| 0 <= k < |rest| && f(rest[k]) == Err(e) && forall j :: 0 <= j < k ==> f(rest[j]).Ok?;
          assert f(xs[k + 1]) == Err(e);
          Err(e)
        case Ok(ys) => Ok([y] + ys)
  }

  /** The text `clean_coordinates` emits: "POINT(lon lat)". */
  function PointText(lon: Decimal, lat: Decimal): string {
    "POINT(" + Render(lon) + " " + Render(lat) + ")"
  }

  /** The whitespace-separated words left once "POINT (" and every ")" are removed. */
  function CleanedWords(coord: string): seq<string> {
    SplitWhitespace(Replace(Replace(coord, "POINT (", ""), ")", ""))
  }

  /**
   * `clean_coordinates`: None for a missing value, for other than exactly two words,
   * or for a word `float()` rejects; otherwise the two numbers in "POINT(a b)" form,
   * which the reports reader reads back as the cell of their magnitudes and on
   * which main.py's reader raises IndexError.
   */
  function CleanCoordinates(coord: Option<string>): (r: Option<string>)
    ensures r.Some? <==>
      (coord.Some? && |CleanedWords(coord.value)| == 2 &&
       ParseFloat(CleanedWords(coord.value)[0]).Some? && ParseFloat(CleanedWords(coord.value)[1]).Some?)
    ensures r.Some? ==>
      exists lon, lat ::
        ParseFloat(CleanedWords(coord.value)[0]) == Some(lon) &&
        ParseFloat(CleanedWords(coord.value)[1]) == Some(lat) &&
        r.value == PointText(lon, lat) &&
        RoundCoordinate(r.value, ReportsFirstToken) == Ok(Cell(RoundTenths(Magnitude(lon)), RoundTenths(Magnitude(lat)))) &&
        RoundCoordinate(r.value, MainFirstToken) == Err(IndexError)
  {
    match coord
    case None => None
    case Some(s) =>
      var words := CleanedWords(s);
      if |words| != 2 then None
      else
        match (ParseFloat(words[0]), ParseFloat(words[1]))
        case (Some(lon), Some(lat)) =>
          ReportsReadsCleanedPoint(lon, lat);
          MainRejectsCleanedPoint(lon, lat);
          Some(PointText(lon, lat))
        case _ => None
  }

  lemma RenderNoSpace(d: Decimal)
    ensures Render(d) != [] && NoSpace(Render(d))
    ensures ' ' !in Render(d) && ')' !in Render(d) && 'P' !in Render(d)
  {
    RenderChars(d);
  }

  /** Removing "POINT (" from the front of a text that has no other 'P'. */
  lemma StripPrefix(inner: string)
    requires 'P' !in inner
    ensures Replace("POINT (" + inner, "POINT (", "") == inner
  {
    ReplaceFront("POINT (", inner, "");
    ReplaceAbsent(inner, "POINT (", "");
  }

  /** Removing the closing parenthesis of a text that has no other. */
  lemma StripClose(inner: string)
    requires ')' !in inner
    ensures Replace(inner + ")", ")", "") == inner
  {
    ReplaceCharAppend(inner, ")", ')', "");
    ReplaceAbsent(inner, ")", "");
    assert inner + [] == inner;
  }

  /** The words of a raw point whose numbers hold no space, 'P' or ')'. */
  lemma RawPointWords(a: string, gap: string, b: string)
    requires a != [] && NoSpace(a) && ')' !in a && 'P' !in a
    requires b != [] && NoSpace(b) && ')' !in b && 'P' !in b
    requires gap != [] && AllSpace(gap)
    ensures CleanedWords("POINT (" + a + gap + b + ")") == [a, b]
  {
    var inner := a + gap + b;
    assert ')' !in inner && 'P' !in inner by {
      assert forall i :: 0 <= i < |gap| ==> gap[i] != ')' && gap[i] != 'P';
    }
    assert "POINT (" + a + gap + b + ")" == "POINT (" + (inner + ")");
    StripPrefix(inner + ")");
    StripClose(inner);
    TwoWordsGap(a, gap, b);
  }

  /**
   * A raw "POINT (lon lat)" with any run of whitespace between the numbers comes
   * back as "POINT(lon lat)": same numbers, same order, a minus sign kept.
   */
  lemma CleanCoordinatesRoundTrip(lon: Decimal, lat: Decimal, gap: string)
    requires Normal(lon) && Normal(lat)
    requires gap != [] && AllSpace(gap)
    ensures CleanCoordinates(Some("POINT (" + Render(lon) + gap + Render(lat) + ")")) == Some(PointText(lon, lat))
  {
    RenderNoSpace(lon);
    RenderNoSpace(lat);
    RawPointWords(Render(lon), gap, Render(lat));
    ParseRender(lon);
    ParseRender(lat);
  }

  /** "POINT(" glued to a number is not a number. */
  lemma GluedWordNotNumber(a: string)
    requires a != [] && NoSpace(a) && IsDigit(a[|a| - 1])
    ensures ParseFloat("POINT(" + a) == None
  {
    var w := "POINT(" + a;
    assert w[|w| - 1] == a[|a| - 1];
    assert NoSpace(w);
    TrimUnchanged(w);
    assert LeadingDigits(w) == [];
  }

  /** The emitted prefix has no whitespace and no closing parenthesis. */
  lemma PointPrefixChars()
    ensures NoSpace("POINT(") && ')' !in "POINT("
  {
  }

  /** Without its space, "POINT(" is not the pattern, and nothing after it starts one. */
  lemma GluedPrefixKept(rest: string)
    requires 'P' !in rest
    ensures Replace("POINT(" + rest, "POINT (", "") == "POINT(" + rest
  {
    var s := "POINT(" + rest;
    if |s| >= 7 {
      assert s[..7] != "POINT (" by {
        assert s[..7][5] == '(';
      }
      assert 'P' !in s[1..] by {
        assert s[1..] == "OINT(" + rest;
        assert 'P' !in "OINT(";
      }
      ReplaceAbsent(s[1..], "POINT (", "");
      assert [s[0]] + s[1..] == s;
    }
  }

  /** The words of "POINT(a b)": the prefix stays glued to the first number. */
  lemma CleanPointWords(a: string, b: string)
    requires a != [] && NoSpace(a) && ')' !in a && 'P' !in a
    requires b != [] && NoSpace(b) && ')' !in b && 'P' !in b
    ensures CleanedWords("POINT(" + a + " " + b + ")") == ["POINT(" + a, b]
  {
    var w := "POINT(" + a;
    var t := w + " " + b;
    assert Replace(t + ")", "POINT (", "") == t + ")" by {
      var rest := a + " " + b + ")";
      Regroup("POINT(", a, " ", b, ")");
      NotInParts('P', a, " ", b, ")");
      GluedPrefixKept(rest);
    }
    assert ')' !in t by {
      PointPrefixChars();
      NotInParts(')', "POINT(", a, " ", b);
    }
    StripClose(t);
    assert NoSpace(w) by {
      PointPrefixChars();
      NoSpaceAppend("POINT(", a);
    }
    TwoWordsGap(w, " ", b);
  }

  /** Its own output is not accepted again: only "POINT (" with the space is removed. */
  lemma CleanCoordinatesNotIdempotent(lon: Decimal, lat: Decimal)
    ensures CleanCoordinates(Some(PointText(lon, lat))) == None
  {
    RenderNoSpace(lon);
    RenderNoSpace(lat);
    CleanPointWords(Render(lon), Render(lat));
    GluedWordNotNumber(Render(lon));
  }

  /** The regular expression leaves digits and points alone. */
  lemma KeepDecimal(m: string)
    requires DecimalChars(m)
    ensures KeepCoordinateChars(m) == m
  {
    assert forall c :: c in m ==> IsCoordinateChar(c) by {
      assert forall i :: 0 <= i < |m| ==> IsCoordinateChar(m[i]);
    }
    KeepUnchanged(m);
  }

  /** The regular expression removes the sign of a rendered number. */
  lemma KeepSigned(sign: string, m: string)
    requires sign == "-" || sign == ""
    requires DecimalChars(m)
    ensures KeepCoordinateChars(sign + m) == m
  {
    KeepDecimal(m);
    KeepDropFront(sign, m);
  }

  /** The regular expression keeps the digits and the point of a rendered number. */
  lemma KeepRender(d: Decimal)
    ensures KeepCoordinateChars(Render(d)) == Render(Magnitude(d))
  {
    RenderMagnitude(d);
    KeepSigned(if d.mantissa < 0 then "-" else "", Render(Magnitude(d)));
  }

  /** The regular expression on "a b" where only the space is known to be kept. */
  lemma KeepSpaced(a: string, b: string)
    ensures KeepCoordinateChars(a + " " + b) ==
      KeepCoordinateChars(a) + [' '] + KeepCoordinateChars(b)
  {
    assert a + " " + b == a + ([' '] + b);
    KeepAppend(a, [' '] + b);
    KeepFront(' ', b);
  }

  /** Splitting two space-free strings joined by one space. */
  lemma SplitTwo(x: string, y: string)
    requires ' ' !in x && ' ' !in y
    ensures SplitOn(x + [' '] + y, ' ') == [x, y]
  {
    SplitOnAppend(x, ' ', y);
    SplitOnAbsent(x, ' ');
    SplitOnAbsent(y, ' ');
  }

  /** The regular expression on "POINT(a b)": the wrapper goes, the space stays. */
  lemma KeepPointShape(a: string, b: string)
    ensures KeepCoordinateChars("POINT(" + a + " " + b + ")") ==
      KeepCoordinateChars(a) + [' '] + KeepCoordinateChars(b)
  {
    var mid := a + " " + b;
    assert "POINT(" + a + " " + b + ")" == "POINT(" + (mid + ")");
    KeepDropFront("POINT(", mid + ")");
    KeepDropBack(mid, ")");
    KeepSpaced(a, b);
  }

  /** The pieces `round_coordinate` sees in the cleaned text "POINT(lon lat)". */
  lemma PiecesOfPointText(lon: Decimal, lat: Decimal)
    ensures Pieces(PointText(lon, lat)) == [Render(Magnitude(lon)), Render(Magnitude(lat))]
  {
    var x, y := Render(Magnitude(lon)), Render(Magnitude(lat));
    KeepPointShape(Render(lon), Render(lat));
    KeepRender(lon);
    KeepRender(lat);
    RenderNoSpace(Magnitude(lon));
    RenderNoSpace(Magnitude(lat));
    SplitTwo(x, y);
  }

  /**
   * reports/reports_in_python.py on the stored "POINT(lon lat)": pieces 0 and 1 are
   * the two numbers without their sign, the first one landing in the `lat` field.
   */
  lemma ReportsReadsCleanedPoint(lon: Decimal, lat: Decimal)
    requires Normal(lon) && Normal(lat)
    ensures RoundCoordinate(PointText(lon, lat), ReportsFirstToken) ==
      Ok(Cell(RoundTenths(Magnitude(lon)), RoundTenths(Magnitude(lat))))
  {
    PiecesOfPointText(lon, lat);
    NormalMagnitude(lon);
    NormalMagnitude(lat);
    ParseRender(Magnitude(lon));
    ParseRender(Magnitude(lat));
  }

  /** main.py on the stored "POINT(lon lat)": there is no third piece, so IndexError. */
  lemma MainRejectsCleanedPoint(lon: Decimal, lat: Decimal)
    requires Normal(lon) && Normal(lat)
    ensures RoundCoordinate(PointText(lon, lat), MainFirstToken) == Err(IndexError)
  {
    PiecesOfPointText(lon, lat);
    NormalMagnitude(lat);
    ParseRender(Magnitude(lat));
  }

  /** The regular expression on "POINT (" followed by anything: only the space stays. */
  lemma KeepRawPrefix(t: string)
    ensures KeepCoordinateChars("POINT (" + t) == [' '] + KeepCoordinateChars(t)
  {
    assert "POINT (" + t == "POINT" + ([' '] + ("(" + t));
    KeepSpaceBetween("POINT", "(", t);
  }

  /** The regular expression on "POINT (u v)": the wrapper goes, both spaces stay. */
  lemma KeepRawShape(u: string, v: string)
    ensures KeepCoordinateChars("POINT (" + u + " " + v + ")") ==
      [' '] + (KeepCoordinateChars(u) + [' '] + KeepCoordinateChars(v))
  {
    var mid := u + " " + v;
    assert "POINT (" + u + " " + v + ")" == ("POINT (" + mid) + ")";
    KeepDropBack("POINT (" + mid, ")");
    KeepRawPrefix(mid);
    KeepSpaced(u, v);
  }

  /** Splitting a leading space then two space-free strings joined by one space. */
  lemma SplitSpaceTwo(x: string, y: string)
    requires ' ' !in x && ' ' !in y
    ensures SplitOn([' '] + (x + [' '] + y), ' ') == [[], x, y]
  {
    assert [' '] + (x + [' '] + y) == [] + [' '] + (x + [' '] + y);
    SplitOnAppend([], ' ', x + [' '] + y);
    SplitTwo(x, y);
  }

  /** The pieces of a raw "POINT (u v)": an empty piece, then the two cleaned numbers. */
  lemma PiecesOfRawPoint(u: string, v: string)
    requires ' ' !in u && ' ' !in v
    ensures Pieces("POINT (" + u + " " + v + ")") ==
      [[], KeepCoordinateChars(u), KeepCoordinateChars(v)]
  {
    KeepRawShape(u, v);
    SplitSpaceTwo(KeepCoordinateChars(u), KeepCoordinateChars(v));
  }

  /** main.py on a raw "POINT (u v)": pieces 1 and 2 are u and v with every sign removed. */
  lemma MainReadsRawPoint(u: string, v: string)
    requires ' ' !in u && ' ' !in v
    ensures RoundCoordinate("POINT (" + u + " " + v + ")", MainFirstToken) ==
      match (ParseFloat(KeepCoordinateChars(u)), ParseFloat(KeepCoordinateChars(v)))
      case (Some(a), Some(b)) => Ok(Cell(RoundTenths(a), RoundTenths(b)))
      case _ => Err(ValueError)
  {
    PiecesOfRawPoint(u, v);
  }

  /** reports/reports_in_python.py on a raw "POINT (u v)": piece 0 is empty, so ValueError. */
  lemma ReportsRejectsRawPoint(u: string, v: string)
    requires ' ' !in u && ' ' !in v
    ensures RoundCoordinate("POINT (" + u + " " + v + ")", ReportsFirstToken) == Err(ValueError)
  {
    PiecesOfRawPoint(u, v);
    NotANumber([]);
  }

  /** Runs of spaces survive the cleaning regular expression. */
  lemma KeepSpaces(n: nat)
    ensures KeepCoordinateChars(seq(n, _ => ' ')) == seq(n, _ => ' ')
  {
    KeepUnchanged(seq(n, _ => ' '));
  }

  /** Cleaning " u  v " keeps its spaces and cleans the two words. */
  lemma KeepSpacedNumbers(u: string, v: string)
    ensures KeepCoordinateChars([' '] + u + [' ', ' '] + v + [' ']) ==
      [' '] + KeepCoordinateChars(u) + [' ', ' '] + KeepCoordinateChars(v) + [' ']
  {
    KeepAppend5([' '], u, [' ', ' '], v, [' ']);
    KeepSpaces(1);
    KeepSpaces(2);
    assert seq(1, _ => ' ') == [' '] && seq(2, _ => ' ') == [' ', ' '];
  }

  /** `split(" ")` keeps an empty piece before a leading space, between two spaces and after a trailing one. */
  lemma SplitSpacedNumbers(x: string, y: string)
    requires ' ' !in x && ' ' !in y
    ensures SplitOn([' '] + x + [' ', ' '] + y + [' '], ' ') == [[], x, [], y, []]
  {
    var t3 := y + [' '] + [];
    SplitOnAppend(y, ' ', []);
    SplitOnAbsent(y, ' ');
    SplitOnAbsent([], ' ');
    var t2 := [] + [' '] + t3;
    SplitOnAppend([], ' ', t3);
    var t1 := x + [' '] + t2;
    SplitOnAppend(x, ' ', t2);
    SplitOnAbsent(x, ' ');
    var t0 := [] + [' '] + t1;
    SplitOnAppend([], ' ', t1);
    assert [' '] + x + [' ', ' '] + y + [' '] == t0;
  }

  /**
   * Bare numbers padded with spaces, as in " 8.681  50.112 ", are rejected by both
   * copies: the empty pieces `split(" ")` leaves reach `float()`.
   */
  lemma SpacedNumbersRejected(u: string, v: string)
    requires ' ' !in u && ' ' !in v
    ensures RoundCoordinate([' '] + u + [' ', ' '] + v + [' '], ReportsFirstToken) == Err(ValueError)
    ensures RoundCoordinate([' '] + u + [' ', ' '] + v + [' '], MainFirstToken) == Err(ValueError)
  {
    var x, y := KeepCoordinateChars(u), KeepCoordinateChars(v);
    KeepSpacedNumbers(u, v);
    SplitSpacedNumbers(x, y);
    NotANumber([]);
  }
}
