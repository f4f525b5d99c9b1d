/** The share files, as sequences of lines (without their '\n').

    Text file:  the number of units (characters); then for every unit the
    number of its shares, followed by one "x y" line per share.
    Image file: the same, except that the first line is "width height units".

    The loaders read one line per `scanner.Scan()`; past the end of the file
    a scan yields the empty line. `strconv.Atoi` errors are discarded (the
    count becomes 0). A negative count fails `make`, a coordinate line with
    fewer than two fields fails on `parts[1]`, and a header with fewer than
    three fields on `parts[2]`. */
module ShareFile {
  import opened Outcome
  import opened Decimal
  import opened Shamir

  /** "x y" for one share. */
  function PointLine(p: Point): string {
    IntToDecimal(p.x) + " " + IntToDecimal(p.y)
  }

  /** One "x y" line per share. */
  function PointLines(shares: seq<Point>): (lines: seq<string>)
    ensures |lines| == |shares| && forall j :: 0 <= j < |shares| ==> lines[j] == PointLine(shares[j])
  {
    seq(|shares|, j requires 0 <= j < |shares| => PointLine(shares[j]))
  }

  /** The lines of one unit: its share count, then its shares. */
  function UnitLines(shares: seq<Point>): (lines: seq<string>)
    ensures |lines| == |shares| + 1
  {
    [IntToDecimal(|shares|)] + PointLines(shares)
  }

  /** The number of shares over all units. */
  function ShareCount(all: seq<seq<Point>>): nat {
    if |all| == 0 then 0 else |all[0]| + ShareCount(all[1..])
  }

  /** The lines of all units, one after the other: a count line per unit and
      a line per share. */
  function UnitsLines(all: seq<seq<Point>>): (lines: seq<string>)
    ensures |lines| == |all| + ShareCount(all)
  {
    if |all| == 0 then [] else UnitLines(all[0]) + UnitsLines(all[1..])
  }

  /** `saveTextShares`: a header whose count reads back as the number of
      units, then the units. */
  function SaveText(all: seq<seq<Point>>): (lines: seq<string>)
    ensures |lines| == 1 + |all| + ShareCount(all)
    ensures Atoi(lines[0]) == |all|
  {
    DecimalRoundTrip(|all|);
    [IntToDecimal(|all|)] + UnitsLines(all)
  }

  /** `saveImageShares`: a header of three fields that read back as the
      width, the height and the number of units, then the units. */
  function SaveImage(all: seq<seq<Point>>, width: int, height: int): (lines: seq<string>)
    ensures |lines| == 1 + |all| + ShareCount(all)
    ensures var header := Split(lines[0]);
            && |header| == 3
            && Atoi(header[0]) == width && Atoi(header[1]) == height && Atoi(header[2]) == |all|
  {
    var w, h, c := IntToDecimal(width), IntToDecimal(height), IntToDecimal(|all|);
    HeaderFields(w, h, c);
    DecimalRoundTrip(width);
    DecimalRoundTrip(height);
    DecimalRoundTrip(|all|);
    [w + " " + h + " " + c] + UnitsLines(all)
  }

  /** A line of three space-free fields splits into those fields. */
  lemma HeaderFields(w: string, h: string, c: string)
    requires ' ' !in w && ' ' !in h && ' ' !in c
    ensures Split(w + " " + h + " " + c) == [w, h, c]
  {
    assert w + " " + h + " " + c == w + " " + (h + " " + c);
    SplitAfterPiece(w, h + " " + c);
    SplitAfterPiece(h, c);
    SplitWhole(c);
  }

  /** The text of the scan at line i: empty past the end of the file. */
  function LineAt(lines: seq<string>, i: nat): string {
    if i < |lines| then lines[i] else ""
  }

  /** One "x y" line. Extra fields after the second are ignored, as in the Go code. */
  function ParsePoint(line: string): (r: Result<Point>)
    ensures r.Success? <==> |Split(line)| >= 2 && IsNumeral(Split(line)[0]) && IsNumeral(Split(line)[1])
    ensures r.Success? ==> Some(r.value.x) == ParseDecimal(Split(line)[0]) && Some(r.value.y) == ParseDecimal(Split(line)[1])
    ensures r.Failure? ==> r.error == (if |Split(line)| < 2 then MissingField else MalformedCoordinate)
  {
    var parts := Split(line);
    if |parts| < 2 then Failure(MissingField)
    else
      match (ParseDecimal(parts[0]), ParseDecimal(parts[1]))
      case (Some(x), Some(y)) => Success(Point(x, y))
      case _ => Failure(MalformedCoordinate)
  }

  /** The m share lines starting at line pos. */
  function LoadPoints(lines: seq<string>, pos: nat, m: nat): (r: Result<seq<Point>>)
    ensures r.Success? ==> |r.value| == m
    ensures r.Success? <==> forall i :: pos <= i < pos + m ==> ParsePoint(LineAt(lines, i)).Success?
    decreases m
  {
    if m == 0 then Success([])
    else
      match ParsePoint(LineAt(lines, pos))
      case Failure(e) => Failure(e)
      case Success(p) =>
        match LoadPoints(lines, pos + 1, m - 1)
        case Failure(e) => Failure(e)
        case Success(rest) => Success([p] + rest)
  }

  /** `count` units starting at line pos, and the line after the last of them. */
  function LoadUnits(lines: seq<string>, pos: nat, count: nat): (r: Result<(seq<seq<Point>>, nat)>)
    ensures r.Success? ==> |r.value.0| == count && r.value.1 >= pos + count
    decreases count
  {
    if count == 0 then Success(([], pos))
    else
      var m := Atoi(LineAt(lines, pos));
      if m < 0 then Failure(NegativeCount)
      else
        match LoadPoints(lines, pos + 1, m)
        case Failure(e) => Failure(e)
        case Success(unit) =>
          match LoadUnits(lines, pos + 1 + m, count - 1)
          case Failure(e) => Failure(e)
          case Success(rest) => Success(([unit] + rest.0, rest.1))
  }

  /** `loadTextShares`. */
  function LoadText(lines: seq<string>): (r: Result<seq<seq<Point>>>)
    ensures Atoi(LineAt(lines, 0)) < 0 ==> r == Failure(NegativeCount)
    ensures r.Success? ==> |r.value| == Atoi(LineAt(lines, 0))
  {
    var count := Atoi(LineAt(lines, 0));
    if count < 0 then Failure(NegativeCount)
    else
      match LoadUnits(lines, 1, count)
      case Failure(e) => Failure(e)
      case Success(units) => Success(units.0)
  }

  /** `loadImageShares`: the units, the width and the height. */
  function LoadImage(lines: seq<string>): (r: Result<(seq<seq<Point>>, int, int)>)
    ensures |Split(LineAt(lines, 0))| < 3 ==> r == Failure(MissingField)
    ensures r.Success? ==>
              var header := Split(LineAt(lines, 0));
              && r.value.1 == Atoi(header[0]) && r.value.2 == Atoi(header[1])
              && |r.value.0| == Atoi(header[2])
  {
    var header := Split(LineAt(lines, 0));
    if |header| < 3 then Failure(MissingField)
    else
      var width, height, count := Atoi(header[0]), Atoi(header[1]), Atoi(header[2]);
      if count < 0 then Failure(NegativeCount)
      else
        match LoadUnits(lines, 1, count)
        case Failure(e) => Failure(e)
        case Success(units) => Success((units.0, width, height))
  }

  /** A share line reads back as its share. */
  lemma PointLineRoundTrip(p: Point)
    ensures ParsePoint(PointLine(p)) == Success(p)
  {
    SplitAfterPiece(IntToDecimal(p.x), IntToDecimal(p.y));
    SplitWhole(IntToDecimal(p.y));
    DecimalRoundTrip(p.x);
    DecimalRoundTrip(p.y);
  }

  /** The share lines of a unit read back as its shares, whatever precedes and follows them. */
  lemma {:induction false} PointsRoundTrip(pre: seq<string>, shares: seq<Point>, post: seq<string>)
    ensures LoadPoints(pre + PointLines(shares) + post, |pre|, |shares|) == Success(shares)
    decreases |shares|
  {
    hide LoadPoints, ParsePoint;
    if |shares| == 0 {
      LoadNoPoints(pre + PointLines(shares) + post, |pre|);
    } else {
      var lines := pre + PointLines(shares) + post;
      var rest := shares[1..];
      var pre' := pre + [PointLine(shares[0])];
      PointsLayout(pre, shares, post);
      PointLineRoundTrip(shares[0]);
      PointsRoundTrip(pre', rest, post);
      LoadPointsStep(lines, |pre|, |shares|, shares[0], rest);
      assert [shares[0]] + rest == shares;
    }
  }

  /** Concatenation regrouped. */
  lemma Regroup(pre: seq<string>, u: seq<string>, t: seq<string>, post: seq<string>)
    ensures pre + (u + t) + post == (pre + u) + t + post
    ensures pre + (u + t) + post == pre + u + (t + post)
  {
  }

  /** The lines of a unit's shares are the first share's line, then the others'. */
  lemma PointsLayout(pre: seq<string>, shares: seq<Point>, post: seq<string>)
    requires |shares| > 0
    ensures LineAt(pre + PointLines(shares) + post, |pre|) == PointLine(shares[0])
    ensures pre + PointLines(shares) + post == (pre + [PointLine(shares[0])]) + PointLines(shares[1..]) + post
  {
    hide PointLine;
    assert PointLines(shares) == [PointLine(shares[0])] + PointLines(shares[1..]);
    Regroup(pre, [PointLine(shares[0])], PointLines(shares[1..]), post);
  }

  /** Reading no share lines reads nothing. */
  lemma LoadNoPoints(lines: seq<string>, pos: nat)
    ensures LoadPoints(lines, pos, 0) == Success([])
  {
  }

  /** One share line read, then the rest. */
  lemma LoadPointsStep(lines: seq<string>, pos: nat, m: nat, p: Point, rest: seq<Point>)
    requires m > 0 && ParsePoint(LineAt(lines, pos)) == Success(p)
    requires LoadPoints(lines, pos + 1, m - 1) == Success(rest)
    ensures LoadPoints(lines, pos, m) == Success([p] + rest)
  {
    hide ParsePoint, LineAt;
  }

  /** Reading no units reads nothing. */
  lemma LoadNoUnits(lines: seq<string>, pos: nat)
    ensures LoadUnits(lines, pos, 0) == Success(([], pos))
  {
  }

  /** One unit read, then the rest. */
  lemma LoadUnitsStep(lines: seq<string>, pos: nat, unit: seq<Point>, next: nat, rest: seq<seq<Point>>, end: nat)
    requires Atoi(LineAt(lines, pos)) == |unit| && next == pos + 1 + |unit|
    requires LoadPoints(lines, pos + 1, |unit|) == Success(unit)
    requires LoadUnits(lines, next, |rest|) == Success((rest, end))
    ensures LoadUnits(lines, pos, |rest| + 1) == Success(([unit] + rest, end))
  {
    hide Atoi, LoadPoints, LineAt;
  }

  /** The lines of all units are the first unit's lines, then the others'. */
  lemma UnitsLayout(lines: seq<string>, pre: seq<string>, all: seq<seq<Point>>, post: seq<string>)
    requires |all| > 0 && lines == pre + UnitsLines(all) + post
    ensures lines == (pre + UnitLines(all[0])) + UnitsLines(all[1..]) + post
    ensures lines == pre + UnitLines(all[0]) + (UnitsLines(all[1..]) + post)
  {
    hide UnitLines;
    Regroup(pre, UnitLines(all[0]), UnitsLines(all[1..]), post);
  }

  /** The count line and share lines of one unit read back, whatever precedes and follows them. */
  lemma UnitHead(lines: seq<string>, pre: seq<string>, unit: seq<Point>, more: seq<string>)
    requires lines == pre + UnitLines(unit) + more
    ensures Atoi(LineAt(lines, |pre|)) == |unit|
    ensures LoadPoints(lines, |pre| + 1, |unit|) == Success(unit)
  {
    hide LoadPoints, ParsePoint, PointLines;
    var count := IntToDecimal(|unit|);
    Regroup(pre, [count], PointLines(unit), more);
    assert LineAt(lines, |pre|) == count;
    DecimalRoundTrip(|unit|);
    PointsRoundTrip(pre + [count], unit, more);
  }

  /** The lines of all units read back as the units, and reading stops right
      after them, whatever precedes and follows them. */
  lemma {:induction false} UnitsRoundTrip(lines: seq<string>, pre: seq<string>, all: seq<seq<Point>>, post: seq<string>)
    requires lines == pre + UnitsLines(all) + post
    ensures LoadUnits(lines, |pre|, |all|) == Success((all, |pre| + |UnitsLines(all)|))
    decreases |all|
  {
    // Only the contracts of the loaders are needed here; unfolding their
    // bodies over the concrete lines costs the solver far more.
    hide LoadUnits, LoadPoints, Atoi;
    if |all| == 0 {
      LoadNoUnits(lines, |pre|);
    } else {
      var unit, rest := all[0], all[1..];
      var tail := UnitsLines(rest);
      var pre' := pre + UnitLines(unit);
      UnitsLayout(lines, pre, all, post);
      UnitsRoundTrip(lines, pre', rest, post);
      UnitHead(lines, pre, unit, tail + post);
      LoadUnitsStep(lines, |pre|, unit, |pre'|, rest, |pre'| + |tail|);
      assert [unit] + rest == all;
    }
  }

  /** Loading a saved text share file gives the shares back; anything after
      the saved lines is ignored. */
  lemma TextFileRoundTrip(all: seq<seq<Point>>, trailing: seq<string>)
    ensures LoadText(SaveText(all) + trailing) == Success(all)
  {
    var header := [IntToDecimal(|all|)];
    assert SaveText(all) + trailing == header + UnitsLines(all) + trailing;
    DecimalRoundTrip(|all|);
    UnitsRoundTrip(SaveText(all) + trailing, header, all, trailing);
  }

  /** Loading a saved image share file gives back the shares and the dimensions. */
  lemma ImageFileRoundTrip(all: seq<seq<Point>>, width: int, height: int, trailing: seq<string>)
    ensures LoadImage(SaveImage(all, width, height) + trailing) == Success((all, width, height))
  {
    var lines := SaveImage(all, width, height) + trailing;
    var w, h, c := IntToDecimal(width), IntToDecimal(height), IntToDecimal(|all|);
    assert LineAt(lines, 0) == SaveImage(all, width, height)[0];
    assert lines == [w + " " + h + " " + c] + UnitsLines(all) + trailing;
    UnitsRoundTrip(lines, [w + " " + h + " " + c], all, trailing);
  }

  /** An empty text share file holds no units; an empty image share file has no header. */
  lemma EmptyFiles()
    ensures LoadText([]) == Success([])
    ensures LoadImage([]) == Failure(MissingField)
  {
    assert Split("") == [""];
  }
}
