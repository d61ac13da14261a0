/** page/elements/point.py: points and the point-list micro-format
    "x1,y1 x2,y2 ...". */
module Points {
  import opened Wrappers
  import opened Errors
  import opened Strings

  datatype Point = Point(x: int, y: int)

  /** The dataclass(order=True) order: tuples (x, y) compared
      lexicographically. */
  predicate LessEq(p: Point, q: Point) {
    p.x < q.x || (p.x == q.x && p.y <= q.y)
  }

  lemma LessEqIsTotalOrder(p: Point, q: Point, o: Point)
    ensures LessEq(p, p)
    ensures LessEq(p, q) && LessEq(q, p) ==> p == q
    ensures LessEq(p, q) && LessEq(q, o) ==> LessEq(p, o)
    ensures LessEq(p, q) || LessEq(q, p)
  {
  }

  /** A token of the point list: exactly two comma-separated integers. */
  predicate IsPointToken(t: string) {
    var coords := Split(t, ',');
    |coords| == 2 && ParseInt(coords[0]).Some? && ParseInt(coords[1]).Some?
  }

  /** The loop body of parse_points for one space-separated token. */
  function ParsePoint(token: string): (r: Parse<Point>)
    ensures r.Ok? <==> IsPointToken(token)
    ensures r.Err? ==>
      r.error == if |Split(token, ',')| != 2 then WrongCoordinateCount(token) else InvalidCoordinates(token)
  {
    var coords := Split(token, ',');
    if |coords| != 2 then Err(WrongCoordinateCount(token))
    else
      match (ParseInt(coords[0]), ParseInt(coords[1]))
      case (Some(x), Some(y)) => Ok(Point(x, y))
      case _ => Err(InvalidCoordinates(token))
  }

  function ParseTokens(tokens: seq<string>): (rs: seq<Parse<Point>>)
    ensures |rs| == |tokens| && forall i | 0 <= i < |tokens| :: rs[i] == ParsePoint(tokens[i])
  {
    seq(|tokens|, i requires 0 <= i < |tokens| => ParsePoint(tokens[i]))
  }

  /** parse_points(s): every token is parsed in order and the first bad one
      raises; only then is the number of points checked. */
  function PointsFromString(s: string): (r: Parse<seq<Point>>)
    ensures r.Ok? ==> 2 <= |r.value| == |Split(s, ' ')|
    ensures r.Err? ==> r.error.WrongCoordinateCount? || r.error.InvalidCoordinates? || r.error == TooFewPoints(s)
  {
    var tokens := Split(s, ' ');
    var rs := ParseTokens(tokens);
    match Collect(rs)
    case Err(e) =>
      var k := FirstFailure(rs);
      assert ParsePoint(tokens[k]) == rs[k] == Err(e);
      Err(e)
    case Ok(points) => if |points| < 2 then Err(TooFewPoints(s)) else Ok(points)
  }

  /** parse_points as the source writes it: a loop over the tokens that
      appends each point and raises on the first malformed token. */
  method ParsePoints(s: string) returns (r: Parse<seq<Point>>)
    ensures r == PointsFromString(s)
  {
    var tokens := Split(s, ' ');
    ghost var results := ParseTokens(tokens);
    var points: seq<Point> := [];
    for i := 0 to |tokens|
      invariant |points| == i
      invariant forall j | 0 <= j < i :: results[j] == Ok(points[j])
    {
      var coords := Split(tokens[i], ',');
      if |coords| != 2 {
        assert results[i] == ParsePoint(tokens[i]);
        FirstFailureAt(results, i);
        return Err(WrongCoordinateCount(tokens[i]));
      }
      var x := ParseInt(coords[0]);
      var y := ParseInt(coords[1]);
      if x.None? || y.None? {
        assert results[i] == ParsePoint(tokens[i]);
        FirstFailureAt(results, i);
        return Err(InvalidCoordinates(tokens[i]));
      }
      points := points + [Point(x.value, y.value)];
    }
    CollectAllOk(results, points);
    if |points| < 2 {
      return Err(TooFewPoints(s));
    }
    return Ok(points);
  }

  function PointToString(p: Point): string {
    IntToString(p.x) + "," + IntToString(p.y)
  }

  /** The "x,y" token of each point, in order. */
  function PointTokens(ps: seq<Point>): (ts: seq<string>)
    ensures |ts| == |ps| && forall i | 0 <= i < |ps| :: ts[i] == PointToString(ps[i])
  {
    seq(|ps|, i requires 0 <= i < |ps| => PointToString(ps[i]))
  }

  /** points_to_string: "x,y" per point, joined by single spaces; no token
      holds a space, so splitting at spaces gives back the tokens. */
  function PointsToString(ps: seq<Point>): (r: string)
    ensures |ps| >= 1 ==> Split(r, ' ') == PointTokens(ps)
  {
    TokensSpaceFree(ps);
    var r := Join(PointTokens(ps), ' ');
    if |ps| >= 1 then SplitJoin(PointTokens(ps), ' '); r else r
  }

  lemma TokensSpaceFree(ps: seq<Point>)
    ensures forall t | t in PointTokens(ps) :: ' ' !in t
  {
    forall i | 0 <= i < |ps| ensures ' ' !in PointTokens(ps)[i] {
      PointTokenRoundTrip(ps[i]);
    }
  }

  /** Parsing succeeds exactly when every token is two integers separated
      by one comma and there are at least two tokens; the result has one
      point per token, in token order. */
  lemma PointsFromStringSucceeds(s: string)
    ensures var tokens := Split(s, ' ');
      PointsFromString(s).Ok? <==> |tokens| >= 2 && forall i | 0 <= i < |tokens| :: IsPointToken(tokens[i])
    ensures var tokens := Split(s, ' ');
      PointsFromString(s).Ok? ==>
        |PointsFromString(s).value| == |tokens| &&
        forall i | 0 <= i < |tokens| ::
          PointsFromString(s).value[i] ==
            Point(ParseInt(Split(tokens[i], ',')[0]).value, ParseInt(Split(tokens[i], ',')[1]).value)
  {
    var tokens := Split(s, ' ');
    var rs := ParseTokens(tokens);
    assert forall i | 0 <= i < |tokens| :: rs[i].Ok? <==> IsPointToken(tokens[i]);
  }

  /** The first malformed token decides the error: a wrong number of
      comma-separated parts, or a part that is not an integer. */
  lemma FirstBadTokenRejects(s: string, i: nat)
    requires var tokens := Split(s, ' ');
      i < |tokens| && !IsPointToken(tokens[i]) && forall j | 0 <= j < i :: IsPointToken(tokens[j])
    ensures var token := Split(s, ' ')[i];
      PointsFromString(s) ==
        if |Split(token, ',')| != 2 then Err(WrongCoordinateCount(token)) else Err(InvalidCoordinates(token))
  {
    var tokens := Split(s, ' ');
    var rs := ParseTokens(tokens);
    assert forall j | 0 <= j < i :: rs[j].Ok?;
    FirstFailureAt(rs, i);
  }

  /** Well-formed tokens that are fewer than two are rejected, after all of
      them were parsed. */
  lemma TooFewPointsRejects(s: string)
    requires |Split(s, ' ')| < 2 && IsPointToken(Split(s, ' ')[0])
    ensures PointsFromString(s) == Err(TooFewPoints(s))
  {
    var tokens := Split(s, ' ');
    assert ParseTokens(tokens)[0].Ok?;
  }

  lemma EmptyStringRejected()
    ensures PointsFromString("") == Err(WrongCoordinateCount(""))
  {
    assert Split("", ' ') == [""];
    assert Split("", ',') == [""];
    FirstBadTokenRejects("", 0);
  }

  /** A point list whose first token has three integer coordinates. */
  lemma ThreeCoordinatesRejected(x: int, y: int, z: int, rest: string)
    ensures var token := IntToString(x) + "," + IntToString(y) + "," + IntToString(z);
      PointsFromString(token + " " + rest) == Err(WrongCoordinateCount(token))
  {
    var a, b, c := IntToString(x), IntToString(y), IntToString(z);
    IntToStringChars(x);
    IntToStringChars(y);
    IntToStringChars(z);
    var bc := b + [','] + c;
    var token := a + [','] + bc;
    assert token == a + "," + b + "," + c;
    assert ' ' !in bc;
    assert ' ' !in token;
    SplitCons(token, rest, ' ');
    assert token + [' '] + rest == token + " " + rest;
    SplitCons(a, bc, ',');
    SplitCons(b, c, ',');
    assert Split(c, ',') == [c];
    assert Split(token, ',') == [a, b, c];
    FirstBadTokenRejects(token + " " + rest, 0);
  }

  lemma NonIntegerCoordinatesRejected()
    ensures PointsFromString("a,b c,d") == Err(InvalidCoordinates("a,b"))
  {
    SplitCons("a,b", "c,d", ' ');
    assert "a,b" + [' '] + "c,d" == "a,b c,d";
    SplitCons("a", "b", ',');
    assert "a" + [','] + "b" == "a,b";
    assert Split("b", ',') == ["b"];
    assert !IsDigit('a');
    assert ParseInt("a").None?;
    FirstBadTokenRejects("a,b c,d", 0);
  }

  lemma PointTokenRoundTrip(p: Point)
    ensures ' ' !in PointToString(p)
    ensures Split(PointToString(p), ',') == [IntToString(p.x), IntToString(p.y)]
    ensures ParsePoint(PointToString(p)) == Ok(p)
  {
    var a, b := IntToString(p.x), IntToString(p.y);
    IntToStringChars(p.x);
    IntToStringChars(p.y);
    assert forall k | 0 <= k < |a + "," + b| :: (a + "," + b)[k] in a || (a + "," + b)[k] == ',' || (a + "," + b)[k] in b;
    SplitCons(a, b, ',');
    assert a + [','] + b == PointToString(p);
    assert Split(b, ',') == [b];
    ParseIntToString(p.x);
    ParseIntToString(p.y);
  }

  /** Left inverse: formatting then parsing gives back every list of at
      least two points, negative coordinates included. */
  lemma ParseFormatted(ps: seq<Point>)
    requires |ps| >= 2
    ensures PointsFromString(PointsToString(ps)) == Ok(ps)
  {
    var strs := PointTokens(ps);
    forall i | 0 <= i < |ps| ensures ParsePoint(strs[i]) == Ok(ps[i]) {
      PointTokenRoundTrip(ps[i]);
    }
    assert Split(PointsToString(ps), ' ') == strs;
    var rs := ParseTokens(strs);
    assert forall i | 0 <= i < |ps| :: rs[i] == Ok(ps[i]);
    CollectAllOk(rs, ps);
  }

  /** The canonical form of the PAGE schema's point pattern
      ([0-9]+,[0-9]+ )+([0-9]+,[0-9]+): at least two points, each two
      natural numerals without leading zeros. */
  predicate IsCanonicalPoints(s: string) {
    var tokens := Split(s, ' ');
    |tokens| >= 2 &&
    forall i | 0 <= i < |tokens| ::
      |Split(tokens[i], ',')| == 2 &&
      IsNatNumeral(Split(tokens[i], ',')[0]) && IsNatNumeral(Split(tokens[i], ',')[1])
  }

  /** Right inverse on canonical input: parsing then formatting reproduces
      the string. */
  lemma FormatParsed(s: string)
    requires IsCanonicalPoints(s)
    ensures PointsFromString(s).Ok?
    ensures PointsToString(PointsFromString(s).value) == s
  {
    var tokens := Split(s, ' ');
    forall i | 0 <= i < |tokens|
      ensures IsPointToken(tokens[i])
      ensures PointToString(Point(ParseInt(Split(tokens[i], ',')[0]).value, ParseInt(Split(tokens[i], ',')[1]).value)) == tokens[i]
    {
      var parts := Split(tokens[i], ',');
      NatNumeralRoundTrip(parts[0]);
      NatNumeralRoundTrip(parts[1]);
      JoinSplit(tokens[i], ',');
      assert Join(parts, ',') == parts[0] + [','] + parts[1];
    }
    PointsFromStringSucceeds(s);
    var ps := PointsFromString(s).value;
    var strs := PointTokens(ps);
    assert strs == tokens;
    JoinSplit(s, ' ');
  }
}
