/** The Python string operations the parsers rely on: str.split with an
    explicit one-character separator, str.join, int() on a decimal string
    and str() of an integer. */
module Strings {
  import opened Wrappers

  /** Position of the first occurrence of c in s. */
  function IndexOfChar(s: string, c: char): (k: nat)
    requires c in s
    ensures k < |s| && s[k] == c && c !in s[..k]
  {
    if s[0] == c then 0 else 1 + IndexOfChar(s[1..], c)
  }

  /** s.split(sep): the pieces between occurrences of sep. Empty pieces are
      kept, so a leading, trailing or doubled separator yields "" and the
      empty string splits into [""]. */
  function Split(s: string, sep: char): (r: seq<string>)
    ensures |r| >= 1
    ensures forall t | t in r :: sep !in t
    decreases |s|
  {
    if sep in s then
      var k := IndexOfChar(s, sep);
      [s[..k]] + Split(s[k + 1..], sep)
    else
      [s]
  }

  /** sep.join(ts). */
  function Join(ts: seq<string>, sep: char): string {
    if |ts| == 0 then ""
    else if |ts| == 1 then ts[0]
    else ts[0] + [sep] + Join(ts[1..], sep)
  }

  lemma {:induction false} IndexOfCharAfter(a: string, b: string, c: char)
    requires c !in a && c in b
    ensures c in a + b && IndexOfChar(a + b, c) == |a| + IndexOfChar(b, c)
  {
    if |a| > 0 {
      assert (a + b)[0] == a[0];
      assert (a + b)[1..] == a[1..] + b;
      IndexOfCharAfter(a[1..], b, c);
    } else {
      assert a + b == b;
    }
  }

  /** Splitting a piece free of sep, then sep, then the rest. */
  lemma SplitCons(a: string, b: string, sep: char)
    requires sep !in a
    ensures Split(a + [sep] + b, sep) == [a] + Split(b, sep)
  {
    var s := a + [sep] + b;
    assert s == a + ([sep] + b);
    IndexOfCharAfter(a, [sep] + b, sep);
    assert s[..|a|] == a;
    assert s[|a| + 1..] == b;
  }

  lemma {:induction false} SplitJoin(ts: seq<string>, sep: char)
    requires |ts| >= 1
    requires forall t | t in ts :: sep !in t
    ensures Split(Join(ts, sep), sep) == ts
  {
    assert ts[0] in ts;
    if |ts| > 1 {
      assert forall t | t in ts[1..] :: t in ts;
      SplitJoin(ts[1..], sep);
      SplitCons(ts[0], Join(ts[1..], sep), sep);
      assert ts == [ts[0]] + ts[1..];
    }
  }

  lemma {:induction false} JoinSplit(s: string, sep: char)
    ensures Join(Split(s, sep), sep) == s
    decreases |s|
  {
    if sep in s {
      var k := IndexOfChar(s, sep);
      var rest := Split(s[k + 1..], sep);
      JoinSplit(s[k + 1..], sep);
      assert Split(s, sep) == [s[..k]] + rest;
      assert ([s[..k]] + rest)[1..] == rest;
      assert s == s[..k] + [sep] + s[k + 1..];
    }
  }

  predicate IsDigit(c: char) {
    '0' <= c <= '9'
  }

  /** One or more decimal digits. */
  predicate IsDigits(s: string) {
    |s| > 0 && forall i | 0 <= i < |s| :: IsDigit(s[i])
  }

  function DigitValue(c: char): (d: nat)
    requires IsDigit(c)
    ensures d < 10
  {
    (c as int) - ('0' as int)
  }

  function DigitChar(d: nat): (c: char)
    requires d < 10
    ensures IsDigit(c) && DigitValue(c) == d
  {
    (('0' as int) + d) as char
  }

  /** The value of a string of decimal digits, most significant first. */
  function DigitsValue(s: string): nat
    requires forall i | 0 <= i < |s| :: IsDigit(s[i])
  {
    if |s| == 0 then 0 else DigitsValue(s[..|s| - 1]) * 10 + DigitValue(s[|s| - 1])
  }

  /** int(s): an optional sign followed by decimal digits. Python's int()
      also accepts surrounding whitespace and '_' separators; they are not
      modelled. */
  function ParseInt(s: string): Option<int> {
    if |s| > 0 && (s[0] == '-' || s[0] == '+') then
      if IsDigits(s[1..]) then
        var v: int := DigitsValue(s[1..]);
        Some(if s[0] == '-' then -v else v)
      else None
    else if IsDigits(s) then Some(DigitsValue(s))
    else None
  }

  /** str(n) for a natural number. */
  function NatToString(n: nat): (s: string)
    ensures IsDigits(s)
  {
    if n < 10 then [DigitChar(n)] else NatToString(n / 10) + [DigitChar(n % 10)]
  }

  /** str(i) for an integer. */
  function IntToString(i: int): string {
    if i < 0 then "-" + NatToString(-i) else NatToString(i)
  }

  lemma {:induction false} NatToStringValue(n: nat)
    ensures DigitsValue(NatToString(n)) == n
  {
    var s := NatToString(n);
    if n >= 10 {
      NatToStringValue(n / 10);
      assert s[..|s| - 1] == NatToString(n / 10);
    }
  }

  /** int(str(i)) == i. */
  lemma ParseIntToString(i: int)
    ensures ParseInt(IntToString(i)) == Some(i)
  {
    if i < 0 {
      var d := NatToString(-i);
      assert ("-" + d)[1..] == d;
      assert ("-" + d)[0] == '-';
      NatToStringValue(-i);
    } else {
      var d := NatToString(i);
      assert IsDigit(d[0]);
      NatToStringValue(i);
    }
  }

  /** str(i) holds only digits and a leading minus sign, so it contains
      neither a comma nor a space. */
  lemma IntToStringChars(i: int)
    ensures ',' !in IntToString(i) && ' ' !in IntToString(i)
  {
    var d := if i < 0 then NatToString(-i) else NatToString(i);
    assert forall k | 0 <= k < |d| :: IsDigit(d[k]);
  }

  /** Decimal digits without a leading zero: the form str() gives a
      positive integer. */
  predicate IsPositiveNumeral(s: string) {
    IsDigits(s) && s[0] != '0'
  }

  lemma {:induction false} PositiveNumeralValue(s: string)
    requires IsPositiveNumeral(s)
    ensures DigitsValue(s) >= 1
    ensures NatToString(DigitsValue(s)) == s
  {
    if |s| == 1 {
      assert DigitsValue(s) == DigitValue(s[0]);
    } else {
      var p := s[..|s| - 1];
      assert p[0] == s[0];
      PositiveNumeralValue(p);
      var v := DigitsValue(s);
      var d := DigitValue(s[|s| - 1]);
      assert v == DigitsValue(p) * 10 + d;
      assert v / 10 == DigitsValue(p) && v % 10 == d;
      assert DigitChar(d) == s[|s| - 1];
      assert s == p + [s[|s| - 1]];
    }
  }

  /** The form str() gives a natural number: "0", or a positive numeral. */
  predicate IsNatNumeral(s: string) {
    s == "0" || IsPositiveNumeral(s)
  }

  /** A natural numeral is read back exactly by int() then str(). */
  lemma NatNumeralRoundTrip(s: string)
    requires IsNatNumeral(s)
    ensures ParseInt(s).Some? && ParseInt(s).value >= 0
    ensures IntToString(ParseInt(s).value) == s
  {
    if s == "0" {
      assert DigitsValue(s) == DigitValue('0') == 0;
      assert NatToString(0) == [DigitChar(0)] == s;
    } else {
      PositiveNumeralValue(s);
    }
  }
}
