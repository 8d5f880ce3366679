/** Numeric conversions of the two runtimes: JavaScript's `parseInt` and
    `Math.round`, Python's `round` on a real number, and the normalisation of
    a figure written with a decimal comma before it is parsed. */
module Numbers {
  import opened Optional
  import opened Text

  /** The longest prefix of `s` made of ASCII digits. */
  function LeadingDigits(s: string): (d: string)
    ensures AllDigits(d) && d <= s
    ensures |d| == |s| || !IsDigit(s[|d|])
  {
    if s != [] && IsDigit(s[0]) then [s[0]] + LeadingDigits(s[1..]) else []
  }

  /** The text after an optional leading sign. */
  function Unsigned(t: string): (body: string)
    ensures body == t || (t != [] && (t[0] == '-' || t[0] == '+') && body == t[1..])
  {
    if t != [] && (t[0] == '-' || t[0] == '+') then t[1..] else t
  }

  predicate IsNegative(t: string) {
    t != [] && t[0] == '-'
  }

  /** `Number.parseInt(s, 10)`: skip leading white space, read an optional sign,
      then the longest run of decimal digits; `None` stands for `NaN` (no digit). */
  function JsParseInt(s: string): (r: Option<int>)
    ensures var body := Unsigned(TrimStart(s, Js));
            r.None? <==> body == [] || !IsDigit(body[0])
    ensures r.Some? ==> var t := TrimStart(s, Js);
                        var v: int := DigitsValue(LeadingDigits(Unsigned(t)));
                        r.value == if IsNegative(t) then -v else v
  {
    var t := TrimStart(s, Js);
    var digits := LeadingDigits(Unsigned(t));
    if digits == [] then None
    else
      var magnitude: int := DigitsValue(digits);
      Some(if IsNegative(t) then -magnitude else magnitude)
  }

  /** After white space and an optional sign, `parseInt` reads the digits up
      to the first character that is not one, and the sign applies to them. */
  lemma {:induction false} JsParseIntSigned(lead: string, sign: string, d: string, tail: string)
    requires AllSpace(lead, Js)
    requires sign == "" || sign == "-" || sign == "+"
    requires d != [] && AllDigits(d)
    requires tail == [] || !IsDigit(tail[0])
    ensures var v: int := DigitsValue(d);
            JsParseInt(lead + sign + d + tail) == Some(if sign == "-" then -v else v)
  {
    var rest := sign + (d + tail);
    assert rest[0] == (if sign == "" then d[0] else sign[0]);
    DigitNotSpace(d[0], Js);
    TrimStartRun(lead, rest, Js);
    assert lead + sign + d + tail == lead + rest by {
      Associative(sign, d, tail);
      Associative(lead, sign, d + tail);
      Associative(lead, sign + d, tail);
      Associative(lead, sign, d);
    }
    assert Unsigned(rest) == d + tail by {
      assert sign != "" ==> rest[1..] == d + tail;
    }
    assert IsNegative(rest) <==> sign == "-";
    LeadingDigitsPrefix(d, tail);
    JsParseIntReads(lead + sign + d + tail, rest, d);
  }

  /** `parseInt` applies the sign to the digits after the leading white space. */
  lemma JsParseIntReads(s: string, t: string, d: string)
    requires TrimStart(s, Js) == t
    requires LeadingDigits(Unsigned(t)) == d && d != []
    ensures var v: int := DigitsValue(d); JsParseInt(s) == Some(if IsNegative(t) then -v else v)
  {
  }

  /** The leading digits of a run of digits followed by a non-digit are the run. */
  lemma {:induction false} LeadingDigitsPrefix(d: string, tail: string)
    requires AllDigits(d)
    requires tail == [] || !IsDigit(tail[0])
    ensures LeadingDigits(d + tail) == d
  {
    if d == [] {
      assert d + tail == tail;
    } else {
      assert (d + tail)[0] == d[0] && (d + tail)[1..] == d[1..] + tail;
      LeadingDigitsPrefix(d[1..], tail);
    }
  }

  /** `Number.parseInt(s, 10) || 0`: `NaN` (and `-0`) become 0. */
  function JsParseIntOrZero(s: string): int {
    JsParseInt(s).GetOr(0)
  }

  /** A non-empty string of digits parses to the number it denotes. */
  lemma {:induction false} JsParseIntDigits(d: string)
    requires d != [] && AllDigits(d)
    ensures JsParseInt(d) == Some(DigitsValue(d))
  {
    DigitNotSpace(d[0], Js);
    TrimStartRun([], d, Js);
    assert [] + d == d;
    UnsignedDigits(d);
    LeadingDigitsAll(d);
    JsParseIntReads(d, d, d);
  }

  /** A text starting with a digit carries no sign. */
  lemma UnsignedDigits(t: string)
    requires t != [] && IsDigit(t[0])
    ensures Unsigned(t) == t && !IsNegative(t)
  {
    assert t[0] != '-' && t[0] != '+';
  }

  lemma {:induction false} LeadingDigitsAll(d: string)
    requires AllDigits(d)
    ensures LeadingDigits(d) == d
  {
    if d != [] {
      LeadingDigitsAll(d[1..]);
    }
  }

  /** `parseInt` reads back what an integer prints as. */
  lemma JsParseIntRoundTrip(n: nat)
    ensures JsParseInt(NatToString(n)) == Some(n)
  {
    JsParseIntDigits(NatToString(n));
    NatToStringRoundTrip(n);
  }

  /** JavaScript `Math.round`: the nearest integer, halves rounded up (towards +infinity). */
  function JsRound(x: real): (r: int)
    ensures r as real - 0.5 <= x < r as real + 0.5
  {
    (x + 0.5).Floor
  }

  /** Python's built-in `round` with no digits: the nearest integer, halves
      rounded to the even neighbour. */
  function PyRound(x: real): (r: int)
    ensures r as real - 0.5 <= x <= r as real + 0.5
    ensures (x == r as real - 0.5 || x == r as real + 0.5) ==> r % 2 == 0
  {
    var f := x.Floor;
    var d := x - f as real;
    if d < 0.5 then f
    else if d > 0.5 then f + 1
    else if f % 2 == 0 then f
    else f + 1
  }

  /** `Math.round(x)` is the one integer `r` with `r - 0.5 <= x < r + 0.5`. */
  lemma JsRoundUnique(x: real, r: int)
    requires r as real - 0.5 <= x < r as real + 0.5
    ensures JsRound(x) == r
  {
  }

  /** `round(x)` is the one integer within 0.5 of `x` that is even when `x`
      lies halfway between two integers. */
  lemma PyRoundUnique(x: real, r: int)
    requires r as real - 0.5 <= x <= r as real + 0.5
    requires (x == r as real - 0.5 || x == r as real + 0.5) ==> r % 2 == 0
    ensures PyRound(x) == r
  {
  }

  /** The two rounding rules differ exactly on halves whose lower neighbour is
      even, and there JavaScript's answer is one more than Python's. */
  lemma RoundingsDiffer(x: real)
    ensures JsRound(x) != PyRound(x) <==> (x - x.Floor as real == 0.5 && x.Floor % 2 == 0)
    ensures JsRound(x) != PyRound(x) ==> JsRound(x) == PyRound(x) + 1
  {
  }

  /** Both rounding rules are monotone: a larger value never rounds lower. */
  lemma RoundMonotone(x: real, y: real)
    requires x <= y
    ensures JsRound(x) <= JsRound(y)
    ensures PyRound(x) <= PyRound(y)
  {
  }

  /** A figure written with thousands dots: only digits and ".". */
  predicate DottedDigits(a: string) {
    forall i :: 0 <= i < |a| ==> IsDigit(a[i]) || a[i] == '.'
  }

  /** Normalising a figure with a decimal comma the way both rate readers
      do (trim, drop the dots, turn the comma into a point) gives the
      figure's digits with a decimal point, whatever white space surrounds
      it: " 1.155,50 " becomes "1155.50".  The JavaScript reader replaces
      the first comma only. */
  lemma DecimalCommaFirstReplaced(pre: string, a: string, b: string, post: string)
    requires AllSpace(pre, Js) && AllSpace(post, Js)
    requires DottedDigits(a) && AllDigits(b)
    ensures ReplaceFirst(RemoveChar(Trim(pre + (a + [','] + b) + post, Js), '.'), ',', '.') == RemoveChar(a, '.') + ['.'] + b
  {
    DecimalCommaTrimmed(pre, a, b, post, Js);
    DecimalCommaDotless(a, b);
    ReplaceFirstSeparator(RemoveChar(a, '.'), b, ',', '.');
  }

  /** The same for the Python reader, which replaces every comma. */
  lemma DecimalCommaAllReplaced(pre: string, a: string, b: string, post: string)
    requires AllSpace(pre, Py) && AllSpace(post, Py)
    requires DottedDigits(a) && AllDigits(b)
    ensures ReplaceChar(RemoveChar(Trim(pre + (a + [','] + b) + post, Py), '.'), ',', '.') == RemoveChar(a, '.') + ['.'] + b
  {
    DecimalCommaTrimmed(pre, a, b, post, Py);
    DecimalCommaDotless(a, b);
    ReplaceCharSeparator(RemoveChar(a, '.'), b, ',', '.');
  }

  /** The padded figure read left to right is the figure between its padding. */
  lemma FigureGrouping(pre: string, a: string, b: string, post: string)
    ensures pre + a + "," + b + post == pre + (a + [','] + b) + post
  {
    Associative(pre, a + [','], b);
    Associative(pre, a, [',']);
  }

  /** Dropping the dots of "a,b" drops those of `a` and keeps the comma and
      `b`, and neither part is left with a comma. */
  lemma DecimalCommaDotless(a: string, b: string)
    requires DottedDigits(a) && AllDigits(b)
    ensures RemoveChar(a + [','] + b, '.') == RemoveChar(a, '.') + [','] + b
    ensures ',' !in RemoveChar(a, '.') && ',' !in b
  {
    RemoveCharAppend(a + [','], b, '.');
    RemoveCharAppend(a, [','], '.');
    assert '.' !in b && ',' !in a;
  }

  /** Trimming "a,b" removes exactly the white space around it, as "a,b"
      neither starts nor ends with white space. */
  lemma DecimalCommaTrimmed(pre: string, a: string, b: string, post: string, ws: Spaces)
    requires AllSpace(pre, ws) && AllSpace(post, ws)
    requires DottedDigits(a) && AllDigits(b)
    ensures Trim(pre + (a + [','] + b) + post, ws) == a + [','] + b
  {
    var tag := a + [','] + b;
    assert tag[0] == if a == [] then ',' else a[0];
    assert tag[|tag| - 1] == if b == [] then ',' else b[|b| - 1];
    if a != [] && a[0] != '.' {
      DigitNotSpace(a[0], ws);
    }
    if b != [] {
      DigitNotSpace(b[|b| - 1], ws);
    }
    TrimPadded(pre, tag, post, ws);
  }

}
