/** Character and string operations shared by both scraper pipelines:
    whitespace classes, trimming, character replacement, substring search,
    case folding and the decimal digits of a natural number.  */
module Text {

  /** The characters JavaScript's `\s` and `String.prototype.trim` treat as
      white space: the ECMAScript WhiteSpace and LineTerminator productions. */
  predicate IsJsSpace(c: char) {
    c in {'\t', '\n', '\U{000B}', '\U{000C}', '\r', ' ', '\U{00A0}', '\U{1680}',
          '\U{2000}', '\U{2001}', '\U{2002}', '\U{2003}', '\U{2004}', '\U{2005}',
          '\U{2006}', '\U{2007}', '\U{2008}', '\U{2009}', '\U{200A}',
          '\U{2028}', '\U{2029}', '\U{202F}', '\U{205F}', '\U{3000}', '\U{FEFF}'}
  }

  /** The characters Python's `str.strip()` removes when called without an argument. */
  predicate IsPySpace(c: char) {
    c in {'\t', '\n', '\U{000B}', '\U{000C}', '\r', '\U{001C}', '\U{001D}', '\U{001E}',
          '\U{001F}', ' ', '\U{0085}', '\U{00A0}', '\U{1680}',
          '\U{2000}', '\U{2001}', '\U{2002}', '\U{2003}', '\U{2004}', '\U{2005}',
          '\U{2006}', '\U{2007}', '\U{2008}', '\U{2009}', '\U{200A}',
          '\U{2028}', '\U{2029}', '\U{202F}', '\U{205F}', '\U{3000}'}
  }

  /** Which runtime's notion of white space applies. */
  datatype Spaces = Js | Py

  predicate IsSpace(ws: Spaces, c: char) {
    if ws == Js then IsJsSpace(c) else IsPySpace(c)
  }

  predicate IsDigit(c: char) {
    '0' <= c <= '9'
  }

  predicate AllDigits(s: string) {
    forall i :: 0 <= i < |s| ==> IsDigit(s[i])
  }

  predicate AllSpace(s: string, ws: Spaces) {
    forall i :: 0 <= i < |s| ==> IsSpace(ws, s[i])
  }

  /** The end of the run of `ws` characters that starts at `i`. */
  function SpaceRunFrom(s: string, ws: Spaces, i: nat): (k: nat)
    requires i <= |s|
    ensures i <= k <= |s|
    ensures forall j :: i <= j < k ==> IsSpace(ws, s[j])
    ensures k < |s| ==> !IsSpace(ws, s[k])
    decreases |s| - i
  {
    if i == |s| || !IsSpace(ws, s[i]) then i else SpaceRunFrom(s, ws, i + 1)
  }

  /** Drops the leading run of `ws` characters. */
  function TrimStart(s: string, ws: Spaces): (r: string)
    ensures |r| <= |s| && r == s[|s| - |r|..]
    ensures AllSpace(s[..|s| - |r|], ws)
    ensures r == [] || !IsSpace(ws, r[0])
  {
    var k := SpaceRunFrom(s, ws, 0);
    assert forall i :: 0 <= i < k ==> s[..k][i] == s[i];
    s[k..]
  }

  /** The start of the run of `ws` characters that ends at `e`. */
  function SpaceRunBefore(s: string, ws: Spaces, e: nat): (k: nat)
    requires e <= |s|
    ensures k <= e
    ensures forall j :: k <= j < e ==> IsSpace(ws, s[j])
    ensures k > 0 ==> !IsSpace(ws, s[k - 1])
  {
    if e == 0 || !IsSpace(ws, s[e - 1]) then e else SpaceRunBefore(s, ws, e - 1)
  }

  /** Removes white space at both ends: JavaScript's `trim()` with `Js`,
      Python's `strip()` with `Py`. */
  function Trim(s: string, ws: Spaces): (r: string)
    ensures r == [] <==> AllSpace(s, ws)
    ensures r != [] ==> !IsSpace(ws, r[0]) && !IsSpace(ws, r[|r| - 1])
    ensures (s == [] || (!IsSpace(ws, s[0]) && !IsSpace(ws, s[|s| - 1]))) ==> r == s
    ensures exists k :: OccursAt(s, r, k) && AllSpace(s[..k], ws) && AllSpace(s[k + |r|..], ws)
  {
    var k := SpaceRunFrom(s, ws, 0);
    var e := SpaceRunBefore(s, ws, |s|);
    if e <= k then
      assert k == |s|;
      assert OccursAt(s, [], 0) && s[..0] == [] && s[0..] == s;
      []
    else
      var r := s[k..e];
      assert r[0] == s[k] && r[|r| - 1] == s[e - 1];
      assert OccursAt(s, r, k);
      assert forall j :: 0 <= j < k ==> s[..k][j] == s[j];
      assert forall j :: 0 <= j < |s| - e ==> s[e..][j] == s[e + j];
      r
  }

  /** A text that neither starts nor ends with white space is its own trim. */
  lemma TrimNoop(s: string, ws: Spaces)
    requires s != [] && !IsSpace(ws, s[0]) && !IsSpace(ws, s[|s| - 1])
    ensures Trim(s, ws) == s
  {
  }

  /** Trimming removes exactly the white space around a text that neither
      starts nor ends with white space. */
  lemma TrimPadded(before: string, t: string, after: string, ws: Spaces)
    requires AllSpace(before, ws) && AllSpace(after, ws)
    requires t != [] && !IsSpace(ws, t[0]) && !IsSpace(ws, t[|t| - 1])
    ensures Trim(before + t + after, ws) == t
  {
    var s := before + t + after;
    var n := |before| + |t|;
    assert forall j :: 0 <= j < |before| ==> s[j] == before[j];
    assert forall j :: n <= j < |s| ==> s[j] == after[j - n];
    assert s[|before|] == t[0] && s[n - 1] == t[|t| - 1];
    assert SpaceRunFrom(s, ws, 0) == |before|;
    assert SpaceRunBefore(s, ws, |s|) == n;
    assert s[|before|..n] == t;
  }

  /** No digit is white space. */
  lemma DigitNotSpace(c: char, ws: Spaces)
    requires IsDigit(c)
    ensures !IsSpace(ws, c)
  {
  }

  /** Trimming keeps only characters of the original. */
  lemma TrimKeeps(s: string, ws: Spaces, c: char)
    requires c in Trim(s, ws)
    ensures c in s
  {
    var r := Trim(s, ws);
    var k :| OccursAt(s, r, k);
    var i :| 0 <= i < |r| && r[i] == c;
    assert s[k + i] == r[i];
  }

  /** Trimming twice is trimming once. */
  lemma TrimIdempotent(s: string, ws: Spaces)
    ensures Trim(Trim(s, ws), ws) == Trim(s, ws)
  {
  }

  /** `s` with every occurrence of `c` deleted (`replace(/\./g, "")`, `replace(".", "")`). */
  function RemoveChar(s: string, c: char): (r: string)
    ensures |r| <= |s|
    ensures forall x :: x in r <==> x in s && x != c
    ensures c !in s ==> r == s
  {
    if s == [] then []
    else (if s[0] == c then [] else [s[0]]) + RemoveChar(s[1..], c)
  }

  /** Deleting a character distributes over concatenation. */
  lemma {:induction false} RemoveCharAppend(a: string, b: string, c: char)
    ensures RemoveChar(a + b, c) == RemoveChar(a, c) + RemoveChar(b, c)
  {
    if a == [] {
      assert a + b == b;
    } else {
      var head := if a[0] == c then [] else [a[0]];
      assert (a + b)[0] == a[0];
      assert (a + b)[1..] == a[1..] + b;
      assert RemoveChar(a + b, c) == head + RemoveChar(a[1..] + b, c);
      RemoveCharAppend(a[1..], b, c);
      Associative(head, RemoveChar(a[1..], c), RemoveChar(b, c));
    }
  }

  /** `s` with every occurrence of `a` replaced by `b` (Python `str.replace` on one character). */
  function ReplaceChar(s: string, a: char, b: char): (r: string)
    ensures |r| == |s|
    ensures forall i :: 0 <= i < |s| ==> r[i] == (if s[i] == a then b else s[i])
  {
    if s == [] then []
    else [if s[0] == a then b else s[0]] + ReplaceChar(s[1..], a, b)
  }

  /** After replacing every `a` by `b` no `a` is left, and a `b` is present
      only if `s` had an `a` or a `b`. */
  lemma ReplaceCharMembers(s: string, a: char, b: char)
    ensures a != b ==> a !in ReplaceChar(s, a, b)
    ensures b in ReplaceChar(s, a, b) ==> a in s || b in s
  {
    var r := ReplaceChar(s, a, b);
    if b in r {
      var i :| 0 <= i < |r| && r[i] == b;
      assert s[i] == a || s[i] == b;
    }
  }

  /** Replacing a separator that occurs once, between two parts that lack it,
      changes only that separator. */
  lemma ReplaceCharSeparator(a: string, b: string, x: char, y: char)
    requires x !in a && x !in b
    ensures ReplaceChar(a + [x] + b, x, y) == a + [y] + b
  {
    var s, r, want := a + [x] + b, ReplaceChar(a + [x] + b, x, y), a + [y] + b;
    forall i | 0 <= i < |r| ensures r[i] == want[i] {
      if i < |a| {
        assert s[i] == a[i] && want[i] == a[i];
      } else if i > |a| {
        assert s[i] == b[i - |a| - 1] && want[i] == b[i - |a| - 1];
      }
    }
  }

  /** Index of the first occurrence of `a` in `s`. */
  function FirstIndex(s: string, a: char): (i: nat)
    requires a in s
    ensures i < |s| && s[i] == a && a !in s[..i]
  {
    if s[0] == a then 0 else 1 + FirstIndex(s[1..], a)
  }

  /** `s` with only its first occurrence of `a` replaced by `b`
      (JavaScript `String.prototype.replace` with a string pattern). */
  function ReplaceFirst(s: string, a: char, b: char): (r: string)
    ensures |r| == |s|
    ensures a !in s ==> r == s
    ensures a in s ==> exists i :: 0 <= i < |s| && s[i] == a && a !in s[..i] && r == s[..i] + [b] + s[i + 1..]
  {
    if a in s then
      var i := FirstIndex(s, a);
      s[..i] + [b] + s[i + 1..]
    else s
  }

  /** Replacing the first `a` by a character `b` that `s` lacks leaves at most
      one `b`, and one only if `s` had an `a`. */
  lemma ReplaceFirstSingle(s: string, a: char, b: char)
    requires b !in s
    ensures var r := ReplaceFirst(s, a, b);
            && (forall i, j :: 0 <= i < j < |r| && r[i] == b ==> r[j] != b)
            && (b in r ==> a in s)
  {
    var r := ReplaceFirst(s, a, b);
    if a in s {
      var k := FirstIndex(s, a);
      assert r == s[..k] + [b] + s[k + 1..];
      forall i | 0 <= i < |r| && i != k ensures r[i] == s[i] {
        if i < k {
          assert r[i] == s[..k][i];
        }
      }
    }
  }

  /** Replacing the first `x` of a text with a single `x` replaces that one. */
  lemma ReplaceFirstSeparator(a: string, b: string, x: char, y: char)
    requires x !in a && x !in b
    ensures ReplaceFirst(a + [x] + b, x, y) == a + [y] + b
  {
    var s := a + [x] + b;
    FirstIndexAfter(a, [x] + b, x);
    assert s == a + ([x] + b);
    assert s[..|a|] == a && s[|a| + 1..] == b;
  }

  /** The first `x` of `a + t` is the first of `t` when `a` has none. */
  lemma {:induction false} FirstIndexAfter(a: string, t: string, x: char)
    requires x !in a && x in t
    ensures FirstIndex(a + t, x) == |a| + FirstIndex(t, x)
  {
    if a != [] {
      assert (a + t)[0] == a[0];
      assert (a + t)[1..] == a[1..] + t;
      FirstIndexAfter(a[1..], t, x);
    } else {
      assert a + t == t;
    }
  }

  /** With at most one occurrence of `a`, replacing the first one replaces them all. */
  lemma ReplaceFirstIsReplaceAll(s: string, a: char, b: char)
    requires forall i, j :: 0 <= i < j < |s| && s[i] == a ==> s[j] != a
    ensures ReplaceFirst(s, a, b) == ReplaceChar(s, a, b)
  {
    var r, q := ReplaceFirst(s, a, b), ReplaceChar(s, a, b);
    if a in s {
      var i := FirstIndex(s, a);
      var left, right := s[..i], s[i + 1..];
      assert r == left + [b] + right;
      forall k | 0 <= k < |s| ensures r[k] == q[k] {
        if k < i {
          assert r[k] == left[k] == s[k] && s[k] in left;
        } else if k > i {
          assert r[k] == right[k - i - 1] == s[k];
        }
      }
    }
  }

  /** `t` occurs in `s` starting at position `i`. */
  predicate OccursAt(s: string, t: string, i: int) {
    0 <= i <= |s| - |t| && s[i..i + |t|] == t
  }

  /** Substring test (Python's `t in s`). */
  function Contains(s: string, t: string): (b: bool)
    ensures b <==> exists i :: OccursAt(s, t, i)
    decreases |s|
  {
    if t <= s then
      assert OccursAt(s, t, 0);
      true
    else if |s| <= |t| then
      assert forall i :: !OccursAt(s, t, i) by {
        forall i | 0 <= i <= |s| - |t| ensures !OccursAt(s, t, i) {
          assert i == 0 && |s| == |t|;
        }
      }
      false
    else
      var b := Contains(s[1..], t);
      if b then
        var i :| OccursAt(s[1..], t, i);
        assert s[1..][i..i + |t|] == s[i + 1..i + 1 + |t|];
        assert OccursAt(s, t, i + 1);
        true
      else
        assert forall i :: !OccursAt(s, t, i) by {
          forall i | OccursAt(s, t, i) && i > 0 ensures false {
            assert s[1..][i - 1..i - 1 + |t|] == s[i..i + |t|];
            assert OccursAt(s[1..], t, i - 1);
          }
        }
        false
  }

  /** Replaces every maximal run of `ws` characters by the single character `sep`
      (JavaScript `replace(/\s+/g, "-")` with `Js`). */
  function ReplaceRuns(s: string, ws: Spaces, sep: char): (r: string)
    requires !IsSpace(ws, sep)
    ensures forall i :: 0 <= i < |r| ==> !IsSpace(ws, r[i])
    ensures |r| <= |s|
    ensures (forall i :: 0 <= i < |s| ==> !IsSpace(ws, s[i])) ==> r == s
    decreases |s|
  {
    if s == [] then []
    else if IsSpace(ws, s[0]) then [sep] + ReplaceRuns(TrimStart(s, ws), ws, sep)
    else [s[0]] + ReplaceRuns(s[1..], ws, sep)
  }

  /** Dropping the leading white space of a text that is not all white space
      is unaffected by what follows it. */
  lemma TrimStartAppend(a: string, t: string, ws: Spaces, i: nat)
    requires i < |a| && !IsSpace(ws, a[i])
    ensures TrimStart(a + t, ws) == TrimStart(a, ws) + t
    ensures TrimStart(a, ws) != [] && TrimStart(a, ws)[|TrimStart(a, ws)| - 1] == a[|a| - 1]
  {
    var k1, k2 := SpaceRunFrom(a, ws, 0), SpaceRunFrom(a + t, ws, 0);
    assert k1 <= i;
    assert (a + t)[k1] == a[k1];
    assert k2 == k1;
    assert (a + t)[k1..] == a[k1..] + t;
  }

  /** A white-space run is dropped up to the first character that is not white space. */
  lemma TrimStartRun(w: string, b: string, ws: Spaces)
    requires AllSpace(w, ws)
    requires b == [] || !IsSpace(ws, b[0])
    ensures TrimStart(w + b, ws) == b
  {
    var k := SpaceRunFrom(w + b, ws, 0);
    assert forall j :: 0 <= j < |w| ==> (w + b)[j] == w[j];
    assert |w| < |w + b| ==> (w + b)[|w|] == b[0];
    assert k == |w|;
    assert (w + b)[|w|..] == b;
  }

  /** `ReplaceRuns` turns a white-space run between two pieces that do not
      touch it into exactly one `sep`, and treats the pieces separately. */
  lemma ReplaceRunsJoin(a: string, w: string, b: string, ws: Spaces, sep: char)
    requires !IsSpace(ws, sep)
    requires a == [] || !IsSpace(ws, a[|a| - 1])
    requires w != [] && AllSpace(w, ws)
    requires b == [] || !IsSpace(ws, b[0])
    ensures ReplaceRuns(a + w + b, ws, sep) == ReplaceRuns(a, ws, sep) + [sep] + ReplaceRuns(b, ws, sep)
  {
    assert (w + b)[0] == w[0];
    ReplaceRunsPrefix(a, w + b, ws, sep);
    ReplaceRunsLead(w, b, ws, sep);
    Associative(a, w, b);
    Associative(ReplaceRuns(a, ws, sep), [sep], ReplaceRuns(b, ws, sep));
  }

  lemma Associative<T>(x: seq<T>, y: seq<T>, z: seq<T>)
    ensures x + (y + z) == x + y + z
  {
  }

  /** Cutting a text where a character that is not white space meets white
      space cuts its `ReplaceRuns` there too. */
  lemma {:induction false} ReplaceRunsPrefix(a: string, r: string, ws: Spaces, sep: char)
    requires !IsSpace(ws, sep)
    requires a == [] || !IsSpace(ws, a[|a| - 1])
    requires r == [] || IsSpace(ws, r[0])
    ensures ReplaceRuns(a + r, ws, sep) == ReplaceRuns(a, ws, sep) + ReplaceRuns(r, ws, sep)
    decreases |a|
  {
    if a == [] {
      assert a + r == r;
    } else if IsSpace(ws, a[0]) {
      TrimStartAppend(a, r, ws, |a| - 1);
      var t := TrimStart(a, ws);
      ReplaceRunsPrefix(t, r, ws, sep);
      PrefixSpaceStep(a, r, t, ws, sep);
    } else {
      assert a[1..] == [] || a[1..][|a[1..]| - 1] == a[|a| - 1];
      ReplaceRunsPrefix(a[1..], r, ws, sep);
      PrefixCharStep(a, r, ws, sep);
    }
  }

  /** The step of `ReplaceRunsPrefix` past a leading white-space run. */
  lemma PrefixSpaceStep(a: string, r: string, t: string, ws: Spaces, sep: char)
    requires !IsSpace(ws, sep) && a != [] && IsSpace(ws, a[0])
    requires t == TrimStart(a, ws) && TrimStart(a + r, ws) == t + r
    requires ReplaceRuns(t + r, ws, sep) == ReplaceRuns(t, ws, sep) + ReplaceRuns(r, ws, sep)
    ensures ReplaceRuns(a + r, ws, sep) == ReplaceRuns(a, ws, sep) + ReplaceRuns(r, ws, sep)
  {
    assert (a + r)[0] == a[0];
    ReplaceRunsSpaceHead(a + r, ws, sep);
    ReplaceRunsSpaceHead(a, ws, sep);
    Associative([sep], ReplaceRuns(t, ws, sep), ReplaceRuns(r, ws, sep));
  }

  /** The step of `ReplaceRunsPrefix` past a leading character that is not white space. */
  lemma PrefixCharStep(a: string, r: string, ws: Spaces, sep: char)
    requires !IsSpace(ws, sep) && a != [] && !IsSpace(ws, a[0])
    requires ReplaceRuns(a[1..] + r, ws, sep) == ReplaceRuns(a[1..], ws, sep) + ReplaceRuns(r, ws, sep)
    ensures ReplaceRuns(a + r, ws, sep) == ReplaceRuns(a, ws, sep) + ReplaceRuns(r, ws, sep)
  {
    var h, t := a[0], a[1..];
    assert a == [h] + t;
    Associative([h], t, r);
    ReplaceRunsCons(h, t + r, ws, sep);
    ReplaceRunsCons(h, t, ws, sep);
    Associative([h], ReplaceRuns(t, ws, sep), ReplaceRuns(r, ws, sep));
  }

  /** A leading white-space run becomes one `sep`. */
  lemma {:induction false} ReplaceRunsLead(w: string, b: string, ws: Spaces, sep: char)
    requires !IsSpace(ws, sep)
    requires w != [] && AllSpace(w, ws)
    requires b == [] || !IsSpace(ws, b[0])
    ensures ReplaceRuns(w + b, ws, sep) == [sep] + ReplaceRuns(b, ws, sep)
  {
    assert (w + b)[0] == w[0];
    TrimStartRun(w, b, ws);
    ReplaceRunsSpaceHead(w + b, ws, sep);
  }

  lemma ReplaceRunsSpaceHead(s: string, ws: Spaces, sep: char)
    requires !IsSpace(ws, sep) && s != [] && IsSpace(ws, s[0])
    ensures ReplaceRuns(s, ws, sep) == [sep] + ReplaceRuns(TrimStart(s, ws), ws, sep)
  {
  }

  /** A character that is not white space is kept in front of the rest. */
  lemma ReplaceRunsCons(h: char, s: string, ws: Spaces, sep: char)
    requires !IsSpace(ws, sep) && !IsSpace(ws, h)
    ensures ReplaceRuns([h] + s, ws, sep) == [h] + ReplaceRuns(s, ws, sep)
  {
  }

  /** The ASCII alphabet in capitals and in small letters. */
  const AsciiCapitals: string := "ABCDEFGHIJKLMNOPQRSTUVWXYZ"
  const AsciiSmalls: string := "abcdefghijklmnopqrstuvwxyz"

  /** The Latin-1 capitals U+00C0 to U+00DE without the multiplication sign
      U+00D7, and their small letters at the same index. */
  const Latin1Capitals: string := "\U{00C0}\U{00C1}\U{00C2}\U{00C3}\U{00C4}\U{00C5}\U{00C6}\U{00C7}\U{00C8}\U{00C9}\U{00CA}\U{00CB}\U{00CC}\U{00CD}\U{00CE}\U{00CF}\U{00D0}\U{00D1}\U{00D2}\U{00D3}\U{00D4}\U{00D5}\U{00D6}\U{00D8}\U{00D9}\U{00DA}\U{00DB}\U{00DC}\U{00DD}\U{00DE}"
  const Latin1Smalls: string := "\U{00E0}\U{00E1}\U{00E2}\U{00E3}\U{00E4}\U{00E5}\U{00E6}\U{00E7}\U{00E8}\U{00E9}\U{00EA}\U{00EB}\U{00EC}\U{00ED}\U{00EE}\U{00EF}\U{00F0}\U{00F1}\U{00F2}\U{00F3}\U{00F4}\U{00F5}\U{00F6}\U{00F8}\U{00F9}\U{00FA}\U{00FB}\U{00FC}\U{00FD}\U{00FE}"

  /** Lower-case of one character: an ASCII capital becomes the small letter
      of the same place in the alphabet, a Latin-1 capital the small letter
      32 code points above it, and every other character is kept. */
  function LowerChar(c: char): (d: char)
    ensures 'A' <= c <= 'Z' ==> d == AsciiSmalls[c as int - 'A' as int]
    ensures '\U{00C0}' <= c <= '\U{00DE}' && c != '\U{00D7}' ==> d as int == c as int + 32
    ensures !('A' <= c <= 'Z') && !('\U{00C0}' <= c <= '\U{00DE}') ==> d == c
    ensures c == '\U{00D7}' ==> d == c
  {
    if 'A' <= c <= 'Z' || ('\U{00C0}' <= c <= '\U{00DE}' && c != '\U{00D7}') then
      (c as int + 32) as char
    else c
  }

  /** JavaScript `toLowerCase`, restricted to ASCII and Latin-1 letters. */
  function ToLower(s: string): (r: string)
    ensures |r| == |s|
    ensures forall i :: 0 <= i < |s| ==> r[i] == LowerChar(s[i])
    ensures forall i :: 0 <= i < |r| ==> !('A' <= r[i] <= 'Z')
  {
    if s == [] then [] else [LowerChar(s[0])] + ToLower(s[1..])
  }

  /** The capitals of the ASCII alphabet lower-case to its small letters. */
  lemma AsciiAlphabetLowered()
    ensures ToLower(AsciiCapitals) == AsciiSmalls
  {
    forall i | 0 <= i < |AsciiCapitals| ensures LowerChar(AsciiCapitals[i]) == AsciiSmalls[i] {
      assert AsciiCapitals[i] as int - 'A' as int == i;
    }
    LowersTo(AsciiCapitals, AsciiSmalls);
  }

  /** The Latin-1 capitals lower-case to the small letters of the same row. */
  lemma Latin1Lowered()
    ensures ToLower(Latin1Capitals) == Latin1Smalls
  {
    forall i | 0 <= i < |Latin1Capitals| ensures LowerChar(Latin1Capitals[i]) == Latin1Smalls[i] {
      assert Latin1Smalls[i] as int == Latin1Capitals[i] as int + 32;
    }
    LowersTo(Latin1Capitals, Latin1Smalls);
  }

  lemma LowersTo(s: string, t: string)
    requires |s| == |t| && forall i :: 0 <= i < |s| ==> LowerChar(s[i]) == t[i]
    ensures ToLower(s) == t
  {
  }

  /** Lower-casing distributes over concatenation. */
  lemma {:induction false} ToLowerAppend(a: string, b: string)
    ensures ToLower(a + b) == ToLower(a) + ToLower(b)
  {
    var l, la, lb := ToLower(a + b), ToLower(a), ToLower(b);
    forall i | 0 <= i < |l| ensures l[i] == (la + lb)[i] {
      if i < |a| {
        assert (a + b)[i] == a[i] && (la + lb)[i] == la[i];
      } else {
        assert (a + b)[i] == b[i - |a|] && (la + lb)[i] == lb[i - |a|];
      }
    }
  }

  /** Keeps only the ASCII digits of `s` (`replace(/[^\d]/g, "")`, `re.sub(r"[^\d]", "", s)`). */
  function KeepDigits(s: string): (r: string)
    ensures AllDigits(r)
    ensures |r| <= |s|
    ensures AllDigits(s) ==> r == s
    ensures forall c :: c in r <==> c in s && IsDigit(c)
  {
    if s == [] then []
    else (if IsDigit(s[0]) then [s[0]] else []) + KeepDigits(s[1..])
  }

  /** Keeping the digits distributes over concatenation. */
  lemma {:induction false} KeepDigitsAppend(a: string, b: string)
    ensures KeepDigits(a + b) == KeepDigits(a) + KeepDigits(b)
  {
    if a == [] {
      assert a + b == b;
    } else {
      assert (a + b)[0] == a[0];
      assert (a + b)[1..] == a[1..] + b;
      KeepDigitsAppend(a[1..], b);
    }
  }

  /** A text without digits keeps nothing. */
  lemma {:induction false} KeepDigitsNone(s: string)
    requires forall i :: 0 <= i < |s| ==> !IsDigit(s[i])
    ensures KeepDigits(s) == []
  {
    if s != [] {
      KeepDigitsNone(s[1..]);
    }
  }

  /** The digits of a number followed by a text without digits are the
      number's own. */
  lemma FigureDigits(n: nat, unit: string)
    requires forall i :: 0 <= i < |unit| ==> !IsDigit(unit[i])
    ensures KeepDigits(NatToString(n) + unit) == NatToString(n)
  {
    KeepDigitsAppend(NatToString(n), unit);
    KeepDigitsNone(unit);
    assert NatToString(n) + [] == NatToString(n);
  }

  function DigitValue(c: char): (v: nat)
    requires IsDigit(c)
    ensures v < 10
  {
    c as int - '0' as int
  }

  function DigitChar(v: nat): (c: char)
    requires v < 10
    ensures IsDigit(c) && DigitValue(c) == v
  {
    (v + '0' as int) as char
  }

  /** The number a string of decimal digits denotes (most significant digit first). */
  function DigitsValue(s: string): nat
    requires AllDigits(s)
  {
    if s == [] then 0
    else DigitsValue(s[..|s| - 1]) * 10 + DigitValue(s[|s| - 1])
  }

  /** Decimal notation of a natural number, as JavaScript template literals and
      Python f-strings print an integer. */
  function NatToString(n: nat): (s: string)
    ensures AllDigits(s) && |s| > 0
    ensures |s| > 1 ==> s[0] != '0'
  {
    if n < 10 then [DigitChar(n)] else NatToString(n / 10) + [DigitChar(n % 10)]
  }

  /** Printing a number and reading it back gives the number. */
  lemma {:induction false} NatToStringRoundTrip(n: nat)
    ensures DigitsValue(NatToString(n)) == n
  {
    if n >= 10 {
      var s := NatToString(n);
      assert s[..|s| - 1] == NatToString(n / 10);
      NatToStringRoundTrip(n / 10);
    }
  }

  /** Distinct numbers print differently. */
  lemma NatToStringInjective(m: nat, n: nat)
    requires NatToString(m) == NatToString(n)
    ensures m == n
  {
    NatToStringRoundTrip(m);
    NatToStringRoundTrip(n);
  }
}
