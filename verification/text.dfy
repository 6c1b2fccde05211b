/**
 * The JavaScript string operations the pixel-specification parser relies on:
 * substring search, `split`, removing spaces, `slice`, and `Number(...)`.
 */
module Text {
  import opened Wrappers

  /** `pat` occurs in `s` starting at index `i`. */
  predicate OccursAt(s: string, pat: string, i: int) {
    0 <= i && i + |pat| <= |s| && s[i..i + |pat|] == pat
  }

  /** The first index at or after `from` where `pat` occurs, as `indexOf(pat, from)` finds it. */
  function FindFrom(s: string, pat: string, from: nat): (r: Option<nat>)
    ensures r.Some? ==> from <= r.value && OccursAt(s, pat, r.value)
    ensures r.Some? ==> forall i :: from <= i < r.value ==> !OccursAt(s, pat, i)
    ensures r.None? ==> forall i :: from <= i ==> !OccursAt(s, pat, i)
    decreases |s| - from
  {
    if from + |pat| > |s| then None
    else if s[from..from + |pat|] == pat then Some(from)
    else FindFrom(s, pat, from + 1)
  }

  /** A match found in `s` is found at the same place in any extension `s + t`. */
  lemma FindFromExtend(s: string, t: string, pat: string, from: nat)
    requires FindFrom(s, pat, from).Some?
    ensures FindFrom(s + t, pat, from) == FindFrom(s, pat, from)
  {
    var k := FindFrom(s, pat, from).value;
    assert (s + t)[k..k + |pat|] == s[k..k + |pat|];
    assert OccursAt(s + t, pat, k);
    forall i | from <= i < k
      ensures !OccursAt(s + t, pat, i)
    {
      assert !OccursAt(s, pat, i);
      assert (s + t)[i..i + |pat|] == s[i..i + |pat|];
    }
  }

  /** The first index at or after `from` holding the character `c`. */
  function FindChar(s: string, c: char, from: nat): (r: Option<nat>)
    ensures r.Some? ==> from <= r.value < |s| && s[r.value] == c
    ensures r.Some? ==> forall i :: from <= i < r.value ==> s[i] != c
    ensures r.None? ==> forall i :: from <= i < |s| ==> s[i] != c
    decreases |s| - from
  {
    if from >= |s| then None
    else if s[from] == c then Some(from)
    else FindChar(s, c, from + 1)
  }

  /** `parts` joined with `sep` between consecutive parts (`Array.prototype.join`). */
  function Join(parts: seq<string>, sep: char): string
  {
    if |parts| == 0 then ""
    else if |parts| == 1 then parts[0]
    else parts[0] + [sep] + Join(parts[1..], sep)
  }

  /** `s.split(sep)` for a one-character separator: the empty string splits into one empty part. */
  function Split(s: string, sep: char): (r: seq<string>)
    ensures |r| >= 1
    ensures forall i :: 0 <= i < |r| ==> sep !in r[i]
  {
    if |s| == 0 then [""]
    else
      var rest := Split(s[1..], sep);
      if s[0] == sep then
        [""] + rest
      else
        [[s[0]] + rest[0]] + rest[1..]
  }

  /** Joining the pieces of a split with the separator gives back the text. */
  lemma {:induction false} JoinSplit(s: string, sep: char)
    ensures Join(Split(s, sep), sep) == s
    decreases |s|
  {
    if |s| > 0 {
      var rest := Split(s[1..], sep);
      JoinSplit(s[1..], sep);
      if s[0] == sep {
        assert ([""] + rest)[1..] == rest;
      } else {
        var r := [[s[0]] + rest[0]] + rest[1..];
        assert |rest| > 1 ==> Join(rest, sep) == rest[0] + [sep] + Join(rest[1..], sep);
        assert |rest| > 1 ==> r[1..] == rest[1..];
      }
    }
  }

  /** A piece free of the separator is not split. */
  lemma {:induction false} SplitNoSeparator(s: string, sep: char)
    requires sep !in s
    ensures Split(s, sep) == [s]
    decreases |s|
  {
    if |s| > 0 {
      SplitNoSeparator(s[1..], sep);
      assert [s[0]] + s[1..] == s;
    }
  }

  /** Splitting `a + sep + b` yields `a` followed by the pieces of `b`, when `a` holds no separator. */
  lemma {:induction false} SplitAfterPiece(a: string, sep: char, b: string)
    requires sep !in a
    ensures Split(a + [sep] + b, sep) == [a] + Split(b, sep)
    decreases |a|
  {
    var s := a + [sep] + b;
    if |a| == 0 {
      assert s == [sep] + b;
      assert s[1..] == b;
    } else {
      SplitAfterPiece(a[1..], sep, b);
      assert s[0] == a[0] && s[0] != sep;
      assert s[1..] == a[1..] + [sep] + b;
      var rest := Split(s[1..], sep);
      assert rest == [a[1..]] + Split(b, sep);
      assert Split(s, sep) == [[a[0]] + rest[0]] + rest[1..];
      assert rest[1..] == Split(b, sep);
      assert [a[0]] + a[1..] == a;
    }
  }

  /** Splitting `x + sep + y` yields the pieces of `x` followed by `y`, when `y` holds no separator. */
  lemma {:induction false} SplitBeforeLast(x: string, sep: char, y: string)
    requires sep !in y
    ensures Split(x + [sep] + y, sep) == Split(x, sep) + [y]
    decreases |x|
  {
    if |x| == 0 {
      assert x + [sep] + y == [sep] + y;
      assert ([sep] + y)[1..] == y;
      SplitNoSeparator(y, sep);
    } else {
      SplitBeforeLast(x[1..], sep, y);
      assert (x + [sep] + y)[1..] == x[1..] + [sep] + y;
    }
  }

  /** Split is the inverse of Join on parts that do not contain the separator. */
  lemma {:induction false} SplitJoin(parts: seq<string>, sep: char)
    requires |parts| >= 1
    requires forall i :: 0 <= i < |parts| ==> sep !in parts[i]
    ensures Split(Join(parts, sep), sep) == parts
    decreases |parts|
  {
    if |parts| == 1 {
      SplitNoSeparator(parts[0], sep);
    } else {
      SplitJoin(parts[1..], sep);
      SplitAfterPiece(parts[0], sep, Join(parts[1..], sep));
      assert [parts[0]] + parts[1..] == parts;
    }
  }

  /** A split yields one piece more than the text has separators. */
  lemma {:induction false} SplitCount(s: string, sep: char)
    ensures |Split(s, sep)| == multiset(s)[sep] + 1
    decreases |s|
  {
    if |s| > 0 {
      SplitCount(s[1..], sep);
      assert s == [s[0]] + s[1..];
    }
  }

  /** `s.replace(/ /g, "")`: every space removed, every other character kept in order. */
  function RemoveSpaces(s: string): (r: string)
    ensures ' ' !in r
    ensures |r| <= |s|
  {
    if |s| == 0 then ""
    else if s[0] == ' ' then RemoveSpaces(s[1..]) else [s[0]] + RemoveSpaces(s[1..])
  }

  /** Exactly the spaces go: every other character keeps its number of occurrences. */
  lemma {:induction false} RemoveSpacesContent(s: string)
    ensures multiset(RemoveSpaces(s)) == multiset(s)[' ' := 0]
    decreases |s|
  {
    if |s| > 0 {
      RemoveSpacesContent(s[1..]);
      assert s == [s[0]] + s[1..];
    }
  }

  /** Removing spaces distributes over concatenation. */
  lemma {:induction false} RemoveSpacesConcat(a: string, b: string)
    ensures RemoveSpaces(a + b) == RemoveSpaces(a) + RemoveSpaces(b)
    decreases |a|
  {
    if |a| > 0 {
      RemoveSpacesConcat(a[1..], b);
      assert (a + b)[1..] == a[1..] + b;
    } else {
      assert a + b == b;
    }
  }

  /** A string without spaces is left as it is. */
  lemma {:induction false} RemoveSpacesNoSpace(s: string)
    requires ' ' !in s
    ensures RemoveSpaces(s) == s
    decreases |s|
  {
    if |s| > 0 {
      RemoveSpacesNoSpace(s[1..]);
      assert [s[0]] + s[1..] == s;
    }
  }

  /** Removing spaces piece by piece and joining is removing spaces from the joined text. */
  lemma {:induction false} RemoveSpacesJoin(parts: seq<string>, cleaned: seq<string>, sep: char)
    requires sep != ' ' && |cleaned| == |parts|
    requires forall i :: 0 <= i < |parts| ==> cleaned[i] == RemoveSpaces(parts[i])
    ensures Join(cleaned, sep) == RemoveSpaces(Join(parts, sep))
    decreases |parts|
  {
    if |parts| > 1 {
      RemoveSpacesJoin(parts[1..], cleaned[1..], sep);
      RemoveSpacesConcat(parts[0] + [sep], Join(parts[1..], sep));
      RemoveSpacesConcat(parts[0], [sep]);
      RemoveSpacesNoSpace([sep]);
    }
  }

  /** `s.slice(n)`: everything after the first `n` characters, or "" when `s` is shorter. */
  function Drop(s: string, n: nat): (r: string)
    ensures n <= |s| ==> |r| == |s| - n && s[..n] + r == s
    ensures |s| < n ==> r == ""
  {
    if n <= |s| then s[n..] else ""
  }

  /** `s.slice(0, -1)`: `s` without its last character, or "" when `s` is empty. */
  function DropLast(s: string): (r: string)
    ensures |s| > 0 ==> r + [s[|s| - 1]] == s
    ensures |s| == 0 ==> r == ""
  {
    if |s| == 0 then "" else s[..|s| - 1]
  }

  /** The ASCII white-space characters that `Number(...)` ignores around its argument. */
  predicate IsWhiteSpace(c: char) {
    c == ' ' || c == '\t' || c == '\n' || c == '\r' || c == '\U{000B}' || c == '\U{000C}'
  }

  predicate AllWhiteSpace(s: string) {
    forall i :: 0 <= i < |s| ==> IsWhiteSpace(s[i])
  }

  /** `s` without its leading white space: a suffix of `s` that starts with no white space. */
  function TrimStart(s: string): (r: string)
    ensures |r| <= |s| && r == s[|s| - |r|..]
    ensures forall i :: 0 <= i < |s| - |r| ==> IsWhiteSpace(s[i])
    ensures |r| > 0 ==> !IsWhiteSpace(r[0])
  {
    if |s| > 0 && IsWhiteSpace(s[0]) then TrimStart(s[1..]) else s
  }

  /** `s` without its trailing white space: a prefix of `s` that ends with no white space. */
  function TrimEnd(s: string): (r: string)
    ensures |r| <= |s| && r == s[..|r|]
    ensures forall i :: |r| <= i < |s| ==> IsWhiteSpace(s[i])
    ensures |r| > 0 ==> !IsWhiteSpace(r[|r| - 1])
  {
    if |s| > 0 && IsWhiteSpace(s[|s| - 1]) then TrimEnd(s[..|s| - 1]) else s
  }

  /** `s.trim()` on ASCII white space. */
  function Trim(s: string): string
  {
    TrimEnd(TrimStart(s))
  }

  /** The trimmed text is empty exactly when `s` is all white space, and otherwise has no white space at either end. */
  lemma TrimEdges(s: string)
    ensures Trim(s) == "" <==> AllWhiteSpace(s)
    ensures |Trim(s)| > 0 ==> !IsWhiteSpace(Trim(s)[0]) && !IsWhiteSpace(Trim(s)[|Trim(s)| - 1])
  {
    var u := TrimStart(s);
    var t := TrimEnd(u);
    if |u| > 0 {
      assert |t| > 0 ==> t[0] == u[0];
      assert !IsWhiteSpace(u[0]);
      assert |t| > 0;
    } else {
      assert forall i :: 0 <= i < |s| ==> IsWhiteSpace(s[i]);
    }
  }

  /** Leading white space does not change where the text proper starts. */
  lemma {:induction false} TrimStartPadded(w: string, x: string)
    requires AllWhiteSpace(w)
    ensures TrimStart(w + x) == TrimStart(x)
    decreases |w|
  {
    if |w| > 0 {
      assert (w + x)[0] == w[0];
      assert (w + x)[1..] == w[1..] + x;
      TrimStartPadded(w[1..], x);
    } else {
      assert w + x == x;
    }
  }

  /** Trailing white space does not change where the text proper ends. */
  lemma {:induction false} TrimEndPadded(x: string, w: string)
    requires AllWhiteSpace(w)
    ensures TrimEnd(x + w) == TrimEnd(x)
    decreases |w|
  {
    if |w| > 0 {
      assert (x + w)[|x + w| - 1] == w[|w| - 1];
      assert (x + w)[..|x + w| - 1] == x + w[..|w| - 1];
      TrimEndPadded(x, w[..|w| - 1]);
    } else {
      assert x + w == x;
    }
  }

  /** Padding a text with white space on both sides does not change its trimmed form. */
  lemma TrimPadded(w1: string, x: string, w2: string)
    requires AllWhiteSpace(w1) && AllWhiteSpace(w2)
    requires |x| > 0 && !IsWhiteSpace(x[0]) && !IsWhiteSpace(x[|x| - 1])
    ensures Trim(w1 + x + w2) == x
  {
    TrimStartPadded(w1, x + w2);
    assert w1 + x + w2 == w1 + (x + w2);
    assert TrimStart(x + w2) == x + w2 by {
      assert (x + w2)[0] == x[0];
    }
    TrimEndPadded(x, w2);
  }

  predicate IsDigit(c: char) {
    '0' <= c <= '9'
  }

  predicate AllDigits(s: string) {
    forall i :: 0 <= i < |s| ==> IsDigit(s[i])
  }

  /** The value of a string of decimal digits (most significant first). */
  function DecimalValue(s: string): nat
    requires AllDigits(s)
  {
    if |s| == 0 then 0
    else DecimalValue(s[..|s| - 1]) * 10 + (s[|s| - 1] as int - '0' as int)
  }

  /** The decimal numeral of `n` without leading zeros. */
  function DecimalString(n: nat): (r: string)
    ensures |r| >= 1 && AllDigits(r)
  {
    var digit := ('0' as int + n % 10) as char;
    if n < 10 then [digit] else DecimalString(n / 10) + [digit]
  }

  /** The decimal numeral of `n` reads back as `n`. */
  lemma {:induction false} DecimalRoundTrip(n: nat)
    ensures DecimalValue(DecimalString(n)) == n
  {
    var s := DecimalString(n);
    if n >= 10 {
      DecimalRoundTrip(n / 10);
      assert s[..|s| - 1] == DecimalString(n / 10);
    }
  }

  /** A JavaScript number as far as the parser needs it: an integer, or NaN. */
  datatype JsNumber = Num(value: int) | NaN

  /** An optionally signed, nonempty run of decimal digits. */
  predicate IntegerNumeral(t: string) {
    || (|t| > 0 && AllDigits(t))
    || (|t| > 1 && (t[0] == '-' || t[0] == '+') && AllDigits(t[1..]))
  }

  /**
   * `Number(s)` on the forms a declaration argument takes: surrounding white space is
   * ignored, the empty string is 0, an optionally signed run of decimal digits is that
   * integer, and everything else is NaN.
   */
  function StrToNumber(s: string): (r: JsNumber)
    ensures r.NaN? <==> Trim(s) != "" && !IntegerNumeral(Trim(s))
    ensures AllWhiteSpace(s) ==> r == Num(0)
    ensures AllDigits(s) && |s| > 0 ==> r == Num(DecimalValue(s))
  {
    var t := Trim(s);
    TrimEdges(s);
    TrimDigits(s);
    if |t| == 0 then Num(0)
    else if AllDigits(t) then Num(DecimalValue(t))
    else if |t| > 1 && (t[0] == '-' || t[0] == '+') && AllDigits(t[1..]) then
      Num(if t[0] == '-' then 0 - DecimalValue(t[1..]) as int else DecimalValue(t[1..]))
    else NaN
  }

  lemma TrimDigits(s: string)
    ensures AllDigits(s) && |s| > 0 ==> Trim(s) == s
  {
    if AllDigits(s) && |s| > 0 {
      TrimPadded("", s, "");
      assert "" + s + "" == s;
    }
  }

  /** The value an optionally signed decimal numeral denotes. */
  function SignedValue(sign: string, n: nat): int {
    if sign == "-" then -(n as int) else n
  }

  /** A signed run of decimal digits neither starts nor ends with white space. */
  lemma NumeralEdges(sign: string, d: string)
    requires sign == "" || sign == "+" || sign == "-"
    requires |d| > 0 && AllDigits(d)
    ensures |sign + d| > 0
    ensures !IsWhiteSpace((sign + d)[0])
    ensures !IsWhiteSpace((sign + d)[|sign + d| - 1])
  {
    assert IsDigit(d[0]) && IsDigit(d[|d| - 1]);
    assert (sign + d)[|sign + d| - 1] == d[|d| - 1];
  }

  /** Text whose trimmed form is a signed run of decimal digits reads as its value. */
  lemma NumberOfTrimmedNumeral(s: string, sign: string, d: string)
    requires sign == "" || sign == "+" || sign == "-"
    requires |d| > 0 && AllDigits(d)
    requires Trim(s) == sign + d
    ensures StrToNumber(s) == Num(SignedValue(sign, DecimalValue(d)))
  {
    var t := Trim(s);
    if sign == "" {
      assert t == d;
    } else {
      assert t[1..] == d;
      assert !IsDigit(t[0]);
    }
  }

  /**
   * A signed run of decimal digits, leading zeros allowed, padded with white space on
   * either side, reads as the value of its digits with the sign applied.
   */
  lemma NumberOfPaddedNumeral(w1: string, sign: string, d: string, w2: string)
    requires AllWhiteSpace(w1) && AllWhiteSpace(w2)
    requires sign == "" || sign == "+" || sign == "-"
    requires |d| > 0 && AllDigits(d)
    ensures StrToNumber(w1 + (sign + d) + w2) == Num(SignedValue(sign, DecimalValue(d)))
  {
    NumeralEdges(sign, d);
    TrimPadded(w1, sign + d, w2);
    NumberOfTrimmedNumeral(w1 + (sign + d) + w2, sign, d);
  }

  /** `Number(...)` reads a decimal numeral back as its value. */
  lemma NumberOfDecimal(n: nat)
    ensures StrToNumber(DecimalString(n)) == Num(n)
  {
    var d := DecimalString(n);
    DecimalRoundTrip(n);
    NumeralEdges("", d);
    TrimPadded("", d, "");
    assert "" + d + "" == d;
    NumberOfTrimmedNumeral(d, "", d);
  }
}
