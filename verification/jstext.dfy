/**
 * JavaScript strings as the two components see them: sequences of UTF-16
 * code units, with the handful of built-in string operations the core uses
 * (`trim`, `split(/\s+/)`, `replace(/\D/g, '')`, `slice`, `String(n)`).
 */
module JsText {

  /** One UTF-16 code unit, the element type of a JavaScript string. */
  newtype CodeUnit = u: int | 0 <= u < 0x1_0000

  type JsString = seq<CodeUnit>

  /** Converts a literal written in ASCII into code units. */
  function Ascii(s: string): (r: JsString)
    requires forall i :: 0 <= i < |s| ==> s[i] as int < 128
    ensures |r| == |s|
    ensures forall i :: 0 <= i < |s| ==> r[i] as int == s[i] as int
  {
    seq(|s|, i requires 0 <= i < |s| => s[i] as int as CodeUnit)
  }

  /**
   * The code units ECMAScript's `trim` removes and the regular-expression
   * class `\s` matches: WhiteSpace (tab, vertical tab, form feed, space,
   * no-break space, byte-order mark and the Space_Separator category) and
   * LineTerminator (line feed, carriage return, line and paragraph separators).
   */
  predicate IsSpace(u: CodeUnit) {
    || u == 0x09 || u == 0x0A || u == 0x0B || u == 0x0C || u == 0x0D
    || u == 0x20 || u == 0xA0 || u == 0x1680
    || (0x2000 <= u <= 0x200A)
    || u == 0x2028 || u == 0x2029 || u == 0x202F || u == 0x205F
    || u == 0x3000 || u == 0xFEFF
  }

  /** The regular-expression class `\d`: the ASCII digits '0' to '9'. */
  predicate IsDigit(u: CodeUnit) {
    0x30 <= u <= 0x39
  }

  predicate AllSpace(s: JsString) {
    forall k :: 0 <= k < |s| ==> IsSpace(s[k])
  }

  predicate NoSpace(s: JsString) {
    forall k :: 0 <= k < |s| ==> !IsSpace(s[k])
  }

  predicate AllDigits(s: JsString) {
    forall k :: 0 <= k < |s| ==> IsDigit(s[k])
  }

  // ---------------------------------------------------------------------
  // trim()
  // ---------------------------------------------------------------------

  /** How many white-space units `s` starts with. */
  function LeadingSpace(s: JsString): (n: nat)
    ensures n <= |s| && AllSpace(s[..n])
    ensures n < |s| ==> !IsSpace(s[n])
  {
    EndOfSpaceRun(s, 0)
  }

  /**
   * Where the run of white space that ends at `j` starts, never going back
   * past `lo`.
   */
  function StartOfSpaceRun(s: JsString, lo: nat, j: nat): (k: nat)
    requires lo <= j <= |s|
    ensures lo <= k <= j && AllSpace(s[k..j])
    ensures k > lo ==> !IsSpace(s[k - 1])
    decreases j
  {
    if j > lo && IsSpace(s[j - 1]) then
      var k := StartOfSpaceRun(s, lo, j - 1);
      assert s[k..j] == s[k..j - 1] + [s[j - 1]];
      k
    else j
  }

  /**
   * `String.prototype.trim`: the slice of `s` left once the white space at
   * both ends is gone. It neither starts nor ends with white space, and what
   * it cut off on either side is white space only.
   */
  function Trim(s: JsString): (r: JsString)
    ensures var i := LeadingSpace(s);
      && i + |r| <= |s|
      && r == s[i..i + |r|]
      && AllSpace(s[..i]) && AllSpace(s[i + |r|..])
    ensures |r| > 0 ==> !IsSpace(r[0]) && !IsSpace(r[|r| - 1])
  {
    var i := LeadingSpace(s);
    var j := StartOfSpaceRun(s, i, |s|);
    var r := s[i..j];
    assert |r| > 0 ==> r[0] == s[i] && r[|r| - 1] == s[j - 1];
    r
  }

  // ---------------------------------------------------------------------
  // split(/\s+/) and the word count built on it
  // ---------------------------------------------------------------------

  /** The index of the first white-space unit, or |s| when there is none. */
  function IndexOfSpace(s: JsString): (i: nat)
    ensures i <= |s|
    ensures NoSpace(s[..i])
    ensures i < |s| ==> IsSpace(s[i])
  {
    if |s| == 0 || IsSpace(s[0]) then 0 else 1 + IndexOfSpace(s[1..])
  }

  /** The end of the run of white space that starts at `i`. */
  function EndOfSpaceRun(s: JsString, i: nat): (j: nat)
    requires i <= |s|
    ensures i <= j <= |s|
    ensures AllSpace(s[i..j])
    ensures j < |s| ==> !IsSpace(s[j])
    decreases |s| - i
  {
    if i < |s| && IsSpace(s[i]) then EndOfSpaceRun(s, i + 1) else i
  }

  /**
   * `s.split(/\s+/)`: the pieces between maximal runs of white space. Every
   * piece is free of white space, and there is always at least one piece
   * (the empty string splits into one empty piece).
   */
  function SplitOnSpaceRuns(s: JsString): (parts: seq<JsString>)
    ensures |parts| >= 1
    ensures forall p :: p in parts ==> NoSpace(p)
    decreases |s|
  {
    var i := IndexOfSpace(s);
    if i == |s| then [s]
    else
      var j := EndOfSpaceRun(s, i);
      [s[..i]] + SplitOnSpaceRuns(s[j..])
  }

  /**
   * The word count the editor caches: the number of pieces the trimmed text
   * splits into. It is never 0: an empty or blank text counts as one word.
   */
  function WordCount(s: JsString): (n: nat)
    ensures n >= 1
    ensures |Trim(s)| == 0 ==> n == 1
  {
    var t := Trim(s);
    assert |t| == 0 ==> SplitOnSpaceRuns(t) == [t];
    |SplitOnSpaceRuns(t)|
  }

  /**
   * Reference definition of "number of words": the positions holding a
   * non-space unit that is first in the text or follows a space.
   */
  function WordStarts(s: JsString, afterSpace: bool): nat {
    if |s| == 0 then 0
    else (if afterSpace && !IsSpace(s[0]) then 1 else 0) + WordStarts(s[1..], IsSpace(s[0]))
  }

  function Words(s: JsString): nat {
    WordStarts(s, true)
  }

  lemma {:induction false} WordStartsAppend(x: JsString, y: JsString, b: bool)
    ensures WordStarts(x + y, b)
         == WordStarts(x, b) + WordStarts(y, if |x| == 0 then b else IsSpace(x[|x| - 1]))
    decreases |x|
  {
    if |x| == 0 {
      assert x + y == y;
    } else {
      assert (x + y)[1..] == x[1..] + y;
      WordStartsAppend(x[1..], y, IsSpace(x[0]));
    }
  }

  lemma {:induction false} WordStartsAllSpace(s: JsString, b: bool)
    requires AllSpace(s)
    ensures WordStarts(s, b) == 0
    decreases |s|
  {
    if |s| > 0 {
      WordStartsAllSpace(s[1..], true);
    }
  }

  lemma {:induction false} WordStartsNoSpace(s: JsString, b: bool)
    requires |s| > 0 && NoSpace(s)
    ensures WordStarts(s, b) == if b then 1 else 0
    decreases |s|
  {
    if |s| > 1 {
      WordStartsNoSpace(s[1..], false);
    }
  }

  /** On a text that starts and ends with a non-space unit, the split yields one piece per word. */
  lemma {:induction false} SplitCountsWords(t: JsString)
    requires |t| > 0 && !IsSpace(t[0]) && !IsSpace(t[|t| - 1])
    ensures |SplitOnSpaceRuns(t)| == Words(t)
    decreases |t|
  {
    var i := IndexOfSpace(t);
    if i == |t| {
      WordStartsNoSpace(t, true);
    } else {
      var j := EndOfSpaceRun(t, i);
      assert 0 < i < j < |t|;
      var rest := t[j..];
      assert t == t[..i] + (t[i..j] + rest);
      WordStartsAppend(t[..i], t[i..j] + rest, true);
      WordStartsNoSpace(t[..i], true);
      WordStartsAppend(t[i..j], rest, false);
      WordStartsAllSpace(t[i..j], false);
      SplitCountsWords(rest);
    }
  }

  /** White space around a text adds no words. */
  lemma WordsOfPadded(a: JsString, m: JsString, b: JsString)
    requires AllSpace(a) && AllSpace(b)
    ensures Words(a + (m + b)) == Words(m)
  {
    WordStartsAppend(a, m + b, true);
    WordStartsAllSpace(a, true);
    WordStartsAppend(m, b, true);
    if |m| == 0 {
      WordStartsAllSpace(b, true);
    } else {
      WordStartsAllSpace(b, IsSpace(m[|m| - 1]));
    }
  }

  /** Trimming never changes the number of words. */
  lemma WordsOfTrim(s: JsString)
    ensures Words(Trim(s)) == Words(s)
  {
    var m := Trim(s);
    var i := LeadingSpace(s);
    var a, b := s[..i], s[i + |m|..];
    assert s == a + (m + b);
    WordsOfPadded(a, m, b);
  }

  /**
   * The cached word count is the number of words, except that an empty or
   * all-blank text counts as one word (it splits into one empty piece).
   */
  lemma WordCountIsWords(s: JsString)
    ensures WordCount(s) == if Words(s) == 0 then 1 else Words(s)
  {
    var t := Trim(s);
    WordsOfTrim(s);
    if |t| == 0 {
      assert SplitOnSpaceRuns(t) == [t];
    } else {
      SplitCountsWords(t);
      assert Words(t) > 0 by { WordStartsAppend([t[0]], t[1..], true); assert [t[0]] + t[1..] == t; }
    }
  }

  // ---------------------------------------------------------------------
  // replace(/\D/g, '') and slice(0, n)
  // ---------------------------------------------------------------------

  /** `s.replace(/\D/g, '')`: the digits of `s`, in their original order. */
  function KeepDigits(s: JsString): (r: JsString)
    ensures |r| <= |s|
    ensures AllDigits(r)
  {
    if |s| == 0 then []
    else (if IsDigit(s[0]) then [s[0]] else []) + KeepDigits(s[1..])
  }

  /** Filtering distributes over concatenation. */
  lemma {:induction false} KeepDigitsAppend(a: JsString, b: JsString)
    ensures KeepDigits(a + b) == KeepDigits(a) + KeepDigits(b)
    decreases |a|
  {
    if |a| > 0 {
      assert (a + b)[1..] == a[1..] + b;
      KeepDigitsAppend(a[1..], b);
    } else {
      assert a + b == b;
    }
  }

  /** A string of digits passes the filter unchanged. */
  lemma {:induction false} KeepDigitsOfDigits(s: JsString)
    requires AllDigits(s)
    ensures KeepDigits(s) == s
    decreases |s|
  {
    if |s| > 0 {
      KeepDigitsOfDigits(s[1..]);
    }
  }

  /** A unit that is not a digit never survives the filter. */
  lemma {:induction false} KeepDigitsDropsOthers(s: JsString)
    requires forall k :: 0 <= k < |s| ==> !IsDigit(s[k])
    ensures KeepDigits(s) == []
    decreases |s|
  {
    if |s| > 0 {
      KeepDigitsDropsOthers(s[1..]);
    }
  }

  /** `s.slice(0, n)`. */
  function Take(s: JsString, n: nat): (r: JsString)
    ensures |r| == if |s| < n then |s| else n
    ensures r == s[..|r|]
  {
    if |s| <= n then s else s[..n]
  }

  // ---------------------------------------------------------------------
  // String(n) for a natural number
  // ---------------------------------------------------------------------

  /** The value of a string of decimal digits. */
  function DigitsValue(d: JsString): nat
    requires AllDigits(d)
  {
    if |d| == 0 then 0 else DigitsValue(d[..|d| - 1]) * 10 + (d[|d| - 1] - 0x30) as int
  }

  /** `String(n)`: the decimal form of `n`, without leading zeros. */
  function DecimalString(n: nat): (r: JsString)
    ensures |r| > 0 && AllDigits(r)
    ensures r[0] == 0x30 ==> n == 0
  {
    if n < 10 then [(0x30 + n) as CodeUnit]
    else DecimalString(n / 10) + [(0x30 + n % 10) as CodeUnit]
  }

  /** Reading the decimal form back gives the number. */
  lemma {:induction false} DecimalRoundTrip(n: nat)
    ensures DigitsValue(DecimalString(n)) == n
  {
    var d := DecimalString(n);
    if n >= 10 {
      assert d[..|d| - 1] == DecimalString(n / 10);
      DecimalRoundTrip(n / 10);
    } else {
      assert d[..0] == [];
    }
  }

  /** So distinct numbers have distinct decimal forms. */
  lemma DecimalInjective(m: nat, n: nat)
    requires DecimalString(m) == DecimalString(n)
    ensures m == n
  {
    DecimalRoundTrip(m);
    DecimalRoundTrip(n);
  }
}
