/** String operations of the JavaScript runtime that the application relies on:
    relational comparison of strings, `split` on a one-character separator,
    `startsWith`, `padStart`, `Number.prototype.toString` for integers,
    `trim`, and the two regular-expression and string replacements used. */
module Text {

  // ---------------------------------------------------------------------------
  // Relational comparison of strings (`<`, `<=`, `>=` on two strings)
  // ---------------------------------------------------------------------------

  /** `a < b` for two strings: lexicographic order by character code. */
  predicate LexLt(a: string, b: string)
    decreases |a|
  {
    |b| > 0 && (|a| == 0 || a[0] < b[0] || (a[0] == b[0] && LexLt(a[1..], b[1..])))
  }

  /** The non-strict order: equal or strictly before. */
  predicate LexLe(a: string, b: string) {
    a == b || LexLt(a, b)
  }

  lemma {:induction false} LexLtIrreflexive(a: string)
    ensures !LexLt(a, a)
    decreases |a|
  {
    if |a| > 0 {
      LexLtIrreflexive(a[1..]);
    }
  }

  lemma {:induction false} LexLtAsymmetric(a: string, b: string)
    ensures !(LexLt(a, b) && LexLt(b, a))
    decreases |a|
  {
    if |a| > 0 && |b| > 0 && a[0] == b[0] {
      LexLtAsymmetric(a[1..], b[1..]);
    }
  }

  lemma {:induction false} LexLtTransitive(a: string, b: string, c: string)
    requires LexLt(a, b) && LexLt(b, c)
    ensures LexLt(a, c)
    decreases |a|
  {
    if |a| > 0 && a[0] == b[0] && b[0] == c[0] {
      LexLtTransitive(a[1..], b[1..], c[1..]);
    }
  }

  lemma {:induction false} LexLtTotal(a: string, b: string)
    ensures a == b || LexLt(a, b) || LexLt(b, a)
    decreases |a|
  {
    if |a| > 0 && |b| > 0 && a[0] == b[0] {
      LexLtTotal(a[1..], b[1..]);
      if a[1..] == b[1..] {
        assert a == [a[0]] + a[1..] && b == [b[0]] + b[1..];
      }
    }
  }

  /** JavaScript evaluates `a <= b` on strings as `!(b < a)`; for strings this is
      exactly the non-strict lexicographic order. */
  lemma NotLexLtIsLexLe(a: string, b: string)
    ensures !LexLt(b, a) <==> LexLe(a, b)
  {
    LexLtTotal(a, b);
    LexLtAsymmetric(a, b);
    LexLtIrreflexive(a);
  }

  /** Comparing two concatenations whose first parts have the same length
      compares the first parts and, on a tie, the second parts. */
  lemma {:induction false} LexLtAppend(a1: string, a2: string, b1: string, b2: string)
    requires |a1| == |b1|
    ensures LexLt(a1 + a2, b1 + b2) <==> LexLt(a1, b1) || (a1 == b1 && LexLt(a2, b2))
    decreases |a1|
  {
    if |a1| == 0 {
      assert a1 + a2 == a2 && b1 + b2 == b2;
    } else {
      assert (a1 + a2)[0] == a1[0] && (b1 + b2)[0] == b1[0];
      assert (a1 + a2)[1..] == a1[1..] + a2;
      assert (b1 + b2)[1..] == b1[1..] + b2;
      LexLtAppend(a1[1..], a2, b1[1..], b2);
      if a1[0] == b1[0] && a1[1..] == b1[1..] {
        assert a1 == [a1[0]] + a1[1..] && b1 == [b1[0]] + b1[1..];
      }
      if a1 == b1 {
        assert a1[1..] == b1[1..];
      }
    }
  }

  // ---------------------------------------------------------------------------
  // Decimal digits
  // ---------------------------------------------------------------------------

  predicate IsDigit(c: char) {
    '0' <= c <= '9'
  }

  predicate AllDigits(s: string) {
    forall i :: 0 <= i < |s| ==> IsDigit(s[i])
  }

  function DigitChar(d: int): (c: char)
    requires 0 <= d < 10
    ensures IsDigit(c)
  {
    (48 + d) as char
  }

  function DigitValue(c: char): (d: int)
    requires IsDigit(c)
    ensures 0 <= d < 10 && DigitChar(d) == c
  {
    c as int - 48
  }

  function Pow10(n: nat): (p: nat)
    ensures p >= 1
  {
    if n == 0 then 1 else 10 * Pow10(n - 1)
  }

  /** The value of a string of decimal digits, most significant digit first. */
  function DecimalValue(s: string): nat
    requires AllDigits(s)
  {
    if s == [] then 0 else 10 * DecimalValue(s[..|s| - 1]) + DigitValue(s[|s| - 1])
  }

  /** The `w` lowest decimal digits of `v`, most significant first (the
      fixed-width fields of an ISO-8601 date). */
  function FixedDigits(v: nat, w: nat): (s: string)
    ensures |s| == w && AllDigits(s)
  {
    if w == 0 then [] else FixedDigits(v / 10, w - 1) + [DigitChar(v % 10)]
  }

  lemma {:induction false} FixedDigitsValue(v: nat, w: nat)
    requires v < Pow10(w)
    ensures DecimalValue(FixedDigits(v, w)) == v
  {
    if w > 0 {
      var s := FixedDigits(v, w);
      assert s[..|s| - 1] == FixedDigits(v / 10, w - 1);
      FixedDigitsValue(v / 10, w - 1);
    }
  }

  /** Fixed-width digit strings compare as their values do. */
  lemma {:induction false} FixedDigitsOrder(u: nat, v: nat, w: nat)
    requires u < Pow10(w) && v < Pow10(w)
    ensures LexLt(FixedDigits(u, w), FixedDigits(v, w)) <==> u < v
    ensures FixedDigits(u, w) == FixedDigits(v, w) <==> u == v
  {
    if w == 0 {
    } else {
      FixedDigitsOrder(u / 10, v / 10, w - 1);
      LexLtAppend(FixedDigits(u / 10, w - 1), [DigitChar(u % 10)],
                  FixedDigits(v / 10, w - 1), [DigitChar(v % 10)]);
      if FixedDigits(u, w) == FixedDigits(v, w) {
        FixedDigitsValue(u, w);
        FixedDigitsValue(v, w);
      }
    }
  }

  /** A digit string is the fixed-width rendering of its own value. */
  lemma {:induction false} FixedDigitsOfValue(s: string)
    requires AllDigits(s)
    ensures s == FixedDigits(DecimalValue(s), |s|)
    decreases |s|
  {
    if s != [] {
      var init := s[..|s| - 1];
      var v := DecimalValue(s);
      assert v / 10 == DecimalValue(init) && v % 10 == DigitValue(s[|s| - 1]);
      FixedDigitsOfValue(init);
      assert s == init + [s[|s| - 1]];
    }
  }

  /** `String(n)` for a non-negative integer: its decimal digits, no leading zero. */
  function NatToString(n: nat): (s: string)
    ensures |s| >= 1 && AllDigits(s)
    ensures |s| > 1 ==> s[0] != '0'
  {
    if n < 10 then [DigitChar(n)] else NatToString(n / 10) + [DigitChar(n % 10)]
  }

  lemma {:induction false} NatToStringValue(n: nat)
    ensures DecimalValue(NatToString(n)) == n
  {
    if n >= 10 {
      var s := NatToString(n);
      assert s[..|s| - 1] == NatToString(n / 10);
      NatToStringValue(n / 10);
    }
  }

  /** The decimal string has exactly the length `w` when `n` has `w` digits. */
  lemma {:induction false} NatToStringLength(n: nat, w: nat)
    requires w >= 1 && Pow10(w - 1) <= n < Pow10(w)
    ensures |NatToString(n)| == w
  {
    if w > 1 {
      NatToStringLength(n / 10, w - 1);
    }
  }

  /** `String(i)` for any integer: a minus sign before the digits of the magnitude. */
  function IntToString(i: int): (s: string)
    ensures |s| >= 1
  {
    if i < 0 then "-" + NatToString(-i) else NatToString(i)
  }

  /** `s.padStart(w, fill)` with a one-character fill string. */
  function PadStart(s: string, w: nat, fill: char): (r: string)
    ensures |s| >= w ==> r == s
    ensures |s| < w ==> |r| == w
    ensures |r| >= |s| && r[|r| - |s|..] == s
    ensures forall i :: 0 <= i < |r| - |s| ==> r[i] == fill
    decreases w - |s|
  {
    if |s| >= w then s else PadStart([fill] + s, w, fill)
  }

  /** Leading zeros do not change the value of a digit string. */
  lemma {:induction false} LeadingZeroValue(s: string)
    requires AllDigits(s)
    ensures AllDigits("0" + s) && DecimalValue("0" + s) == DecimalValue(s)
    decreases |s|
  {
    var z := "0" + s;
    if s != [] {
      assert z[..|z| - 1] == "0" + s[..|s| - 1];
      LeadingZeroValue(s[..|s| - 1]);
    }
  }

  lemma {:induction false} PadStartValue(s: string, w: nat)
    requires AllDigits(s)
    ensures AllDigits(PadStart(s, w, '0'))
    ensures DecimalValue(PadStart(s, w, '0')) == DecimalValue(s)
    decreases w - |s|
  {
    if |s| < w {
      LeadingZeroValue(s);
      PadStartValue("0" + s, w);
    }
  }

  // ---------------------------------------------------------------------------
  // Searching and splitting
  // ---------------------------------------------------------------------------

  /** Position of the first occurrence of `c` in `s`. */
  function IndexOf(s: string, c: char): (i: nat)
    requires c in s
    ensures i < |s| && s[i] == c && c !in s[..i]
  {
    if s[0] == c then 0 else
      assert c in s[1..] by { var k :| 0 <= k < |s| && s[k] == c; assert s[1..][k - 1] == c; }
      1 + IndexOf(s[1..], c)
  }

  /** `s.split(sep)` for a one-character separator. */
  function Split(s: string, sep: char): (parts: seq<string>)
    ensures |parts| >= 1
    ensures forall i :: 0 <= i < |parts| ==> sep !in parts[i]
    decreases |s|
  {
    if sep !in s then [s]
    else
      var i := IndexOf(s, sep);
      [s[..i]] + Split(s[i + 1..], sep)
  }

  /** Splitting a string that holds no separator yields the string itself. */
  lemma SplitNoSeparator(a: string, sep: char)
    requires sep !in a
    ensures Split(a, sep) == [a]
  {
  }

  /** Splitting `a + [sep] + b`, where `a` holds no separator, yields `a`
      followed by the parts of `b`. */
  lemma SplitCons(a: string, b: string, sep: char)
    requires sep !in a
    ensures Split(a + [sep] + b, sep) == [a] + Split(b, sep)
  {
    var s := a + [sep] + b;
    assert s[|a|] == sep;
    var i := IndexOf(s, sep);
    assert s[..|a|] == a;
    assert sep in s[..|a| + 1] by { assert s[..|a| + 1][|a|] == sep; }
    assert i == |a|;
    assert s[..i] == a && s[i + 1..] == b;
  }

  /** The first field of `s.split(sep)`: everything before the first separator. */
  function FirstField(s: string, sep: char): (r: string)
    ensures sep !in r
    ensures |r| <= |s| && r == s[..|r|]
    ensures |r| < |s| ==> s[|r|] == sep
    ensures sep !in s ==> r == s
  {
    Split(s, sep)[0]
  }

  predicate StartsWith(s: string, prefix: string) {
    |prefix| <= |s| && s[..|prefix|] == prefix
  }

  /** The first field of `a + [sep] + tail` is `a` when `a` holds no separator. */
  lemma FirstFieldOf(a: string, tail: string, sep: char)
    requires sep !in a
    ensures FirstField(a + [sep] + tail, sep) == a
  {
    SplitCons(a, tail, sep);
  }

  // ---------------------------------------------------------------------------
  // Trimming and replacing
  // ---------------------------------------------------------------------------

  /** The characters `String.prototype.trim` removes: ECMAScript WhiteSpace
      and LineTerminator code points. */
  predicate IsJsSpace(c: char) {
    || c == '\t' || c == '\n' || c == '\U{000B}' || c == '\U{000C}' || c == '\r'
    || c == ' ' || c == '\U{00A0}' || c == '\U{1680}'
    || ('\U{2000}' <= c <= '\U{200A}')
    || c == '\U{2028}' || c == '\U{2029}' || c == '\U{202F}' || c == '\U{205F}'
    || c == '\U{3000}' || c == '\U{FEFF}'
  }

  /** Number of leading white-space characters. */
  function LeadingSpace(s: string): (k: nat)
    ensures k <= |s|
    ensures forall i :: 0 <= i < k ==> IsJsSpace(s[i])
    ensures k < |s| ==> !IsJsSpace(s[k])
  {
    if s == [] || !IsJsSpace(s[0]) then 0 else 1 + LeadingSpace(s[1..])
  }

  /** Length of `s` without its trailing white-space characters. */
  function TrailingSpaceStart(s: string): (k: nat)
    ensures k <= |s|
    ensures forall i :: k <= i < |s| ==> IsJsSpace(s[i])
    ensures k > 0 ==> !IsJsSpace(s[k - 1])
  {
    if s == [] || !IsJsSpace(s[|s| - 1]) then |s| else TrailingSpaceStart(s[..|s| - 1])
  }

  /** `s.trim()`: `s` without leading and trailing white space. */
  function Trim(s: string): (r: string)
  {
    var t := s[LeadingSpace(s)..];
    t[..TrailingSpaceStart(t)]
  }

  /** `Trim` removes only white space, from both ends, and leaves a string that
      neither starts nor ends with white space. */
  lemma TrimSpec(s: string)
    ensures var r := Trim(s);
      exists i, j :: 0 <= i <= j <= |s| && r == s[i..j]
        && (forall k :: 0 <= k < i ==> IsJsSpace(s[k]))
        && (forall k :: j <= k < |s| ==> IsJsSpace(s[k]))
    ensures Trim(s) != [] ==> !IsJsSpace(Trim(s)[0]) && !IsJsSpace(Trim(s)[|Trim(s)| - 1])
  {
    var i := LeadingSpace(s);
    var t := s[i..];
    var j := i + TrailingSpaceStart(t);
    assert Trim(s) == s[i..j];
    forall k | j <= k < |s| ensures IsJsSpace(s[k]) {
      assert s[k] == t[k - i];
    }
  }

  /** A string that is all white space trims to the empty string, and only such
      a string does. */
  lemma TrimEmpty(s: string)
    ensures Trim(s) == [] <==> forall k :: 0 <= k < |s| ==> IsJsSpace(s[k])
  {
    var i := LeadingSpace(s);
    var t := s[i..];
    if i < |s| {
      assert !IsJsSpace(t[0]);
      assert TrailingSpaceStart(t) >= 1;
    }
  }

  /** `s.replace(/\/+$/, "")`: the longest run of trailing slashes removed. */
  function TrimTrailingSlashes(s: string): (r: string)
    ensures |r| <= |s| && r == s[..|r|]
    ensures forall i :: |r| <= i < |s| ==> s[i] == '/'
    ensures r != [] ==> r[|r| - 1] != '/'
  {
    if s == [] || s[|s| - 1] != '/' then s else TrimTrailingSlashes(s[..|s| - 1])
  }

  /** `s.replace(c, rep)` with a one-character search string: the first
      occurrence only. */
  function ReplaceFirst(s: string, c: char, rep: string): string
  {
    if c in s then s[..IndexOf(s, c)] + rep + s[IndexOf(s, c) + 1..] else s
  }

  /** Replacing the first `c` of a text whose only `c` is its last character
      replaces that character. */
  lemma ReplaceFirstLast(body: string, c: char, rep: string)
    requires c !in body
    ensures ReplaceFirst(body + [c], c, rep) == body + rep
  {
    var s := body + [c];
    assert s[|body|] == c;
    assert forall k :: 0 <= k < |body| ==> s[k] == body[k];
    var i := IndexOf(s, c);
    assert i == |body|;
    assert s[..i] == body && s[i + 1..] == [];
  }
}
