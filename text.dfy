/**
  The parts of Python's `str` that the dose-report core relies on: blank
  detection, `strip`, `split()` on runs of blanks, `split(sep)`, `replace`,
  `isdigit`, decimal rendering of integers and the code-point order that
  `min` and `max` use on strings.
 */
module Text {

  /** Python's `str.isspace`: the characters that `split()` and `strip()` treat as blanks. */
  predicate IsSpace(c: char)
  {
    || c == ' '
    || ('\t' <= c <= '\r')
    || ('\U{1C}' <= c <= '\U{1F}')
    || c == '\U{85}' || c == '\U{A0}' || c == '\U{1680}'
    || ('\U{2000}' <= c <= '\U{200A}')
    || c == '\U{2028}' || c == '\U{2029}' || c == '\U{202F}' || c == '\U{205F}' || c == '\U{3000}'
  }

  predicate NoSpace(s: string)
  {
    forall i :: 0 <= i < |s| ==> !IsSpace(s[i])
  }

  predicate AllSpace(s: string)
  {
    forall i :: 0 <= i < |s| ==> IsSpace(s[i])
  }

  /** The index of the first non-blank character of `s` at or after `i`; `|s|` when there is none. */
  function SkipBlanks(s: string, i: nat): (r: nat)
    requires i <= |s|
    ensures i <= r <= |s| && (r == |s| || !IsSpace(s[r]))
    ensures forall k :: i <= k < r ==> IsSpace(s[k])
    decreases |s| - i
  {
    if i < |s| && IsSpace(s[i]) then SkipBlanks(s, i + 1) else i
  }

  /** Skipping blanks in `t` behind a prefix `p` skips the same blanks. */
  lemma {:induction false} SkipBlanksShift(p: string, t: string, i: nat)
    requires i <= |t|
    ensures SkipBlanks(p + t, |p| + i) == |p| + SkipBlanks(t, i)
    decreases |t| - i
  {
    if i < |t| {
      assert (p + t)[|p| + i] == t[i];
      if IsSpace(t[i]) {
        SkipBlanksShift(p, t, i + 1);
      }
    }
  }

  /** The index just past the last non-blank character of `s` before `j`; 0 when there is none. */
  function TrimEnd(s: string, j: nat): (r: nat)
    requires j <= |s|
    ensures r <= j && (r == 0 || !IsSpace(s[r - 1]))
    ensures forall k :: r <= k < j ==> IsSpace(s[k])
  {
    if j > 0 && IsSpace(s[j - 1]) then TrimEnd(s, j - 1) else j
  }

  /** `s.strip()`: the text from the first to the last non-blank character; empty exactly when `s` is all blanks. */
  function Strip(s: string): (r: string)
    ensures |r| <= |s|
    ensures r == [] <==> AllSpace(s)
    ensures r != [] ==> !IsSpace(r[0]) && !IsSpace(r[|r| - 1])
  {
    var a := SkipBlanks(s, 0);
    if a == |s| then []
    else
      var b := TrimEnd(s, |s|);
      assert !IsSpace(s[a]);
      assert a < b;
      s[a..b]
  }

  /** The characters `strip()` keeps are those between the two outermost non-blank ones. */
  lemma StripBounds(s: string)
    requires !AllSpace(s)
    ensures SkipBlanks(s, 0) < TrimEnd(s, |s|)
    ensures Strip(s) == s[SkipBlanks(s, 0)..TrimEnd(s, |s|)]
  {
    var a := SkipBlanks(s, 0);
    assert a < |s|;
    assert !IsSpace(s[a]);
  }

  /** Text that neither starts nor ends with a blank is left as it is by `strip()`. */
  lemma StripTrimmed(s: string)
    requires s != [] && !IsSpace(s[0]) && !IsSpace(s[|s| - 1])
    ensures Strip(s) == s
  {
    assert SkipBlanks(s, 0) == 0;
    assert TrimEnd(s, |s|) == |s|;
    assert s[0..|s|] == s;
  }

  /** Stripping only removes characters. */
  lemma StripInside(s: string)
    ensures forall c :: c in Strip(s) ==> c in s
  {
    if !AllSpace(s) {
      StripBounds(s);
      var a := SkipBlanks(s, 0);
      forall c | c in Strip(s)
        ensures c in s
      {
        var k :| 0 <= k < |Strip(s)| && Strip(s)[k] == c;
        assert Strip(s)[k] == s[a + k];
      }
    }
  }

  /** The longest prefix of `t` free of blanks. */
  function Token(t: string): (w: string)
    ensures |w| <= |t| && w == t[..|w|] && NoSpace(w)
    ensures |w| == |t| || IsSpace(t[|w|])
  {
    if t == [] || IsSpace(t[0]) then [] else [t[0]] + Token(t[1..])
  }

  /** `s.split()` with no argument: the maximal runs of non-blank characters, left to right. */
  function Words(s: string): (ws: seq<string>)
    ensures forall w :: w in ws ==> w != [] && NoSpace(w)
    decreases |s|
  {
    var t := s[SkipBlanks(s, 0)..];
    if t == [] then []
    else
      var w := Token(t);
      assert w != [] by {
        assert |w| == |t| || IsSpace(t[|w|]);
      }
      var rest := Words(t[|w|..]);
      [w] + rest
  }

  /** `s.split()` is empty exactly when `s` holds nothing but blanks. */
  lemma WordsEmpty(s: string)
    ensures Words(s) == [] <==> AllSpace(s)
  {
    var a := SkipBlanks(s, 0);
    if a < |s| {
      assert !IsSpace(s[a]);
      assert s[a..][0] == s[a];
    }
  }

  /** The first piece of `split()` starts at the first non-blank and runs to the next blank or the end. */
  lemma FirstWord(s: string)
    requires Words(s) != []
    ensures var a, w := SkipBlanks(s, 0), Words(s)[0];
      a + |w| <= |s| && AllSpace(s[..a]) && s[a..a + |w|] == w && (a + |w| == |s| || IsSpace(s[a + |w|]))
  {
    var a := SkipBlanks(s, 0);
    var t := s[a..];
    var w := Token(t);
    assert Words(s)[0] == w;
    assert s[a..a + |w|] == t[..|w|];
    assert |w| == |t| || IsSpace(t[|w|]);
    BlankPrefix(s);
  }

  /** Everything before the first non-blank character is blank. */
  lemma BlankPrefix(s: string)
    ensures AllSpace(s[..SkipBlanks(s, 0)])
  {
    var a := SkipBlanks(s, 0);
    forall k | 0 <= k < a ensures IsSpace(s[..a][k]) {
      assert s[..a][k] == s[k];
    }
  }

  /** The token at the front of `t` is its longest blank-free prefix. */
  lemma {:induction false} TokenPrefix(t: string, n: nat)
    requires n <= |t| && NoSpace(t[..n]) && (n == |t| || IsSpace(t[n]))
    ensures Token(t) == t[..n]
  {
    if n > 0 {
      assert t[1..][..n - 1] == t[1..n];
      var u := t[1..][..n - 1];
      assert NoSpace(u) by {
        assert forall k :: 0 <= k < |u| ==> u[k] == t[..n][k + 1];
      }
      assert !IsSpace(t[..n][0]);
      TokenPrefix(t[1..], n - 1);
      assert t[..n] == [t[0]] + t[1..n];
    }
  }

  /** A single non-empty blank-free string splits into itself alone. */
  lemma WordsOfWord(w: string)
    requires w != [] && NoSpace(w)
    ensures Words(w) == [w]
  {
    assert !IsSpace(w[0]);
    assert SkipBlanks(w, 0) == 0;
    assert w[0..] == w;
    var tok := Token(w);
    assert |tok| == |w| by {
      if |tok| < |w| {
        assert false;
      }
    }
    assert tok == w;
    assert w[|tok|..] == [];
    assert Words([]) == [];
  }

  /** A leading blank does not change `split()`. */
  lemma {:induction false} WordsSkipBlank(c: char, rest: string)
    requires IsSpace(c)
    ensures Words([c] + rest) == Words(rest)
  {
    var s := [c] + rest;
    assert SkipBlanks(s, 0) == SkipBlanks(s, 1);
    SkipBlanksShift([c], rest, 0);
    var a := SkipBlanks(rest, 0);
    assert s[1 + a..] == rest[a..];
  }

  /** A blank-free word followed by a blank is the first piece of `split()`. */
  lemma {:induction false} WordsCons(w: string, rest: string)
    requires w != [] && NoSpace(w)
    ensures Words(w + [' '] + rest) == [w] + Words(rest)
  {
    var s := w + [' '] + rest;
    assert s[0] == w[0];
    assert SkipBlanks(s, 0) == 0;
    assert s[0..] == s;
    assert s[..|w|] == w && s[|w|] == ' ';
    TokenPrefix(s, |w|);
    assert s[|w|..] == [' '] + rest;
    WordsSkipBlank(' ', rest);
  }

  /** `s.split(sep)`: the pieces between occurrences of `sep`; joined back with `sep` they give `s`. */
  function SplitOn(s: string, sep: char): (parts: seq<string>)
    ensures |parts| >= 1
    ensures forall i :: 0 <= i < |parts| ==> sep !in parts[i]
    ensures JoinWith(parts, sep) == s
  {
    if s == [] then [[]]
    else
      var rest := SplitOn(s[1..], sep);
      if s[0] == sep then
        var parts := [[]] + rest;
        assert parts[1..] == rest;
        parts
      else
        var parts := [[s[0]] + rest[0]] + rest[1..];
        assert |rest| > 1 ==> JoinWith(rest, sep) == rest[0] + [sep] + JoinWith(rest[1..], sep);
        assert parts[1..] == rest[1..];
        parts
  }

  function JoinWith(parts: seq<string>, sep: char): string
    requires |parts| >= 1
  {
    if |parts| == 1 then parts[0] else parts[0] + [sep] + JoinWith(parts[1..], sep)
  }

  /** Text without the separator splits into itself alone. */
  lemma SplitNone(s: string, sep: char)
    requires sep !in s
    ensures SplitOn(s, sep) == [s]
  {
    SplitOnUnique(s, sep, [s]);
  }

  /** Two separator-free pieces joined by the separator split back into those pieces. */
  lemma SplitTwoPieces(a: string, b: string, sep: char)
    requires sep !in a && sep !in b
    ensures SplitOn(a + [sep] + b, sep) == [a, b]
  {
    assert JoinWith([a, b], sep) == a + [sep] + b;
    SplitOnUnique(a + [sep] + b, sep, [a, b]);
  }

  /** Three separator-free pieces joined by the separator split back into those pieces. */
  lemma SplitThree(a: string, b: string, c: string, sep: char)
    requires sep !in a && sep !in b && sep !in c
    ensures SplitOn(a + [sep] + b + [sep] + c, sep) == [a, b, c]
  {
    var ps := [a, b, c];
    assert ps[1..] == [b, c];
    assert JoinWith([b, c], sep) == b + [sep] + c;
    assert JoinWith(ps, sep) == a + [sep] + (b + [sep] + c);
    assert a + [sep] + (b + [sep] + c) == a + [sep] + b + [sep] + c;
    SplitOnUnique(a + [sep] + b + [sep] + c, sep, ps);
  }

  /** Text split into exactly two pieces is the first piece, the separator and the second piece. */
  lemma SplitTwo(s: string, sep: char)
    requires |SplitOn(s, sep)| == 2
    ensures s == SplitOn(s, sep)[0] + [sep] + SplitOn(s, sep)[1]
  {
    var ps := SplitOn(s, sep);
    assert |ps[1..]| == 1 && ps[1..][0] == ps[1];
  }

  /** The pieces of `s` between separators are the only separator-free pieces that join back to `s`. */
  lemma SplitOnUnique(s: string, sep: char, ps: seq<string>)
    requires |ps| >= 1 && forall i :: 0 <= i < |ps| ==> sep !in ps[i]
    requires JoinWith(ps, sep) == s
    ensures SplitOn(s, sep) == ps
  {
    JoinInjective(SplitOn(s, sep), ps, sep);
  }

  /** Joining pieces free of the separator loses nothing. */
  lemma {:induction false} JoinInjective(a: seq<string>, b: seq<string>, sep: char)
    requires |a| >= 1 && |b| >= 1
    requires forall i :: 0 <= i < |a| ==> sep !in a[i]
    requires forall i :: 0 <= i < |b| ==> sep !in b[i]
    requires JoinWith(a, sep) == JoinWith(b, sep)
    ensures a == b
  {
    var ja, jb := JoinWith(a, sep), JoinWith(b, sep);
    if |a| == 1 && |b| == 1 {
    } else if |a| == 1 {
      assert false;
    } else if |b| == 1 {
      assert false;
    } else {
      assert ja == a[0] + ([sep] + JoinWith(a[1..], sep));
      assert jb == b[0] + ([sep] + JoinWith(b[1..], sep));
      assert ja[|a[0]|..] == [sep] + JoinWith(a[1..], sep);
      assert jb[|b[0]|..] == [sep] + JoinWith(b[1..], sep);
      SamePrefix(a[0], b[0], ja[|a[0]|..], jb[|b[0]|..], sep);
      assert JoinWith(a[1..], sep) == ja[|a[0]| + 1..];
      assert JoinWith(b[1..], sep) == jb[|b[0]| + 1..];
      assert forall i :: 0 <= i < |a[1..]| ==> a[1..][i] == a[i + 1];
      assert forall i :: 0 <= i < |b[1..]| ==> b[1..][i] == b[i + 1];
      JoinInjective(a[1..], b[1..], sep);
      assert a == [a[0]] + a[1..];
      assert b == [b[0]] + b[1..];
    }
  }

  /** Two separator-free heads each followed by the separator, spelling the same text, are equal. */
  lemma SamePrefix(x: string, y: string, xr: string, yr: string, sep: char)
    requires sep !in x && sep !in y
    requires xr != [] && xr[0] == sep && yr != [] && yr[0] == sep
    requires x + xr == y + yr
    ensures x == y
  {
    var t := x + xr;
    if |x| < |y| {
      SeparatorInside(x, xr, y, yr, sep);
      assert false;
    } else if |y| < |x| {
      SeparatorInside(y, yr, x, xr, sep);
      assert false;
    } else {
      assert x == t[..|x|] == y;
    }
  }

  /** A separator right after the shorter head falls inside the longer one. */
  lemma SeparatorInside(x: string, xr: string, y: string, yr: string, sep: char)
    requires |x| < |y| && xr != [] && xr[0] == sep && x + xr == y + yr
    ensures sep in y
  {
    assert y[|x|] == (y + yr)[|x|] == (x + xr)[|x|];
  }

  /** `s.replace(a, b)` for single characters. */
  function ReplaceChar(s: string, a: char, b: char): (r: string)
    ensures |r| == |s|
    ensures forall i :: 0 <= i < |s| ==> r[i] == if s[i] == a then b else s[i]
  {
    if s == [] then [] else [if s[0] == a then b else s[0]] + ReplaceChar(s[1..], a, b)
  }

  /** `s.replace(pat, '')`: occurrences of `pat` removed left to right, never overlapping. */
  function RemoveAll(s: string, pat: string): (r: string)
    requires pat != []
    ensures |r| <= |s|
    ensures forall i :: 0 <= i < |r| ==> r[i] in s
    decreases |s|
  {
    if |pat| <= |s| && s[..|pat|] == pat then
      var r := RemoveAll(s[|pat|..], pat);
      assert forall i :: 0 <= i < |r| ==> r[i] in s by {
        forall i | 0 <= i < |r| ensures r[i] in s {
          var k :| 0 <= k < |s[|pat|..]| && s[|pat|..][k] == r[i];
          assert s[k + |pat|] == r[i];
        }
      }
      r
    else if s == [] then []
    else
      var r := RemoveAll(s[1..], pat);
      assert forall i :: 0 <= i < |r| ==> r[i] in s by {
        forall i | 0 <= i < |r| ensures r[i] in s {
          var k :| 0 <= k < |s[1..]| && s[1..][k] == r[i];
          assert s[k + 1] == r[i];
        }
      }
      [s[0]] + r
  }

  /** A string that cannot contain `pat` (it lacks `pat`'s first character) is left as it is. */
  lemma {:induction false} RemoveAllAbsent(s: string, pat: string)
    requires pat != [] && pat[0] !in s
    ensures RemoveAll(s, pat) == s
    decreases |s|
  {
    if s != [] {
      assert s[0] != pat[0];
      assert !(|pat| <= |s| && s[..|pat|] == pat);
      RemoveAllAbsent(s[1..], pat);
      assert s == [s[0]] + s[1..];
    }
  }

  // ----- ASCII digits and decimal numerals -----

  predicate IsDigit(c: char)
  {
    '0' <= c <= '9'
  }

  predicate AllDigits(s: string)
  {
    forall i :: 0 <= i < |s| ==> IsDigit(s[i])
  }

  /** Python's `str.isdigit`, restricted to the ASCII digits. */
  predicate IsDigits(s: string)
  {
    s != [] && AllDigits(s)
  }

  function DigitValue(c: char): (d: nat)
    requires IsDigit(c)
    ensures d < 10
  {
    (c as int) - ('0' as int)
  }

  function DigitChar(d: nat): (c: char)
    requires d < 10
    ensures IsDigit(c) && DigitValue(c) == d
  {
    (('0' as int) + d) as char
  }

  /** The number a string of decimal digits denotes (0 for the empty string). */
  function Value(s: string): nat
    requires AllDigits(s)
  {
    if s == [] then 0 else Value(s[..|s| - 1]) * 10 + DigitValue(s[|s| - 1])
  }

  function Pow10(n: nat): (p: nat)
    ensures p >= 1
  {
    if n == 0 then 1 else 10 * Pow10(n - 1)
  }

  /** The last `w` decimal digits of `n`, zero-padded on the left. */
  function DigitsOf(n: nat, w: nat): (r: string)
    ensures |r| == w && AllDigits(r)
  {
    if w == 0 then [] else DigitsOf(n / 10, w - 1) + [DigitChar(n % 10)]
  }

  /** The number of digits `str(n)` has. */
  function Width(n: nat): (w: nat)
    ensures w >= 1 && n < Pow10(w)
    ensures n >= 10 ==> w >= 2
  {
    if n < 10 then 1 else 1 + Width(n / 10)
  }

  /** `str(n)` for a non-negative integer: its digits without leading zeros. */
  function Decimal(n: nat): (r: string)
    ensures IsDigits(r)
  {
    DigitsOf(n, Width(n))
  }

  /** `str(n)` denotes `n`, and starts with a zero only when it is "0". */
  lemma DecimalDenotes(n: nat)
    ensures Value(Decimal(n)) == n
    ensures Decimal(n)[0] == '0' ==> Decimal(n) == "0"
  {
    ValueOfDigitsOf(n, Width(n));
    LeadingDigit(n);
  }

  lemma {:induction false} ValueOfDigitsOf(n: nat, w: nat)
    requires n < Pow10(w)
    ensures Value(DigitsOf(n, w)) == n
  {
    if w > 0 {
      var r := DigitsOf(n, w);
      assert r[..|r| - 1] == DigitsOf(n / 10, w - 1);
      ValueOfDigitsOf(n / 10, w - 1);
      SplitDigit(n);
    }
  }

  lemma {:induction false} LeadingDigit(n: nat)
    ensures DigitsOf(n, Width(n))[0] == '0' ==> n == 0
  {
    if n >= 10 {
      var w := Width(n);
      assert DigitsOf(n, w)[0] == DigitsOf(n / 10, w - 1)[0];
      LeadingDigit(n / 10);
    }
  }

  /** Reading a digit string and writing it back at the same width gives it back. */
  lemma {:induction false} DigitsOfValue(s: string)
    requires AllDigits(s)
    ensures DigitsOf(Value(s), |s|) == s
  {
    if s != [] {
      var init, last := s[..|s| - 1], s[|s| - 1];
      var q, d := Value(init), DigitValue(last);
      assert Value(s) == q * 10 + d;
      DigitsOfValue(init);
      DropDigit(q, d);
      assert DigitsOf(q * 10 + d, |s|) == DigitsOf(q, |init|) + [DigitChar(d)];
      assert DigitChar(d) == last;
      assert s == init + [last];
    }
  }

  /** Appending decimal digit `d` to `q` and dropping it again gives `q` and `d` back. */
  lemma DropDigit(q: nat, d: nat)
    requires d < 10
    ensures (q * 10 + d) / 10 == q && (q * 10 + d) % 10 == d
  {
  }

  lemma SplitDigit(n: nat)
    ensures (n / 10) * 10 + n % 10 == n
  {
  }

  lemma {:induction false} ValueBound(s: string)
    requires AllDigits(s)
    ensures Value(s) < Pow10(|s|)
  {
    if s != [] {
      ValueBound(s[..|s| - 1]);
    }
  }

  /** Appending a digit to a numeral whose leading digit has weight `p` gives that digit weight `p * 10`. */
  lemma ShiftDecimal(whole: int, init: int, d0: int, p: int, v: int, d: int)
    requires init == d0 * p + v && whole == init * 10 + d
    ensures whole == d0 * (p * 10) + (v * 10 + d)
  {
  }

  lemma {:induction false} ValueFront(s: string)
    requires AllDigits(s) && s != []
    ensures Value(s) == DigitValue(s[0]) * Pow10(|s| - 1) + Value(s[1..])
  {
    if |s| > 1 {
      var init := s[..|s| - 1];
      ValueFront(init);
      assert init[0] == s[0];
      assert init[1..] == s[1..][..|s| - 2];
      var d0, d, p, v := DigitValue(s[0]), DigitValue(s[|s| - 1]), Pow10(|s| - 2), Value(init[1..]);
      assert Value(s[1..]) == v * 10 + d by {
        assert s[1..][|s| - 2] == s[|s| - 1];
      }
      assert Pow10(|s| - 1) == p * 10;
      assert Value(s) == Value(init) * 10 + d;
      ShiftDecimal(Value(s), Value(init), d0, p, v, d);
    } else {
      assert s[1..] == [];
    }
  }

  // ----- code-point order on strings, as Python's `<=`, `min` and `max` use it -----

  predicate LexLe(a: string, b: string)
    decreases |a|
  {
    a == [] || (b != [] && (a[0] < b[0] || (a[0] == b[0] && LexLe(a[1..], b[1..]))))
  }

  lemma {:induction false} LexLeRefl(a: string)
    ensures LexLe(a, a)
    decreases |a|
  {
    if a != [] {
      LexLeRefl(a[1..]);
    }
  }

  lemma {:induction false} LexLeTotal(a: string, b: string)
    ensures LexLe(a, b) || LexLe(b, a)
    decreases |a|
  {
    if a != [] && b != [] && a[0] == b[0] {
      LexLeTotal(a[1..], b[1..]);
    }
  }

  lemma {:induction false} LexLeTrans(a: string, b: string, c: string)
    requires LexLe(a, b) && LexLe(b, c)
    ensures LexLe(a, c)
    decreases |a|
  {
    if a != [] && a[0] == b[0] && b[0] == c[0] {
      LexLeTrans(a[1..], b[1..], c[1..]);
    }
  }

  lemma {:induction false} LexLeAntisym(a: string, b: string)
    requires LexLe(a, b) && LexLe(b, a)
    ensures a == b
    decreases |a|
  {
    if a != [] {
      LexLeAntisym(a[1..], b[1..]);
      assert a == [a[0]] + a[1..] && b == [b[0]] + b[1..];
    }
  }

  /** On two digit strings of the same length, code-point order is numeric order. */
  lemma {:induction false} LexLeDigits(a: string, b: string)
    requires AllDigits(a) && AllDigits(b) && |a| == |b|
    ensures LexLe(a, b) <==> Value(a) <= Value(b)
    decreases |a|
  {
    if a != [] {
      ValueFront(a);
      ValueFront(b);
      ValueBound(a[1..]);
      ValueBound(b[1..]);
      LexLeDigits(a[1..], b[1..]);
      var p := Pow10(|a| - 1);
      var da, db := DigitValue(a[0]), DigitValue(b[0]);
      if da < db {
        assert a[0] < b[0];
        HeavierDigitWins(da, db, Value(a[1..]), Value(b[1..]), p);
      } else if db < da {
        assert b[0] < a[0];
        HeavierDigitWins(db, da, Value(b[1..]), Value(a[1..]), p);
      } else {
        assert a[0] == b[0];
      }
    }
  }

  lemma HeavierDigitWins(da: nat, db: nat, va: nat, vb: nat, p: nat)
    requires da < db && va < p
    ensures da * p + va < db * p + vb
  {
    MulMono(da + 1, db, p);
    assert (da + 1) * p == da * p + p;
  }

  lemma {:induction false} MulMono(a: nat, b: nat, p: nat)
    requires a <= b
    ensures a * p <= b * p
    decreases b - a
  {
    if a < b {
      MulMono(a, b - 1, p);
      assert b * p == (b - 1) * p + p;
    }
  }

  /** Two strings that agree up to a common length compare as their remainders do. */
  lemma {:induction false} LexLeConcat(p: string, q: string, p': string, q': string)
    requires |p| == |p'|
    ensures LexLe(p + q, p' + q') <==> (p != p' && LexLe(p, p')) || (p == p' && LexLe(q, q'))
    decreases |p|
  {
    if p != [] {
      assert (p + q)[1..] == p[1..] + q;
      assert (p' + q')[1..] == p'[1..] + q';
      LexLeConcat(p[1..], q, p'[1..], q');
      assert p == [p[0]] + p[1..] && p' == [p'[0]] + p'[1..];
    } else {
      assert p + q == q && p' + q' == q';
    }
  }

  /** `min(xs)` on strings. */
  function MinLex(xs: seq<string>): (m: string)
    requires |xs| > 0
    ensures m in xs
    ensures forall x :: x in xs ==> LexLe(m, x)
  {
    if |xs| == 1 then LexLeRefl(xs[0]); xs[0]
    else
      var m := MinLex(xs[1..]);
      if LexLe(m, xs[0]) then
        assert forall x :: x in xs[1..] ==> LexLe(m, x);
        m
      else
        LexLeTotal(m, xs[0]);
        LexLeRefl(xs[0]);
        assert forall x :: x in xs[1..] ==> LexLe(xs[0], x) by {
          forall x | x in xs[1..] ensures LexLe(xs[0], x) {
            LexLeTrans(xs[0], m, x);
          }
        }
        xs[0]
  }

  /** `max(xs)` on strings. */
  function MaxLex(xs: seq<string>): (m: string)
    requires |xs| > 0
    ensures m in xs
    ensures forall x :: x in xs ==> LexLe(x, m)
  {
    if |xs| == 1 then LexLeRefl(xs[0]); xs[0]
    else
      var m := MaxLex(xs[1..]);
      if LexLe(xs[0], m) then
        assert forall x :: x in xs[1..] ==> LexLe(x, m);
        m
      else
        LexLeTotal(m, xs[0]);
        LexLeRefl(xs[0]);
        assert forall x :: x in xs[1..] ==> LexLe(x, xs[0]) by {
          forall x | x in xs[1..] ensures LexLe(x, xs[0]) {
            LexLeTrans(x, m, xs[0]);
          }
        }
        xs[0]
  }
}
