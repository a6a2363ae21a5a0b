/** The string operations of Python 3 that the ping parser relies on: whitespace tests,
    `str.strip()`, `str.split()`, `str.split(sep)`, `str.startswith`, and the text-to-number
    conversions `int(str)` and `float(str)` on the decimal forms they accept. */
module Text {
  import opened Failures

  type String = seq<char>

  /** Python's `str.isspace()` on one character: the whitespace that `str.split()` and
      `str.strip()` (both without arguments) split on and remove. */
  predicate IsSpace(c: char) {
    ('\U{9}' <= c <= '\U{d}') || ('\U{1c}' <= c <= '\U{20}') || c == '\U{85}' || c == '\U{a0}'
    || c == '\U{1680}' || ('\U{2000}' <= c <= '\U{200a}') || c == '\U{2028}' || c == '\U{2029}'
    || c == '\U{202f}' || c == '\U{205f}' || c == '\U{3000}'
  }

  predicate AllSpace(s: String) {
    forall k | 0 <= k < |s| :: IsSpace(s[k])
  }

  /** `s.startswith(p)` */
  predicate StartsWith(s: String, p: String) {
    |p| <= |s| && s[..|p|] == p
  }

  // ---------------------------------------------------------------- str.strip()

  function LeadingSpaces(s: String): (n: nat)
    ensures n <= |s|
    ensures forall k | 0 <= k < n :: IsSpace(s[k])
    ensures n < |s| ==> !IsSpace(s[n])
  {
    if s == [] || !IsSpace(s[0]) then 0 else 1 + LeadingSpaces(s[1..])
  }

  function TrailingSpaces(s: String): (n: nat)
    ensures n <= |s|
    ensures forall k | |s| - n <= k < |s| :: IsSpace(s[k])
    ensures n < |s| ==> !IsSpace(s[|s| - 1 - n])
  {
    if s == [] || !IsSpace(s[|s| - 1]) then 0 else 1 + TrailingSpaces(s[..|s| - 1])
  }

  /** `s.strip()`: the text between the leading and the trailing run of whitespace. */
  function Strip(s: String): String {
    var i := LeadingSpaces(s);
    var rest := s[i..];
    rest[..|rest| - TrailingSpaces(rest)]
  }

  /** `strip()` cuts out a contiguous part of the line after its leading whitespace. */
  lemma StripIsSlice(s: String)
    ensures LeadingSpaces(s) + |Strip(s)| <= |s|
    ensures Strip(s) == s[LeadingSpaces(s)..LeadingSpaces(s) + |Strip(s)|]
  {
    var i := LeadingSpaces(s);
    var rest := s[i..];
    var n := |rest| - TrailingSpaces(rest);
    SliceOfSuffix(s, i, n);
  }

  lemma SliceOfSuffix(s: String, i: nat, n: nat)
    requires i + n <= |s|
    ensures s[i..][..n] == s[i..i + n]
  {
  }

  /** What `strip()` cuts off after the text is whitespace only. */
  lemma StripDropsSpaceOnly(s: String)
    ensures LeadingSpaces(s) + |Strip(s)| <= |s|
    ensures AllSpace(s[LeadingSpaces(s) + |Strip(s)|..])
  {
    var i := LeadingSpaces(s);
    var rest := s[i..];
    var j := TrailingSpaces(rest);
    var tail := s[i + |rest| - j..];
    forall k | 0 <= k < |tail| ensures IsSpace(tail[k]) {
      assert tail[k] == rest[|rest| - j + k];
    }
  }

  /** `strip()` leaves no whitespace at either end, gives the empty string exactly for an
      all-whitespace line, and leaves a line with no whitespace at its ends unchanged. */
  lemma StripSpec(s: String)
    ensures Strip(s) == [] || (!IsSpace(Strip(s)[0]) && !IsSpace(Strip(s)[|Strip(s)| - 1]))
    ensures Strip(s) == [] <==> AllSpace(s)
    ensures s != [] && !IsSpace(s[0]) && !IsSpace(s[|s| - 1]) ==> Strip(s) == s
  {
    var i := LeadingSpaces(s);
    var rest := s[i..];
    var j := TrailingSpaces(rest);
    var r := rest[..|rest| - j];
    assert Strip(s) == r;
    if r == [] {
      assert j == |rest|;
      assert i == |s|;
    } else {
      assert r[0] == s[i];
      assert r[|r| - 1] == rest[|rest| - 1 - j];
    }
    if s != [] && !IsSpace(s[0]) && !IsSpace(s[|s| - 1]) {
      assert i == 0 && rest == s;
      assert j == 0;
    }
  }

  // ---------------------------------------------------------------- str.split()

  /** A non-empty run of non-whitespace: what `str.split()` returns pieces of. */
  predicate IsWord(w: String) {
    w != [] && forall k | 0 <= k < |w| :: !IsSpace(w[k])
  }

  function NonSpacePrefix(s: String): (n: nat)
    ensures n <= |s|
    ensures forall k | 0 <= k < n :: !IsSpace(s[k])
    ensures n < |s| ==> IsSpace(s[n])
  {
    if s == [] || IsSpace(s[0]) then 0 else 1 + NonSpacePrefix(s[1..])
  }

  /** `s.split()`: the maximal runs of non-whitespace, in order. */
  function Words(s: String): (r: seq<String>)
    ensures forall k | 0 <= k < |r| :: IsWord(r[k])
    ensures r == [] <==> AllSpace(s)
    decreases |s|
  {
    if s == [] then []
    else if IsSpace(s[0]) then
      var r := Words(s[1..]);
      assert AllSpace(s[1..]) ==> AllSpace(s) by {
        if AllSpace(s[1..]) {
          forall k | 0 <= k < |s| ensures IsSpace(s[k]) {
            if k > 0 { assert s[k] == s[1..][k - 1]; }
          }
        }
      }
      r
    else
      var n := NonSpacePrefix(s);
      [s[..n]] + Words(s[n..])
  }

  /** `" ".join(ws)` */
  function Unwords(ws: seq<String>): String {
    if |ws| == 0 then [] else if |ws| == 1 then ws[0] else ws[0] + [' '] + Unwords(ws[1..])
  }

  lemma {:induction false} NonSpacePrefixUnique(s: String, n: nat)
    requires n <= |s|
    requires forall k | 0 <= k < n :: !IsSpace(s[k])
    requires n < |s| ==> IsSpace(s[n])
    ensures NonSpacePrefix(s) == n
  {
    if n > 0 {
      assert !IsSpace(s[0]);
      assert forall k | 0 <= k < n - 1 :: s[1..][k] == s[k + 1];
      NonSpacePrefixUnique(s[1..], n - 1);
    }
  }

  lemma NonSpacePrefixAppend(w: String, t: String)
    requires IsWord(w)
    requires t == [] || IsSpace(t[0])
    ensures NonSpacePrefix(w + t) == |w|
  {
    var s := w + t;
    assert forall k | 0 <= k < |w| :: s[k] == w[k];
    NonSpacePrefixUnique(s, |w|);
  }

  /** A word followed by whitespace or by nothing is the first thing `split()` returns. */
  lemma WordsAfterWord(w: String, t: String)
    requires IsWord(w)
    requires t == [] || IsSpace(t[0])
    ensures Words(w + t) == [w] + Words(t)
  {
    var s := w + t;
    NonSpacePrefixAppend(w, t);
    assert s[0] == w[0];
    assert s[..|w|] == w;
    assert s[|w|..] == t;
  }

  /** Leading whitespace is skipped by `split()`. */
  lemma WordsSkipSpace(t: String)
    requires t != [] && IsSpace(t[0])
    ensures Words(t) == Words(t[1..])
  {
  }

  /** Splitting words joined by single spaces gives the words back. */
  lemma {:induction false} WordsOfUnwords(ws: seq<String>)
    requires forall k | 0 <= k < |ws| :: IsWord(ws[k])
    ensures Words(Unwords(ws)) == ws
    decreases |ws|
  {
    if |ws| == 1 {
      WordsAfterWord(ws[0], []);
      assert ws[0] + [] == ws[0];
    } else if |ws| > 1 {
      var tail := [' '] + Unwords(ws[1..]);
      assert Unwords(ws) == ws[0] + tail;
      WordsAfterWord(ws[0], tail);
      WordsSkipSpace(tail);
      assert tail[1..] == Unwords(ws[1..]);
      WordsOfUnwords(ws[1..]);
      assert ws == [ws[0]] + ws[1..];
    }
  }

  // ---------------------------------------------------------------- str.split(sep)

  function IndexOf(s: String, c: char): (i: nat)
    requires c in s
    ensures i < |s| && s[i] == c && c !in s[..i]
  {
    if s[0] == c then 0
    else
      assert c in s[1..];
      var j := IndexOf(s[1..], c);
      assert s[..j + 1] == [s[0]] + s[1..][..j];
      j + 1
  }

  lemma {:induction false} IndexOfUnique(s: String, c: char, i: nat)
    requires i < |s| && s[i] == c && c !in s[..i]
    ensures IndexOf(s, c) == i
  {
    if i > 0 {
      assert s[..i][0] == s[0];
      assert s[1..][..i - 1] == s[..i][1..];
      IndexOfUnique(s[1..], c, i - 1);
    }
  }

  /** `sep.join(ps)` for a one-character separator. */
  function JoinOn(ps: seq<String>, c: char): String
    requires |ps| >= 1
  {
    if |ps| == 1 then ps[0] else ps[0] + [c] + JoinOn(ps[1..], c)
  }

  /** `s.split(c)`: the pieces between the occurrences of `c`. */
  function SplitOn(s: String, c: char): (r: seq<String>)
    ensures |r| >= 1
    decreases |s|
  {
    if c !in s then [s]
    else
      var i := IndexOf(s, c);
      [s[..i]] + SplitOn(s[i + 1..], c)
  }

  /** `s.split(c)` has one piece more than there are occurrences of `c`, none containing `c`,
      and joining them with `c` gives `s` back. */
  lemma {:induction false} SplitOnSpec(s: String, c: char)
    ensures |SplitOn(s, c)| == 1 <==> c !in s
    ensures forall k | 0 <= k < |SplitOn(s, c)| :: c !in SplitOn(s, c)[k]
    ensures JoinOn(SplitOn(s, c), c) == s
    decreases |s|
  {
    if c in s {
      var i := IndexOf(s, c);
      var r := SplitOn(s, c);
      var more := SplitOn(s[i + 1..], c);
      SplitOnSpec(s[i + 1..], c);
      assert r == [s[..i]] + more;
      assert r[1..] == more;
      forall k | 0 <= k < |r| ensures c !in r[k] {
        if k > 0 { assert r[k] == more[k - 1]; }
      }
      assert JoinOn(r, c) == s[..i] + [c] + JoinOn(more, c);
      assert s == s[..i] + [c] + s[i + 1..];
    }
  }

  /** `JoinOn` has one inverse: splitting the joined text gives back the pieces. */
  lemma {:induction false} SplitOnJoinOn(ps: seq<String>, c: char)
    requires |ps| >= 1
    requires forall k | 0 <= k < |ps| :: c !in ps[k]
    ensures SplitOn(JoinOn(ps, c), c) == ps
    decreases |ps|
  {
    if |ps| > 1 {
      var s := JoinOn(ps, c);
      var rest := JoinOn(ps[1..], c);
      assert s == ps[0] + [c] + rest;
      assert s[|ps[0]|] == c;
      assert s[..|ps[0]|] == ps[0];
      IndexOfUnique(s, c, |ps[0]|);
      assert s[|ps[0]| + 1..] == rest;
      SplitOnJoinOn(ps[1..], c);
      assert ps == [ps[0]] + ps[1..];
    } else {
      assert c !in ps[0];
    }
  }

  /** The first piece of `s.split(c)` is the text before the first `c`. */
  lemma SplitOnFirst(a: String, c: char, b: String)
    requires c !in a
    ensures SplitOn(a + [c] + b, c)[0] == a
  {
    var s := a + [c] + b;
    assert s[|a|] == c;
    assert s[..|a|] == a;
    IndexOfUnique(s, c, |a|);
  }

  // ---------------------------------------------------------------- int(str), float(str)

  predicate IsDigit(c: char) {
    '0' <= c <= '9'
  }

  predicate AllDigits(s: String) {
    forall k | 0 <= k < |s| :: IsDigit(s[k])
  }

  /** The value of a string of decimal digits, most significant first. */
  function DigitsValue(s: String): nat
    requires AllDigits(s)
  {
    if s == [] then 0 else 10 * DigitsValue(s[..|s| - 1]) + (s[|s| - 1] as int - '0' as int)
  }

  /** Python's grammar for the digits of a decimal literal: digits, with single underscores
      allowed between two digits (`1_000`), none leading, trailing or doubled. */
  predicate IsDigitGroup(s: String)
    decreases |s|
  {
    |s| > 0 && IsDigit(s[0])
    && (|s| == 1 || if s[1] == '_' then IsDigitGroup(s[2..]) else IsDigitGroup(s[1..]))
  }

  function DropUnderscores(s: String): String {
    if s == [] then []
    else (if s[0] == '_' then [] else [s[0]]) + DropUnderscores(s[1..])
  }

  /** Without its underscores a digit group is a non-empty string of digits. */
  lemma {:induction false} GroupDigits(s: String)
    requires IsDigitGroup(s)
    ensures DropUnderscores(s) != [] && AllDigits(DropUnderscores(s))
    decreases |s|
  {
    var rest := DropUnderscores(s[1..]);
    if |s| > 1 {
      if s[1] == '_' {
        GroupDigits(s[2..]);
        assert s[1..][1..] == s[2..];
        assert rest == DropUnderscores(s[2..]);
      } else {
        GroupDigits(s[1..]);
      }
    }
    assert DropUnderscores(s) == [s[0]] + rest;
  }

  /** A string of digits has no underscores to drop. */
  lemma {:induction false} DropNoUnderscores(s: String)
    requires AllDigits(s)
    ensures DropUnderscores(s) == s
    decreases |s|
  {
    if s != [] {
      DropNoUnderscores(s[1..]);
      assert s == [s[0]] + s[1..];
    }
  }

  /** The value of a digit group, underscores ignored. */
  function GroupValue(s: String): nat
    requires IsDigitGroup(s)
  {
    GroupDigits(s);
    DigitsValue(DropUnderscores(s))
  }

  /** A leading `+` or `-` of a number token. */
  predicate HasSign(s: String) {
    |s| > 0 && (s[0] == '+' || s[0] == '-')
  }

  /** The token without its sign. */
  function Unsigned(s: String): String {
    if HasSign(s) then s[1..] else s
  }

  /** `int(s)` for a token without surrounding whitespace: an optional sign, then a digit group. */
  function ParseInt(s: String): Option<int> {
    var digits := Unsigned(s);
    if IsDigitGroup(digits) then
      var v: int := GroupValue(digits);
      Some(if HasSign(s) && s[0] == '-' then -v else v)
    else None
  }

  /** The value `0.d1d2...` of the digits `d1d2...` after a decimal point. */
  function DigitsFraction(d: String): (r: real)
    requires AllDigits(d)
    ensures 0.0 <= r < 1.0
  {
    if d == [] then 0.0 else ((d[0] as int - '0' as int) as real + DigitsFraction(d[1..])) / 10.0
  }

  /** The value of the digit group after a decimal point, underscores ignored. */
  function FractionValue(f: String): real
    requires IsDigitGroup(f)
  {
    GroupDigits(f);
    DigitsFraction(DropUnderscores(f))
  }

  /** `float(s)` on an unsigned decimal literal: `W`, `W.`, `W.F` or `.F`. */
  function ParseUnsignedDecimal(s: String): Option<real> {
    if '.' !in s then
      if IsDigitGroup(s) then Some(GroupValue(s) as real) else None
    else
      var i := IndexOf(s, '.');
      PointDecimal(s[..i], s[i + 1..])
  }

  /** The value of `W.F` from the text `W` before the point and `F` after it; either may be
      empty, not both. */
  function PointDecimal(whole: String, frac: String): Option<real> {
    if (whole == [] || IsDigitGroup(whole)) && (frac == [] || IsDigitGroup(frac)) && (whole != [] || frac != []) then
      Some((if whole == [] then 0.0 else GroupValue(whole) as real) + (if frac == [] then 0.0 else FractionValue(frac)))
    else None
  }

  /** `float(s)` on a token without surrounding whitespace, written in plain decimal notation. */
  function ParseDecimal(s: String): Option<real> {
    match ParseUnsignedDecimal(Unsigned(s))
    case None => None
    case Some(v) => Some(if HasSign(s) && s[0] == '-' then -v else v)
  }

  // ---------------------------------------------------------------- formatting

  function DigitChar(d: nat): (c: char)
    requires d < 10
    ensures IsDigit(c) && c as int - '0' as int == d
  {
    ('0' as int + d) as char
  }

  /** `str(n)` for a natural number. */
  function ShowNat(n: nat): (s: String)
    ensures s != [] && AllDigits(s)
  {
    if n < 10 then [DigitChar(n)] else ShowNat(n / 10) + [DigitChar(n % 10)]
  }

  /** `str(i)` for an integer. */
  function ShowInt(i: int): String {
    if i < 0 then ['-'] + ShowNat(-i) else ShowNat(i)
  }

  /** `"%02d" % n` */
  function Show2(n: nat): String
    requires n < 100
  {
    [DigitChar(n / 10), DigitChar(n % 10)]
  }

  /** `"%03d" % n` */
  function Show3(n: nat): String
    requires n < 1000
  {
    [DigitChar(n / 100), DigitChar(n / 10 % 10), DigitChar(n % 10)]
  }

  lemma {:induction false} DigitsValueShowNat(n: nat)
    ensures DigitsValue(ShowNat(n)) == n
  {
    if n >= 10 {
      var s := ShowNat(n);
      assert s[..|s| - 1] == ShowNat(n / 10);
      DigitsValueShowNat(n / 10);
    }
  }

  lemma {:induction false} AllDigitsIsDigitGroup(s: String)
    requires s != [] && AllDigits(s)
    ensures IsDigitGroup(s) && GroupValue(s) == DigitsValue(s)
    decreases |s|
  {
    if |s| > 1 {
      AllDigitsIsDigitGroup(s[1..]);
    }
    DropNoUnderscores(s);
  }

  /** `int(str(i)) == i` */
  lemma ParseIntShowInt(i: int)
    ensures ParseInt(ShowInt(i)) == Some(i)
  {
    var n: nat := if i < 0 then -i else i;
    var d := ShowNat(n);
    DigitsValueShowNat(n);
    AllDigitsIsDigitGroup(d);
    assert IsDigit(d[0]);
    if i < 0 {
      assert ShowInt(i) == ['-'] + d;
      assert (['-'] + d)[1..] == d;
    } else {
      assert ShowInt(i) == d;
    }
  }

  lemma Show2Value(n: nat)
    requires n < 100
    ensures ParseInt(Show2(n)) == Some(n)
  {
    var s := Show2(n);
    assert s[..1][..0] == [];
    assert DigitsValue(s[..1]) == n / 10;
    assert DigitsValue(s) == 10 * (n / 10) + n % 10;
    AllDigitsIsDigitGroup(s);
  }

  /** The three digits `Show3` prints, and the number they stand for. */
  lemma Show3Split(n: nat)
    requires n < 1000
    ensures n / 100 < 10 && n / 10 % 10 < 10 && n % 10 < 10
    ensures Show3(n) == [DigitChar(n / 100), DigitChar(n / 10 % 10), DigitChar(n % 10)]
    ensures n == 100 * (n / 100) + 10 * (n / 10 % 10) + n % 10
  {
  }

  lemma ThreeDigitsValue(a: nat, b: nat, c: nat)
    requires a < 10 && b < 10 && c < 10
    ensures AllDigits([DigitChar(a), DigitChar(b), DigitChar(c)])
    ensures DigitsValue([DigitChar(a), DigitChar(b), DigitChar(c)]) == 100 * a + 10 * b + c
  {
    var s := [DigitChar(a), DigitChar(b), DigitChar(c)];
    assert s[..2] == [DigitChar(a), DigitChar(b)] && s[..2][..1] == [DigitChar(a)];
    assert s[..2][..1][..0] == [];
    assert DigitsValue(s[..2][..1]) == a;
    assert DigitsValue(s[..2]) == 10 * a + b;
  }

  lemma ThreeDigitsFraction(a: nat, b: nat, c: nat)
    requires a < 10 && b < 10 && c < 10
    ensures AllDigits([DigitChar(a), DigitChar(b), DigitChar(c)])
    ensures DigitsFraction([DigitChar(a), DigitChar(b), DigitChar(c)]) == (100 * a + 10 * b + c) as real / 1000.0
  {
    var s := [DigitChar(a), DigitChar(b), DigitChar(c)];
    assert s[1..] == [DigitChar(b), DigitChar(c)] && s[1..][1..] == [DigitChar(c)];
    assert s[1..][1..][1..] == [];
    assert DigitsFraction(s[1..][1..]) == c as real / 10.0;
    assert DigitsFraction(s[1..]) == (b as real + c as real / 10.0) / 10.0;
  }

  lemma Show3Digits(n: nat)
    requires n < 1000
    ensures AllDigits(Show3(n)) && DigitsValue(Show3(n)) == n
  {
    Show3Split(n);
    ThreeDigitsValue(n / 100, n / 10 % 10, n % 10);
  }

  lemma Show3Value(n: nat)
    requires n < 1000
    ensures IsDigitGroup(Show3(n)) && FractionValue(Show3(n)) == n as real / 1000.0
  {
    Show3Split(n);
    ThreeDigitsFraction(n / 100, n / 10 % 10, n % 10);
    AllDigitsIsDigitGroup(Show3(n));
    DropNoUnderscores(Show3(n));
  }

  /** `float(s)` on a token whose first point, at `i`, follows only digits reads the text
      before the point and the text after it. */
  lemma ParseDecimalAt(s: String, i: nat)
    requires 0 < i < |s| && s[i] == '.' && AllDigits(s[..i])
    ensures ParseDecimal(s) == PointDecimal(s[..i], s[i + 1..])
  {
    assert IndexOf(s, '.') == i by {
      forall k | 0 <= k < i ensures s[..i][k] != '.' {
        assert IsDigit(s[..i][k]);
      }
      IndexOfUnique(s, '.', i);
    }
    assert s[0] == s[..i][0] && IsDigit(s[0]);
  }

  lemma AroundSeparator(a: String, c: char, b: String)
    ensures (a + [c] + b)[|a|] == c
    ensures (a + [c] + b)[..|a|] == a && (a + [c] + b)[|a| + 1..] == b
  {
  }

  /** `float(s)` on digits, a point and a digit group is the whole part plus the fraction. */
  lemma PointValue(s: String, i: nat, w: nat, x: real)
    requires 0 < i < |s| && s[i] == '.' && AllDigits(s[..i]) && DigitsValue(s[..i]) == w
    requires IsDigitGroup(s[i + 1..]) && FractionValue(s[i + 1..]) == x
    ensures ParseDecimal(s) == Some(w as real + x)
  {
    ParseDecimalAt(s, i);
    AllDigitsIsDigitGroup(s[..i]);
  }

  /** `float("W.FFF") == W + FFF/1000`: the millisecond latency as `ping` prints it. */
  lemma ParseDecimalShow(w: nat, f: nat)
    requires f < 1000
    ensures ParseDecimal(ShowNat(w) + ['.'] + Show3(f)) == Some(w as real + f as real / 1000.0)
  {
    var whole, frac := ShowNat(w), Show3(f);
    AroundSeparator(whole, '.', frac);
    DigitsValueShowNat(w);
    Show3Value(f);
    PointValue(whole + ['.'] + frac, |whole|, w, f as real / 1000.0);
  }
}
