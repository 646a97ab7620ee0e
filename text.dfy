/**
 * String helpers with the meaning PHP and SQLite give them: decimal text,
 * PCRE's `\w` class, `trim`, `explode`/`implode`, byte-wise string order and
 * SQL `LIKE`. Strings are sequences of Unicode scalar values; ordering them by
 * code point is the same as ordering their UTF-8 encodings byte by byte.
 */
module Text {

  // ---------------------------------------------------------------- digits

  predicate IsDigit(c: char) { '0' <= c <= '9' }

  predicate AllDigits(s: string) { forall i :: 0 <= i < |s| ==> IsDigit(s[i]) }

  predicate EndsWithDigit(s: string) { s != [] && IsDigit(s[|s| - 1]) }

  /** PCRE's `\d` without the /u flag: some ASCII digit occurs in `s`. */
  predicate HasDigit(s: string) { exists i :: 0 <= i < |s| && IsDigit(s[i]) }

  function DigitValue(c: char): (d: nat)
    requires IsDigit(c)
    ensures d < 10
  {
    c as int - '0' as int
  }

  function DigitChar(d: nat): (c: char)
    requires d < 10
    ensures IsDigit(c) && DigitValue(c) == d
  {
    ('0' as int + d) as char
  }

  function Pow10(k: nat): (p: nat)
    ensures p >= 1
  {
    if k == 0 then 1 else 10 * Pow10(k - 1)
  }

  /** The number a string of decimal digits denotes (most significant first). */
  function DigitsValue(s: string): nat
    requires AllDigits(s)
  {
    if s == [] then 0 else DigitsValue(s[..|s| - 1]) * 10 + DigitValue(s[|s| - 1])
  }

  /** PHP's string conversion of a non-negative integer: shortest decimal text. */
  function NatToString(n: nat): (s: string)
    ensures 1 <= |s| && AllDigits(s)
  {
    if n < 10 then [DigitChar(n)] else NatToString(n / 10) + [DigitChar(n % 10)]
  }

  /** PHP's string conversion of an integer. */
  function IntToString(i: int): string
  {
    if i < 0 then "-" + NatToString(-i) else NatToString(i)
  }

  lemma {:induction false} DigitsValueSnoc(s: string, c: char)
    requires AllDigits(s) && IsDigit(c)
    ensures AllDigits(s + [c]) && DigitsValue(s + [c]) == DigitsValue(s) * 10 + DigitValue(c)
  {
    assert (s + [c])[..|s + [c]| - 1] == s;
  }

  /** Reading back the decimal text of `n` yields `n`. */
  lemma {:induction false} NatToStringValue(n: nat)
    ensures DigitsValue(NatToString(n)) == n
  {
    if n < 10 {
      assert NatToString(n) == [] + [DigitChar(n)];
      DigitsValueSnoc([], DigitChar(n));
    } else {
      NatToStringValue(n / 10);
      DigitsValueSnoc(NatToString(n / 10), DigitChar(n % 10));
    }
  }

  /** Different numbers have different decimal texts. */
  lemma NatToStringInjective(a: nat, b: nat)
    requires NatToString(a) == NatToString(b)
    ensures a == b
  {
    NatToStringValue(a);
    NatToStringValue(b);
  }

  /** The last `w` decimal digits of `n`, left-padded with zeros: PHP's
      two- and four-digit date fields ('m', 'd', 'H', 'i', 's', 'Y'). */
  function FixedDigits(n: nat, w: nat): (s: string)
    ensures |s| == w && AllDigits(s)
  {
    if w == 0 then [] else FixedDigits(n / 10, w - 1) + [DigitChar(n % 10)]
  }

  /** A fixed-width field that is wide enough reads back as the number it shows. */
  lemma {:induction false} FixedDigitsValue(n: nat, w: nat)
    requires n < Pow10(w)
    ensures DigitsValue(FixedDigits(n, w)) == n
  {
    if w > 0 {
      FixedDigitsValue(n / 10, w - 1);
      DigitsValueSnoc(FixedDigits(n / 10, w - 1), DigitChar(n % 10));
    }
  }

  /** A digit string is the fixed-width rendering of its own value. */
  lemma {:induction false} DigitsFixed(s: string)
    requires AllDigits(s)
    ensures DigitsValue(s) < Pow10(|s|)
    ensures FixedDigits(DigitsValue(s), |s|) == s
  {
    if s != [] {
      var p := s[..|s| - 1];
      DigitsFixed(p);
      var v := DigitsValue(s);
      assert v / 10 == DigitsValue(p) && v % 10 == DigitValue(s[|s| - 1]);
      assert DigitChar(v % 10) == s[|s| - 1];
      assert p + [s[|s| - 1]] == s;
    }
  }

  // ---------------------------------------------------------------- order

  /** Lexicographic order by code point: SQLite's BINARY collation on TEXT. */
  predicate LexLess(a: string, b: string)
    decreases |a|
  {
    if a == [] then b != []
    else if b == [] then false
    else if a[0] != b[0] then a[0] < b[0]
    else LexLess(a[1..], b[1..])
  }

  /** Comparing two strings that start with equally long parts: the parts decide
      unless they are equal, in which case the rests decide. */
  lemma {:induction false} LexLessConcat(a: string, x: string, b: string, y: string)
    requires |a| == |b|
    ensures LexLess(a + x, b + y) <==> LexLess(a, b) || (a == b && LexLess(x, y))
  {
    if a == [] {
      assert a + x == x && b + y == y;
    } else {
      assert (a + x)[0] == a[0] && (b + y)[0] == b[0];
      assert (a + x)[1..] == a[1..] + x && (b + y)[1..] == b[1..] + y;
      if a[0] == b[0] {
        LexLessConcat(a[1..], x, b[1..], y);
        assert a == [a[0]] + a[1..] && b == [b[0]] + b[1..];
      }
    }
  }

  lemma {:induction false} LexLessIrreflexive(a: string)
    ensures !LexLess(a, a)
  {
    if a != [] {
      LexLessIrreflexive(a[1..]);
    }
  }

  /** Zero-padded fields of one width compare as text exactly as their numbers do. */
  lemma {:induction false} FixedDigitsOrder(n: nat, m: nat, w: nat)
    requires n < Pow10(w) && m < Pow10(w)
    ensures LexLess(FixedDigits(n, w), FixedDigits(m, w)) <==> n < m
    ensures FixedDigits(n, w) == FixedDigits(m, w) <==> n == m
  {
    if w == 0 {
      assert n == 0 && m == 0;
    } else {
      var pn, pm := FixedDigits(n / 10, w - 1), FixedDigits(m / 10, w - 1);
      var dn, dm := DigitChar(n % 10), DigitChar(m % 10);
      assert n / 10 < Pow10(w - 1) && m / 10 < Pow10(w - 1);
      FixedDigitsOrder(n / 10, m / 10, w - 1);
      LexLessConcat(pn, [dn], pm, [dm]);
      assert LexLess([dn], [dm]) <==> n % 10 < m % 10 by {
        assert [dn][1..] == [] && [dm][1..] == [];
      }
      assert n == 10 * (n / 10) + n % 10 && m == 10 * (m / 10) + m % 10;
      if FixedDigits(n, w) == FixedDigits(m, w) {
        assert FixedDigits(n, w)[..w - 1] == pn && FixedDigits(m, w)[..w - 1] == pm;
        assert FixedDigits(n, w)[w - 1] == dn && FixedDigits(m, w)[w - 1] == dm;
        assert DigitValue(dn) == DigitValue(dm);
      }
    }
  }

  // ---------------------------------------------------------------- case

  /** ASCII lower-casing (SQLite folds only ASCII letters). */
  function Lower(c: char): (r: char)
    ensures !('A' <= r <= 'Z')
  {
    if 'A' <= c <= 'Z' then (c as int + 32) as char else c
  }

  /** ASCII upper-casing (PCRE's /i on ASCII letters). */
  function Upper(c: char): (r: char)
    ensures !('a' <= r <= 'z')
  {
    if 'a' <= c <= 'z' then (c as int - 32) as char else c
  }

  function LowerString(s: string): (r: string)
    ensures |r| == |s| && forall i :: 0 <= i < |s| ==> r[i] == Lower(s[i])
  {
    seq(|s|, i requires 0 <= i < |s| => Lower(s[i]))
  }

  /** Text without upper-case ASCII letters is its own lower-case form. */
  lemma LowerStringUnchanged(s: string)
    requires forall i :: 0 <= i < |s| ==> !('A' <= s[i] <= 'Z')
    ensures LowerString(s) == s
  {
  }

  // ---------------------------------------------------------------- PCRE \W+

  /** A character PCRE's `\w` matches without the /u flag: ASCII letters, digits, `_`. */
  predicate IsWordChar(c: char) { 'a' <= c <= 'z' || 'A' <= c <= 'Z' || IsDigit(c) || c == '_' }

  /** The first position at or after `i` holding a word character, or the end. */
  function SkipNonWord(s: string, i: nat): (j: nat)
    requires i <= |s|
    ensures i <= j <= |s|
    ensures forall k :: i <= k < j ==> !IsWordChar(s[k])
    ensures j < |s| ==> IsWordChar(s[j])
    decreases |s| - i
  {
    if i == |s| || IsWordChar(s[i]) then i else SkipNonWord(s, i + 1)
  }

  /** `s` without its leading run of non-word characters. */
  function DropNonWord(s: string): (r: string)
    ensures |r| <= |s| && r == s[|s| - |r|..]
    ensures r != [] ==> IsWordChar(r[0])
    ensures r == [] ==> forall i :: 0 <= i < |s| ==> !IsWordChar(s[i])
  {
    s[SkipNonWord(s, 0)..]
  }

  /** `preg_replace('/\W+/', '_', s)`: every maximal run of non-word characters becomes one `_`. */
  function Sanitize(s: string): (r: string)
    ensures forall i :: 0 <= i < |r| ==> IsWordChar(r[i])
    ensures r == [] <==> s == []
    ensures EndsWithDigit(r) <==> EndsWithDigit(s)
    ensures (forall i :: 0 <= i < |s| ==> IsWordChar(s[i])) ==> r == s
    decreases |s|
  {
    if s == [] then []
    else if IsWordChar(s[0]) then
      var t := Sanitize(s[1..]);
      assert s == [s[0]] + s[1..];
      assert EndsWithDigit([s[0]] + t) <==> EndsWithDigit(s) by {
        if t != [] {
          assert ([s[0]] + t)[|t|] == t[|t| - 1];
          assert s[|s| - 1] == s[1..][|s| - 2];
        }
      }
      [s[0]] + t
    else
      var d := DropNonWord(s[1..]);
      var t := Sanitize(d);
      assert EndsWithDigit("_" + t) <==> EndsWithDigit(s) by {
        if d == [] {
          if |s| > 1 {
            assert s[|s| - 1] == s[1..][|s| - 2];
          }
        } else {
          assert d[|d| - 1] == s[|s| - 1];
          assert ("_" + t)[|t|] == t[|t| - 1];
        }
      }
      "_" + t
  }

  /** The longest suffix of `s` made of digits. */
  function TrailingDigits(s: string): (d: string)
    ensures AllDigits(d) && |d| <= |s|
  {
    if EndsWithDigit(s) then TrailingDigits(s[..|s| - 1]) + [s[|s| - 1]] else []
  }

  /** Appending digits to a text that does not end in a digit: the digits can be read back off the end. */
  lemma {:induction false} TrailingDigitsAppend(x: string, d: string)
    requires !EndsWithDigit(x) && AllDigits(d)
    ensures TrailingDigits(x + d) == d
  {
    if d == [] {
      assert x + d == x;
    } else {
      var p := d[..|d| - 1];
      assert (x + d)[..|x + d| - 1] == x + p;
      TrailingDigitsAppend(x, p);
      assert p + [d[|d| - 1]] == d;
    }
  }

  // ---------------------------------------------------------------- whitespace

  /** ASCII whitespace " \t\n\r\v\f": PCRE's `\s` and the blanks PHP allows around a numeric string. */
  predicate IsSpace(c: char)
  {
    c == ' ' || c == '\t' || c == '\n' || c == '\r' || c == '\U{0B}' || c == '\U{0C}'
  }

  // ---------------------------------------------------------------- trim

  /** The characters PHP's `trim` strips by default: " \t\n\r\0\x0B". */
  predicate IsTrimChar(c: char)
  {
    c == ' ' || c == '\t' || c == '\n' || c == '\r' || c == '\0' || c == '\U{0B}'
  }

  /** The first position at or after `i` holding a character `trim` keeps, or the end. */
  function TrimStart(s: string, i: nat): (j: nat)
    requires i <= |s|
    ensures i <= j <= |s|
    ensures forall k :: i <= k < j ==> IsTrimChar(s[k])
    ensures j < |s| ==> !IsTrimChar(s[j])
    decreases |s| - i
  {
    if i == |s| || !IsTrimChar(s[i]) then i else TrimStart(s, i + 1)
  }

  /** The end of `s[..j]` once its trailing run of trim characters is removed. */
  function TrimEnd(s: string, j: nat): (k: nat)
    requires j <= |s|
    ensures k <= j
    ensures forall m :: k <= m < j ==> IsTrimChar(s[m])
    ensures k > 0 ==> !IsTrimChar(s[k - 1])
  {
    if j == 0 || !IsTrimChar(s[j - 1]) then j else TrimEnd(s, j - 1)
  }

  function TrimLeft(s: string): (r: string)
    ensures |r| <= |s| && r == s[|s| - |r|..]
    ensures r != [] ==> !IsTrimChar(r[0])
    ensures r == [] ==> forall i :: 0 <= i < |s| ==> IsTrimChar(s[i])
  {
    s[TrimStart(s, 0)..]
  }

  function TrimRight(s: string): (r: string)
    ensures |r| <= |s| && r == s[..|r|]
    ensures r != [] ==> !IsTrimChar(r[|r| - 1])
    ensures r == [] ==> forall i :: 0 <= i < |s| ==> IsTrimChar(s[i])
  {
    s[..TrimEnd(s, |s|)]
  }

  /** PHP's `trim`: strips the default characters from both ends. */
  function Trim(s: string): (r: string)
    ensures |r| <= |s|
    ensures r == [] <==> forall i :: 0 <= i < |s| ==> IsTrimChar(s[i])
    ensures r != [] ==> !IsTrimChar(r[0]) && !IsTrimChar(r[|r| - 1])
  {
    var l := TrimLeft(s);
    var r := TrimRight(l);
    assert r != [] ==> r[0] == l[0];
    assert r == [] ==> l == [] by {
      assert l != [] ==> !IsTrimChar(l[0]);
    }
    assert (forall i :: 0 <= i < |s| ==> IsTrimChar(s[i])) ==> r == [] by {
      if l != [] {
        assert l[0] == s[|s| - |l|];
      }
    }
    r
  }

  /** Trimming a string that starts and ends with other characters changes nothing. */
  lemma TrimUntouched(s: string)
    requires s != [] ==> !IsTrimChar(s[0]) && !IsTrimChar(s[|s| - 1])
    ensures Trim(s) == s
  {
  }

  /** Trimming twice is trimming once. */
  lemma TrimIdempotent(s: string)
    ensures Trim(Trim(s)) == Trim(s)
  {
    TrimUntouched(Trim(s));
  }

  // ---------------------------------------------------------------- explode

  /** PHP's `explode(sep, s)`: the pieces between occurrences of `sep`; never empty. */
  function Split(s: string, sep: char): (pieces: seq<string>)
    ensures |pieces| >= 1
    ensures forall i :: 0 <= i < |pieces| ==> sep !in pieces[i]
    decreases |s|
  {
    if s == [] then [[]]
    else
      var rest := Split(s[1..], sep);
      if s[0] == sep then [[]] + rest
      else [[s[0]] + rest[0]] + rest[1..]
  }

  /** PHP's `implode(sep, pieces)`. */
  function Join(pieces: seq<string>, sep: char): string
  {
    if pieces == [] then []
    else if |pieces| == 1 then pieces[0]
    else pieces[0] + [sep] + Join(pieces[1..], sep)
  }

  /** `implode` undoes `explode`. */
  lemma {:induction false} JoinSplit(s: string, sep: char)
    ensures Join(Split(s, sep), sep) == s
  {
    if s != [] {
      var rest := Split(s[1..], sep);
      JoinSplit(s[1..], sep);
      if s[0] == sep {
        assert Split(s, sep)[1..] == rest;
      } else {
        var p := Split(s, sep);
        assert p[0] == [s[0]] + rest[0] && p[1..] == rest[1..];
        if |rest| == 1 {
          assert s == [s[0]] + s[1..];
        } else {
          assert Join(rest, sep) == rest[0] + [sep] + Join(rest[1..], sep);
          assert s == [s[0]] + s[1..];
        }
      }
    }
  }

  lemma {:induction false} SplitPrefix(p: string, t: string, sep: char)
    requires sep !in p
    ensures Split(p + t, sep) == [p + Split(t, sep)[0]] + Split(t, sep)[1..]
  {
    if p == [] {
      var q := Split(t, sep);
      assert p + t == t && p + q[0] == q[0];
      assert [q[0]] + q[1..] == q;
    } else {
      assert (p + t)[0] == p[0] && (p + t)[1..] == p[1..] + t;
      SplitPrefix(p[1..], t, sep);
      assert [p[0]] + (p[1..] + Split(t, sep)[0]) == p + Split(t, sep)[0];
    }
  }

  /** `explode` undoes `implode` when no piece contains the separator. */
  lemma {:induction false} SplitJoin(pieces: seq<string>, sep: char)
    requires |pieces| >= 1
    requires forall i :: 0 <= i < |pieces| ==> sep !in pieces[i]
    ensures Split(Join(pieces, sep), sep) == pieces
  {
    if |pieces| == 1 {
      SplitPrefix(pieces[0], [], sep);
      assert pieces[0] + [] == pieces[0];
    } else {
      var tail := Join(pieces[1..], sep);
      SplitJoin(pieces[1..], sep);
      assert pieces[0] + [sep] + tail == pieces[0] + ([sep] + tail);
      SplitPrefix(pieces[0], [sep] + tail, sep);
      assert ([sep] + tail)[1..] == tail;
      assert Split([sep] + tail, sep) == [[]] + pieces[1..];
      assert pieces[0] + [] == pieces[0];
      assert [pieces[0]] + pieces[1..] == pieces;
    }
  }

  // ---------------------------------------------------------------- LIKE

  /** SQLite's default `LIKE`: `%` matches any run, `_` any one character,
      ASCII letters match regardless of case, there is no escape character. */
  predicate Like(s: string, p: string)
    decreases |s| + |p|
  {
    if p == [] then s == []
    else if p[0] == '%' then Like(s, p[1..]) || (s != [] && Like(s[1..], p))
    else s != [] && (p[0] == '_' || Lower(p[0]) == Lower(s[0])) && Like(s[1..], p[1..])
  }

  /** A pattern without wildcards matches exactly the strings equal to it up to ASCII case. */
  lemma {:induction false} LikeLiteral(s: string, p: string)
    requires forall i :: 0 <= i < |p| ==> p[i] != '%' && p[i] != '_'
    ensures Like(s, p) <==> LowerString(s) == LowerString(p)
  {
    if p == [] {
    } else if s == [] {
      assert |LowerString(p)| == |p| > 0;
    } else {
      LikeLiteral(s[1..], p[1..]);
      assert LowerString(s) == [Lower(s[0])] + LowerString(s[1..]);
      assert LowerString(p) == [Lower(p[0])] + LowerString(p[1..]);
    }
  }
}
