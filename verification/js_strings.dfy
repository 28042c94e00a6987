/**
  The JavaScript string operations the extension relies on
  (`trim`, `toLowerCase`, `toUpperCase`, `indexOf`, `includes`, `split`,
  `join`, `parseInt` and number-to-string conversion), written over
  `seq<char>`.
*/
module JsStrings {
  import opened Wrappers

  /** The WhiteSpace and LineTerminator code points of ECMAScript: what
      `trim` removes and what `parseInt` skips. */
  predicate IsSpace(c: char) {
    || c == ' ' || c == '\t' || c == '\n' || c == '\r'
    || c == '\U{B}' || c == '\U{C}' || c == '\U{A0}' || c == '\U{1680}'
    || ('\U{2000}' <= c <= '\U{200A}')
    || c == '\U{2028}' || c == '\U{2029}' || c == '\U{202F}' || c == '\U{205F}'
    || c == '\U{3000}' || c == '\U{FEFF}'
  }

  /** Neither end of `s` is white space. */
  predicate IsTrimmed(s: string) {
    s == [] || (!IsSpace(s[0]) && !IsSpace(s[|s| - 1]))
  }

  /** `s` with its leading white space removed. */
  function TrimStart(s: string): (r: string)
    ensures |r| <= |s| && r == s[|s| - |r|..]
    ensures forall i :: 0 <= i < |s| - |r| ==> IsSpace(s[i])
    ensures r == [] || !IsSpace(r[0])
  {
    if |s| > 0 && IsSpace(s[0]) then TrimStart(s[1..]) else s
  }

  /** `s` with its trailing white space removed. */
  function TrimEnd(s: string): (r: string)
    ensures |r| <= |s| && r == s[..|r|]
    ensures forall i :: |r| <= i < |s| ==> IsSpace(s[i])
    ensures r == [] || !IsSpace(r[|r| - 1])
  {
    if |s| > 0 && IsSpace(s[|s| - 1]) then TrimEnd(s[..|s| - 1]) else s
  }

  /** `String.prototype.trim`: the result is the middle of `s`, only white
      space is cut off, and neither end of the result is white space. */
  function Trim(s: string): (r: string)
    ensures IsTrimmed(r)
    ensures |r| <= |s|
    ensures var k := |s| - |TrimStart(s)|; MatchAt(s, r, k)
    ensures forall i :: 0 <= i < |s| - |TrimStart(s)| ==> IsSpace(s[i])
    ensures forall i :: |s| - |TrimStart(s)| + |r| <= i < |s| ==> IsSpace(s[i])
  {
    var t := TrimStart(s);
    var r := TrimEnd(t);
    TrimEndOfTrimStart(s, t, r);
    assert forall i :: |s| - |t| + |r| <= i < |s| ==> s[i] == t[i - (|s| - |t|)];
    r
  }

  /** Cutting the trailing blanks after the leading ones leaves the middle of `s`. */
  lemma TrimEndOfTrimStart(s: string, t: string, r: string)
    requires |t| <= |s| && t == s[|s| - |t|..] && (t == [] || !IsSpace(t[0]))
    requires |r| <= |t| && r == t[..|r|] && (r == [] || !IsSpace(r[|r| - 1]))
    ensures IsTrimmed(r)
    ensures MatchAt(s, r, |s| - |t|)
  {
    assert r != [] ==> r[0] == t[0];
  }

  lemma TrimOfTrimmed(s: string)
    requires IsTrimmed(s)
    ensures Trim(s) == s
  {
  }

  /** One leading blank, as `join(", ")` produces after each comma, is cut off again. */
  lemma TrimBlankPrefix(s: string)
    requires IsTrimmed(s)
    ensures Trim([' '] + s) == s
  {
    assert ([' '] + s)[1..] == s;
  }

  /** A leading blank is cut off with the rest of the leading white space. */
  lemma TrimLeadingBlank(s: string)
    ensures Trim([' '] + s) == Trim(s)
  {
    assert ([' '] + s)[1..] == s;
    assert TrimStart([' '] + s) == TrimStart(s);
  }

  function LowerChar(c: char): char {
    if 'A' <= c <= 'Z' then (c as int + 32) as char else c
  }

  function UpperChar(c: char): char {
    if 'a' <= c <= 'z' then (c as int - 32) as char else c
  }

  /** `String.prototype.toLowerCase`, on the ASCII letters. */
  function ToLowerCase(s: string): (r: string)
    ensures |r| == |s|
    ensures forall i :: 0 <= i < |s| ==> r[i] == LowerChar(s[i])
  {
    if s == [] then [] else [LowerChar(s[0])] + ToLowerCase(s[1..])
  }

  /** `String.prototype.toUpperCase`, on the ASCII letters. */
  function ToUpperCase(s: string): (r: string)
    ensures |r| == |s|
    ensures forall i :: 0 <= i < |s| ==> r[i] == UpperChar(s[i])
  {
    if s == [] then [] else [UpperChar(s[0])] + ToUpperCase(s[1..])
  }

  /** `s` holds no upper-case letter, so lower-casing leaves it unchanged. */
  predicate IsLowerCase(s: string) {
    forall i :: 0 <= i < |s| ==> LowerChar(s[i]) == s[i]
  }

  lemma LowerCaseIdempotent(s: string)
    ensures IsLowerCase(ToLowerCase(s))
    ensures ToLowerCase(ToLowerCase(s)) == ToLowerCase(s)
  {
  }

  lemma LowerCaseOfLower(s: string)
    requires IsLowerCase(s)
    ensures ToLowerCase(s) == s
  {
  }

  lemma TrimKeepsLowerCase(s: string)
    requires IsLowerCase(s)
    ensures IsLowerCase(Trim(s))
  {
    var r := Trim(s);
    var k := |s| - |TrimStart(s)|;
    assert r == s[k..k + |r|];
    forall i | 0 <= i < |r| ensures LowerChar(r[i]) == r[i] {
      assert r[i] == s[k + i];
    }
  }

  /** Lower-casing keeps white space where it was and adds none. */
  lemma LowerCaseKeepsSpace(c: char)
    ensures IsSpace(LowerChar(c)) <==> IsSpace(c)
  {
  }

  predicate MatchAt(s: string, sub: string, i: nat) {
    i + |sub| <= |s| && s[i..i + |sub|] == sub
  }

  function IndexOfFrom(s: string, sub: string, from: nat): (r: int)
    requires from <= |s|
    ensures r == -1 || (from <= r <= |s| && MatchAt(s, sub, r))
    ensures r == -1 ==> forall i: nat :: from <= i <= |s| ==> !MatchAt(s, sub, i)
    ensures r >= 0 ==> forall i: nat :: from <= i < r ==> !MatchAt(s, sub, i)
    decreases |s| - from
  {
    if MatchAt(s, sub, from) then from
    else if from == |s| then -1
    else IndexOfFrom(s, sub, from + 1)
  }

  /** `String.prototype.indexOf`: the first position at which `sub` occurs, or -1. */
  function IndexOf(s: string, sub: string): (r: int)
    ensures r == -1 || (0 <= r <= |s| && MatchAt(s, sub, r))
    ensures r == -1 <==> forall i: nat :: i <= |s| ==> !MatchAt(s, sub, i)
    ensures r >= 0 ==> forall i: nat :: i < r ==> !MatchAt(s, sub, i)
  {
    IndexOfFrom(s, sub, 0)
  }

  /** `String.prototype.includes`. */
  predicate Includes(s: string, sub: string) {
    IndexOf(s, sub) >= 0
  }

  /** An occurrence at any position is found by `includes`. */
  lemma MatchIncludes(s: string, sub: string, i: nat)
    requires MatchAt(s, sub, i)
    ensures Includes(s, sub)
  {
  }

  /** An occurrence inside an occurrence is an occurrence. */
  lemma MatchAtTrans(s: string, t: string, u: string, i: nat, j: nat)
    requires MatchAt(s, t, i) && MatchAt(t, u, j)
    ensures MatchAt(s, u, i + j)
  {
    forall k | 0 <= k < |u| ensures s[i + j + k] == u[k] {
      assert t[j + k] == u[k];
    }
  }

  /** An occurrence in `b` is one in `a + b`, shifted by `|a|`. */
  lemma MatchAtShift(a: string, b: string, u: string, j: nat)
    requires MatchAt(b, u, j)
    ensures MatchAt(a + b, u, |a| + j)
  {
    forall k | 0 <= k < |u| ensures (a + b)[|a| + j + k] == u[k] {
      assert b[j + k] == u[k];
    }
  }

  /** What occurs in a lower-case string is lower-case. */
  lemma MatchAtLowerCase(s: string, sub: string, i: nat)
    requires IsLowerCase(s) && MatchAt(s, sub, i)
    ensures IsLowerCase(sub)
  {
    forall k | 0 <= k < |sub| ensures LowerChar(sub[k]) == sub[k] {
      assert sub[k] == s[i + k];
    }
  }

  /** `trim()` cuts its result out of its argument. */
  lemma TrimOccurs(s: string) returns (i: nat)
    ensures MatchAt(s, Trim(s), i)
  {
    i := |s| - |TrimStart(s)|;
  }

  /** Every piece occurs in the joined string. */
  lemma {:induction false} JoinHasPiece(xs: seq<string>, sep: string, k: nat) returns (i: nat)
    requires k < |xs|
    ensures MatchAt(Join(xs, sep), xs[k], i)
  {
    if |xs| == 1 {
      i := 0;
    } else if k == 0 {
      i := 0;
      assert Join(xs, sep) == xs[0] + (sep + Join(xs[1..], sep));
    } else {
      var j := JoinHasPiece(xs[1..], sep, k - 1);
      MatchAtShift(xs[0] + sep, Join(xs[1..], sep), xs[k], j);
      assert Join(xs, sep) == (xs[0] + sep) + Join(xs[1..], sep);
      i := |xs[0] + sep| + j;
    }
  }

  /** `/[0-9]/` finds a match in `s`. */
  predicate HasDigit(s: string) {
    exists i :: 0 <= i < |s| && '0' <= s[i] <= '9'
  }

  /** `Array.prototype.join` of strings with separator `sep`. */
  function Join(xs: seq<string>, sep: string): string {
    if |xs| == 0 then ""
    else if |xs| == 1 then xs[0]
    else xs[0] + sep + Join(xs[1..], sep)
  }

  /** `String.prototype.split` with a one-character separator: the pieces
      hold no separator and joining them with it gives back `s`. */
  function Split(s: string, sep: char): (r: seq<string>)
    ensures |r| >= 1
    ensures forall i :: 0 <= i < |r| ==> sep !in r[i]
    ensures Join(r, [sep]) == s
  {
    if s == [] then [""]
    else
      var rest := Split(s[1..], sep);
      if s[0] == sep then
        assert s == [sep] + s[1..];
        [""] + rest
      else
        var r := [[s[0]] + rest[0]] + rest[1..];
        assert r[1..] == rest[1..];
        assert s == [s[0]] + s[1..];
        r
  }

  lemma SplitWithoutSeparator(a: string, sep: char)
    requires sep !in a
    ensures Split(a, sep) == [a]
  {
  }

  lemma {:induction false} SplitAtFirst(a: string, sep: char, t: string)
    requires sep !in a
    ensures Split(a + [sep] + t, sep) == [a] + Split(t, sep)
    decreases |a|
  {
    if a == [] {
      assert a + [sep] + t == [sep] + t;
      assert ([sep] + t)[1..] == t;
    } else {
      var s := a + [sep] + t;
      assert s[1..] == a[1..] + [sep] + t;
      SplitAtFirst(a[1..], sep, t);
      assert [s[0]] + a[1..] == a;
    }
  }

  /** Joining two non-empty lists puts one separator between their joins. */
  lemma {:induction false} JoinAppend(xs: seq<string>, ys: seq<string>, sep: string)
    requires |xs| >= 1 && |ys| >= 1
    ensures Join(xs + ys, sep) == Join(xs, sep) + sep + Join(ys, sep)
  {
    assert (xs + ys)[1..] == xs[1..] + ys;
    if |xs| > 1 {
      JoinAppend(xs[1..], ys, sep);
    }
  }

  /** Splitting at a separator between two strings splits each of them. */
  lemma SplitConcat(a: string, sep: char, b: string)
    ensures Split(a + [sep] + b, sep) == Split(a, sep) + Split(b, sep)
  {
    var pa, pb := Split(a, sep), Split(b, sep);
    JoinAppend(pa, pb, [sep]);
    assert forall i :: 0 <= i < |pa + pb| ==> sep !in (pa + pb)[i] by {
      forall i | 0 <= i < |pa + pb| ensures sep !in (pa + pb)[i] {
        if i >= |pa| {
          assert (pa + pb)[i] == pb[i - |pa|];
        }
      }
    }
    SplitJoin(pa + pb, sep);
  }

  /** One step of `split`: the first character either ends the first piece
      or starts it. */
  lemma SplitFirst(s: string, sep: char)
    requires s != []
    ensures var rest := Split(s[1..], sep);
      Split(s, sep) == if s[0] == sep then [""] + rest else [[s[0]] + rest[0]] + rest[1..]
  {
  }

  /** Splitting undoes joining, when no piece holds the separator. */
  lemma {:induction false} SplitJoin(xs: seq<string>, sep: char)
    requires |xs| >= 1
    requires forall i :: 0 <= i < |xs| ==> sep !in xs[i]
    ensures Split(Join(xs, [sep]), sep) == xs
  {
    if |xs| == 1 {
      SplitWithoutSeparator(xs[0], sep);
    } else {
      SplitJoin(xs[1..], sep);
      SplitAtFirst(xs[0], sep, Join(xs[1..], [sep]));
      assert [xs[0]] + xs[1..] == xs;
    }
  }

  /** Every piece of `split`, trimmed, occurs in the split string. */
  lemma TrimmedPieceOccurs(s: string, sep: char, k: nat) returns (i: nat)
    requires k < |Split(s, sep)|
    ensures MatchAt(s, Trim(Split(s, sep)[k]), i)
  {
    var pieces := Split(s, sep);
    var i1 := JoinHasPiece(pieces, [sep], k);
    var i2 := TrimOccurs(pieces[k]);
    MatchAtTrans(s, pieces[k], Trim(pieces[k]), i1, i2);
    i := i1 + i2;
  }

  /** The value of an ASCII digit or letter in bases up to 36 (36 for anything else). */
  function DigitValue(c: char): (v: nat)
    ensures v <= 36
  {
    if '0' <= c <= '9' then c as int - '0' as int
    else if 'a' <= c <= 'z' then c as int - 'a' as int + 10
    else if 'A' <= c <= 'Z' then c as int - 'A' as int + 10
    else 36
  }

  /** The length of the longest prefix of `s` made of digits of base `radix`. */
  function DigitPrefix(s: string, radix: nat): (n: nat)
    ensures n <= |s|
    ensures forall i :: 0 <= i < n ==> DigitValue(s[i]) < radix
    ensures n == |s| || DigitValue(s[n]) >= radix
  {
    if |s| > 0 && DigitValue(s[0]) < radix then 1 + DigitPrefix(s[1..], radix) else 0
  }

  /** The number written by the digits `s` in base `radix`. */
  function DigitsValue(s: string, radix: nat): nat {
    if s == [] then 0
    else DigitsValue(s[..|s| - 1], radix) * radix + DigitValue(s[|s| - 1])
  }

  /** Global `parseInt(s)` with no radix argument: white space is skipped,
      a sign is read, a `0x`/`0X` prefix selects base 16, and the longest run
      of digits that follows is read; `None` stands for `NaN`. */
  function ParseInt(s: string): Option<int> {
    var t := TrimStart(s);
    var negative := |t| > 0 && t[0] == '-';
    var u := if |t| > 0 && (t[0] == '-' || t[0] == '+') then t[1..] else t;
    var hex := |u| >= 2 && u[0] == '0' && (u[1] == 'x' || u[1] == 'X');
    var radix := if hex then 16 else 10;
    var digits := if hex then u[2..] else u;
    var n := DigitPrefix(digits, radix);
    if n == 0 then None
    else
      var v: int := DigitsValue(digits[..n], radix);
      Some(if negative then -v else v)
  }

  /** `parseInt(s) || 0`: `NaN` (and zero) become 0. */
  function ParseIntOrZero(s: string): int {
    match ParseInt(s)
    case None => 0
    case Some(v) => v
  }

  function DigitChar(d: nat): (c: char)
    requires d < 10
    ensures '0' <= c <= '9' && DigitValue(c) == d
  {
    ('0' as int + d) as char
  }

  /** The decimal numeral of `n`, as template literals and `String(n)` write it. */
  function NumberToString(n: nat): (r: string)
    ensures |r| >= 1
    ensures forall i :: 0 <= i < |r| ==> '0' <= r[i] <= '9'
  {
    if n < 10 then [DigitChar(n)] else NumberToString(n / 10) + [DigitChar(n % 10)]
  }

  /** Negative numbers get a leading minus sign. */
  function IntToString(i: int): string {
    if i < 0 then "-" + NumberToString(-i) else NumberToString(i)
  }

  lemma {:induction false} DigitsValueOfNumeral(n: nat)
    ensures DigitsValue(NumberToString(n), 10) == n
  {
    var s := NumberToString(n);
    if n >= 10 {
      DigitsValueOfNumeral(n / 10);
      assert s[..|s| - 1] == NumberToString(n / 10);
    }
  }

  /** `parseInt` reads back every numeral `NumberToString` writes. */
  lemma {:induction false} DigitPrefixOfDigits(s: string)
    requires forall i :: 0 <= i < |s| ==> '0' <= s[i] <= '9'
    ensures DigitPrefix(s, 10) == |s|
  {
    if s != [] {
      DigitPrefixOfDigits(s[1..]);
    }
  }

  /** `parseInt` of a plain run of decimal digits (not `0x`) is its value. */
  lemma ParseDecimal(s: string)
    requires |s| > 0 && forall i :: 0 <= i < |s| ==> '0' <= s[i] <= '9'
    ensures ParseInt(s) == Some(DigitsValue(s, 10))
  {
    assert !IsSpace(s[0]);
    assert TrimStart(s) == s;
    assert s[0] != '-' && s[0] != '+';
    assert !(|s| >= 2 && s[0] == '0' && (s[1] == 'x' || s[1] == 'X'));
    DigitPrefixOfDigits(s);
    assert s[..|s|] == s;
  }

  lemma ParseNumeral(n: nat)
    ensures ParseInt(NumberToString(n)) == Some(n)
  {
    ParseDecimal(NumberToString(n));
    DigitsValueOfNumeral(n);
  }

  /** Distinct numbers have distinct numerals. */
  lemma NumeralInjective(m: nat, n: nat)
    requires NumberToString(m) == NumberToString(n)
    ensures m == n
  {
    ParseNumeral(m);
    ParseNumeral(n);
  }
}
