/** Optional values, standing in for Python's `None` and for operations that raise. */
module Wrappers {

  datatype Option<+T> = None | Some(value: T) {

    /** Returns the wrapped value, or `default` when there is none. */
    function GetOr(default: T): T
    {
      match this
      case Some(v) => v
      case None => default
    }
  }
}

/**
 * The small pieces of Python string behaviour the simulation relies on:
 * `in`, `startswith`, `":".join`, `split("\n")`, `strip()`, `replace(x, "")`,
 * `str(n)` / `int(s)` on decimal digits, and the two integer roundings
 * (`int(a / b)` truncates, `round(a / b)` rounds half to even).
 */
module Strings {
  import opened Wrappers

  /** `s.startswith(p)`. */
  predicate IsPrefix(p: string, s: string)
  {
    |p| <= |s| && s[..|p|] == p
  }

  /** `sub in s`: `sub` occurs at some position of `s`; the empty string occurs everywhere. */
  predicate Contains(s: string, sub: string)
    decreases |s|
  {
    IsPrefix(sub, s) || (|s| > 0 && Contains(s[1..], sub))
  }

  /** Substring search, stated as an index where `sub` starts. */
  ghost predicate OccursAt(s: string, sub: string, i: int)
  {
    0 <= i && i + |sub| <= |s| && s[i..i + |sub|] == sub
  }

  lemma ContainsIffOccurs(s: string, sub: string)
    ensures Contains(s, sub) <==> exists i :: OccursAt(s, sub, i)
  {
    if Contains(s, sub) {
      var i := ContainsWitness(s, sub);
    }
    forall i | OccursAt(s, sub, i) ensures Contains(s, sub) {
      OccursContains(s, sub, i);
    }
  }

  /** Where a contained substring starts. */
  lemma {:induction false} ContainsWitness(s: string, sub: string) returns (i: int)
    requires Contains(s, sub)
    ensures OccursAt(s, sub, i)
    decreases |s|
  {
    if IsPrefix(sub, s) {
      i := 0;
    } else {
      var j := ContainsWitness(s[1..], sub);
      assert s[1..][j..j + |sub|] == s[j + 1..j + 1 + |sub|];
      i := j + 1;
    }
  }

  lemma {:induction false} OccursContains(s: string, sub: string, i: int)
    requires OccursAt(s, sub, i)
    ensures Contains(s, sub)
    decreases i
  {
    if i > 0 {
      assert s[1..][i - 1..i - 1 + |sub|] == s[i..i + |sub|];
      OccursContains(s[1..], sub, i - 1);
    }
  }

  /** A string contains its own prefixes. */
  lemma PrefixIsContained(p: string, s: string)
    requires IsPrefix(p, s)
    ensures Contains(s, p)
  {
  }

  /** `sep.join(parts)`. */
  function Join(parts: seq<string>, sep: string): string
    decreases |parts|
  {
    if |parts| == 0 then ""
    else if |parts| == 1 then parts[0]
    else parts[0] + sep + Join(parts[1..], sep)
  }

  /** `s.split(c)` for a one-character separator: always at least one part. */
  function Split(s: string, c: char): (r: seq<string>)
    ensures |r| >= 1
    decreases |s|
  {
    if |s| == 0 then [""]
    else if s[0] == c then [""] + Split(s[1..], c)
    else
      var rest := Split(s[1..], c);
      [[s[0]] + rest[0]] + rest[1..]
  }

  /** A string without the separator is a single part. */
  lemma {:induction false} SplitNoSep(s: string, c: char)
    requires forall i :: 0 <= i < |s| ==> s[i] != c
    ensures Split(s, c) == [s]
    decreases |s|
  {
    if |s| > 0 {
      SplitNoSep(s[1..], c);
      assert [s[0]] + s[1..] == s;
    }
  }

  /** Split of `x + [c] + y` where x holds no separator: x, then the parts of y. */
  lemma {:induction false} SplitAtFirst(x: string, c: char, y: string)
    requires forall i :: 0 <= i < |x| ==> x[i] != c
    ensures Split(x + [c] + y, c) == [x] + Split(y, c)
    decreases |x|
  {
    var s := x + [c] + y;
    if |x| == 0 {
      assert s[1..] == y;
    } else {
      assert s[1..] == x[1..] + [c] + y;
      SplitAtFirst(x[1..], c, y);
      assert [x[0]] + x[1..] == x;
    }
  }

  /** Splitting and joining again with the same separator gives back the string. */
  lemma {:induction false} JoinSplit(s: string, c: char)
    ensures Join(Split(s, c), [c]) == s
    decreases |s|
  {
    if |s| == 0 {
    } else if s[0] == c {
      JoinSplit(s[1..], c);
      var rest := Split(s[1..], c);
      assert Split(s, c) == [""] + rest;
      assert (([""] + rest)[1..]) == rest;
    } else {
      JoinSplit(s[1..], c);
      var rest := Split(s[1..], c);
      var r := [[s[0]] + rest[0]] + rest[1..];
      assert Split(s, c) == r;
      if |rest| == 1 {
        assert Join(r, [c]) == [s[0]] + rest[0];
      } else {
        assert r[1..] == rest[1..];
        assert Join(rest, [c]) == rest[0] + [c] + Join(rest[1..], [c]);
      }
    }
  }

  /** No part of a split contains the separator. */
  lemma {:induction false} SplitPartsFree(s: string, c: char)
    ensures forall k, j :: 0 <= k < |Split(s, c)| && 0 <= j < |Split(s, c)[k]| ==> Split(s, c)[k][j] != c
    decreases |s|
  {
    if |s| > 0 {
      SplitPartsFree(s[1..], c);
    }
  }

  /** The characters Python's `str.isspace` accepts. */
  predicate IsSpace(ch: char)
  {
    ch == ' ' || ch == '\t' || ch == '\n' || ch == '\r' || ch == '\U{000B}' || ch == '\U{000C}'
    || ('\U{001C}' <= ch <= '\U{001F}') || ch == '\U{0085}' || ch == '\U{00A0}' || ch == '\U{1680}'
    || ('\U{2000}' <= ch <= '\U{200A}') || ch == '\U{2028}' || ch == '\U{2029}' || ch == '\U{202F}'
    || ch == '\U{205F}' || ch == '\U{3000}'
  }

  /** Drops the leading characters that satisfy `drop`. */
  function TrimLeft(s: string, drop: char -> bool): (r: string)
    ensures |r| <= |s| && r == s[|s| - |r|..]
    ensures forall i :: 0 <= i < |s| - |r| ==> drop(s[i])
    ensures |r| == 0 || !drop(r[0])
    decreases |s|
  {
    if |s| > 0 && drop(s[0]) then TrimLeft(s[1..], drop) else s
  }

  /** Drops the trailing characters that satisfy `drop`. */
  function TrimRight(s: string, drop: char -> bool): (r: string)
    ensures |r| <= |s| && r == s[..|r|]
    ensures forall i :: |r| <= i < |s| ==> drop(s[i])
    ensures |r| == 0 || !drop(r[|r| - 1])
    decreases |s|
  {
    if |s| > 0 && drop(s[|s| - 1]) then TrimRight(s[..|s| - 1], drop) else s
  }

  /** `s.strip()` (no argument): removes surrounding whitespace. */
  function Strip(s: string): string
  {
    TrimRight(TrimLeft(s, IsSpace), IsSpace)
  }

  /** `s.strip(".")`. */
  function StripDots(s: string): string
  {
    TrimRight(TrimLeft(s, ch => ch == '.'), ch => ch == '.')
  }

  /** `s.replace("**", "")`: left-to-right removal of non-overlapping "**". */
  function RemoveDoubleStars(s: string): (r: string)
    ensures |r| <= |s|
    decreases |s|
  {
    if |s| >= 2 && s[0] == '*' && s[1] == '*' then RemoveDoubleStars(s[2..])
    else if |s| == 0 then ""
    else [s[0]] + RemoveDoubleStars(s[1..])
  }

  /** Whether `s` contains "**". */
  predicate HasDoubleStar(s: string)
  {
    exists i :: 0 <= i < |s| - 1 && s[i] == '*' && s[i + 1] == '*'
  }

  /** After the removal no "**" is left: a surviving '*' is never followed by another. */
  lemma {:induction false} RemoveDoubleStarsClean(s: string)
    ensures !HasDoubleStar(RemoveDoubleStars(s))
    decreases |s|
  {
    if |s| >= 2 && s[0] == '*' && s[1] == '*' {
      RemoveDoubleStarsClean(s[2..]);
    } else if |s| > 0 {
      RemoveDoubleStarsClean(s[1..]);
      var r := RemoveDoubleStars(s[1..]);
      var out := [s[0]] + r;
      assert RemoveDoubleStars(s) == out;
      forall i | 0 <= i < |out| - 1 && out[i] == '*' ensures out[i + 1] != '*' {
        if i == 0 {
          // s[0] is a lone star, so s[1] is not a star and survives at the head of r
          assert s[1] != '*';
          assert r[0] == s[1];
        } else {
          assert out[i] == r[i - 1] && out[i + 1] == r[i];
        }
      }
    }
  }

  /** Drops every character of `cs`: `replace("(", "").replace(")", "")...`. */
  function DropChars(s: string, cs: set<char>): (r: string)
    ensures forall i :: 0 <= i < |r| ==> r[i] !in cs
    ensures |r| <= |s|
    decreases |s|
  {
    if |s| == 0 then ""
    else if s[0] in cs then DropChars(s[1..], cs)
    else [s[0]] + DropChars(s[1..], cs)
  }

  /** Removing characters that do not occur changes nothing. */
  lemma {:induction false} DropCharsAbsent(s: string, cs: set<char>)
    requires forall i :: 0 <= i < |s| ==> s[i] !in cs
    ensures DropChars(s, cs) == s
    decreases |s|
  {
    if |s| > 0 {
      DropCharsAbsent(s[1..], cs);
    }
  }

  predicate IsDigit(ch: char)
  {
    '0' <= ch <= '9'
  }

  function DigitChar(d: nat): char
    requires d < 10
  {
    ('0' as int + d) as char
  }

  function DigitValue(ch: char): nat
    requires IsDigit(ch)
  {
    (ch as int - '0' as int) as nat
  }

  /** `str(n)` for a natural number. */
  function NatStr(n: nat): (r: string)
    ensures |r| >= 1
    ensures forall i :: 0 <= i < |r| ==> IsDigit(r[i])
    decreases n
  {
    if n < 10 then [DigitChar(n)] else NatStr(n / 10) + [DigitChar(n % 10)]
  }

  predicate AllDigits(s: string)
  {
    forall i :: 0 <= i < |s| ==> IsDigit(s[i])
  }

  /** The value of a non-empty string of decimal digits. */
  function DigitsValue(s: string): nat
    requires |s| >= 1 && AllDigits(s)
    decreases |s|
  {
    if |s| == 1 then DigitValue(s[0])
    else 10 * DigitsValue(s[..|s| - 1]) + DigitValue(s[|s| - 1])
  }

  /** `int(s)` for the strings the simulation feeds it: optional surrounding whitespace,
      an optional sign and ASCII digits. Anything else raises, which is `None` here. */
  function ParseInt(s: string): Option<int>
  {
    var t := Strip(s);
    if |t| >= 2 && (t[0] == '-' || t[0] == '+') && AllDigits(t[1..]) then
      var v: int := DigitsValue(t[1..]);
      Some(if t[0] == '-' then -v else v)
    else if |t| >= 1 && AllDigits(t) then Some(DigitsValue(t))
    else None
  }

  lemma {:induction false} DigitsOfNatStr(n: nat)
    ensures DigitsValue(NatStr(n)) == n
    decreases n
  {
    if n >= 10 {
      DigitsOfNatStr(n / 10);
      var s := NatStr(n);
      assert s[..|s| - 1] == NatStr(n / 10);
    }
  }

  lemma StripDigits(s: string)
    requires AllDigits(s)
    ensures Strip(s) == s
  {
    var l := TrimLeft(s, IsSpace);
    assert l == s;
  }

  /** `int(str(n)) == n`. */
  lemma ParseNatStr(n: nat)
    ensures ParseInt(NatStr(n)) == Some(n)
  {
    var s := NatStr(n);
    assert AllDigits(s);
    StripDigits(s);
    assert IsDigit(s[0]);
    DigitsOfNatStr(n);
  }

  /** `str` is injective on naturals, so counter-generated names never collide. */
  lemma NatStrInjective(a: nat, b: nat)
    requires NatStr(a) == NatStr(b)
    ensures a == b
  {
    DigitsOfNatStr(a);
    DigitsOfNatStr(b);
  }

  /** `int(a / b)` for a positive divisor: true division, then truncation toward zero. */
  function TruncDiv(a: int, b: int): (q: int)
    requires b > 0
    ensures a >= 0 ==> q * b <= a < q * b + b
    ensures a < 0 ==> q * b - b < a <= q * b
  {
    if a >= 0 then a / b else -((-a) / b)
  }

  /** `round(a / b)` for a positive divisor: nearest integer, ties to the even one. */
  function RoundDiv(a: int, b: int): (q: int)
    requires b > 0
    ensures 2 * (a - q * b) <= b && -b <= 2 * (a - q * b)
    ensures 2 * (a - q * b) == b ==> q % 2 == 0
    ensures 2 * (a - q * b) == -b ==> q % 2 == 0
  {
    var fl := a / b;
    var r := a % b;
    if 2 * r < b then fl
    else if 2 * r > b then fl + 1
    else if fl % 2 == 0 then fl else fl + 1
  }

  /** On an exact multiple the rounding is the exact quotient. */
  lemma RoundDivExact(k: int, b: int)
    requires b > 0
    ensures RoundDiv(k * b, b) == k
  {
    var a := k * b;
    var d := a / b;
    var r := a % b;
    assert a == b * d + r && 0 <= r < b;
    assert (k - d) * b == r;
    MulSign(k - d, b);
  }

  lemma MulSign(x: int, b: int)
    requires b > 0
    ensures x >= 1 ==> x * b >= b
    ensures x <= -1 ==> x * b <= -b
  {
  }

  /** Adding whole multiples of n moves the quotient and leaves the remainder alone. */
  lemma ModShift(q: int, y: int, n: int)
    requires n > 0
    ensures (n * q + y) / n == q + y / n
    ensures (n * q + y) % n == y % n
  {
    var z := n * q + y;
    var k := z / n - q - y / n;
    assert k * n == y % n - z % n;
    MulSign(k, n);
  }
}
