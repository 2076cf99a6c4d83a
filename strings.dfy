/**
 * The few Python `str` operations the planner relies on: `sep.join`,
 * `s.split(sep)`, `s.strip()`, `s.startswith(p)`,
 * `str(n)`, `int(s)` and the `<=` order that `sorted` uses on paths.
 */
module Strings {
  import opened Wrappers

  /** Python's `sep.join(parts)`. */
  function Join(parts: seq<string>, sep: string): string
  {
    if |parts| == 0 then ""
    else if |parts| == 1 then parts[0]
    else parts[0] + sep + Join(parts[1..], sep)
  }

  /** Position of the first occurrence of `c` in `s`. */
  function IndexOf(s: string, c: char): (k: nat)
    requires c in s
    ensures k < |s| && s[k] == c && c !in s[..k]
  {
    if s[0] == c then 0
    else
      var k := 1 + IndexOf(s[1..], c);
      assert s[..k] == [s[0]] + s[1..][..k - 1];
      k
  }

  /** Python's `s.split(sep)` for a one-character separator. */
  function Split(s: string, sep: char): (parts: seq<string>)
    ensures |parts| >= 1
    ensures forall i :: 0 <= i < |parts| ==> sep !in parts[i]
    ensures Join(parts, [sep]) == s
    decreases |s|
  {
    if sep !in s then [s]
    else
      var k := IndexOf(s, sep);
      var rest := Split(s[k + 1..], sep);
      assert s == s[..k] + [sep] + s[k + 1..];
      [s[..k]] + rest
  }

  /** Splitting a joined sequence gives back the pieces, when no piece holds the separator. */
  lemma {:induction false} SplitJoin(parts: seq<string>, sep: char)
    requires |parts| >= 1
    requires forall i :: 0 <= i < |parts| ==> sep !in parts[i]
    ensures Split(Join(parts, [sep]), sep) == parts
  {
    if |parts| > 1 {
      var s := Join(parts, [sep]);
      var rest := Join(parts[1..], [sep]);
      assert s == parts[0] + [sep] + rest;
      assert s[|parts[0]|] == sep;
      var k := IndexOf(s, sep);
      assert s[..|parts[0]|] == parts[0];
      assert k == |parts[0]|;
      assert s[k + 1..] == rest;
      SplitJoin(parts[1..], sep);
    }
  }

  /** Python's `s.startswith(prefix)`. */
  predicate StartsWith(s: string, prefix: string)
  {
    |prefix| <= |s| && s[..|prefix|] == prefix
  }

  /** Python's `str.isspace` on one character: the Unicode whitespace that `strip()` removes. */
  predicate IsSpace(c: char)
  {
    var n := c as int;
    (9 <= n <= 13) || (28 <= n <= 32) || n == 0x85 || n == 0xA0 || n == 0x1680
    || (0x2000 <= n <= 0x200A) || n == 0x2028 || n == 0x2029 || n == 0x202F
    || n == 0x205F || n == 0x3000
  }

  /** `s` without the leading characters `space` accepts. */
  function TrimStart(s: string, space: char -> bool): (r: string)
    ensures |r| <= |s| && r == s[|s| - |r|..]
    ensures r == [] || !space(r[0])
  {
    if s != [] && space(s[0]) then TrimStart(s[1..], space) else s
  }

  /** `s` without the trailing characters `space` accepts. */
  function TrimEnd(s: string, space: char -> bool): (r: string)
    ensures |r| <= |s| && r == s[..|r|]
    ensures r == [] || !space(r[|r| - 1])
  {
    if s != [] && space(s[|s| - 1]) then TrimEnd(s[..|s| - 1], space) else s
  }

  /** `s` without the leading and trailing characters `space` accepts. */
  function Trim(s: string, space: char -> bool): string
  {
    TrimEnd(TrimStart(s, space), space)
  }

  /** Python's `s.strip()`. */
  function Strip(s: string): string
  {
    Trim(s, IsSpace)
  }

  /** Text that neither starts nor ends with a trimmed character is left as it is. */
  lemma TrimUnchanged(s: string, space: char -> bool)
    requires s != [] ==> !space(s[0]) && !space(s[|s| - 1])
    ensures Trim(s, space) == s
  {
  }

  predicate IsDigit(c: char)
  {
    '0' <= c <= '9'
  }

  predicate AllDigits(s: string)
  {
    forall i :: 0 <= i < |s| ==> IsDigit(s[i])
  }

  function DigitChar(d: nat): (c: char)
    requires d < 10
    ensures IsDigit(c)
  {
    ('0' as int + d) as char
  }

  /** The first `c` of `a + [c] + b` is the one after `a` when `a` has none. */
  lemma IndexOfJoined(a: string, c: char, b: string)
    requires c !in a
    ensures IndexOf(a + [c] + b, c) == |a|
  {
    var s := a + [c] + b;
    assert s[|a|] == c;
  }

  /** Python's `str(n)` for a non-negative integer. */
  function NatToString(n: nat): (s: string)
    ensures |s| >= 1 && AllDigits(s)
  {
    if n < 10 then [DigitChar(n)] else NatToString(n / 10) + [DigitChar(n % 10)]
  }

  /** Python's `str(i)` (f-string interpolation of an `int`). */
  function IntToString(i: int): string
  {
    if i < 0 then "-" + NatToString(-i) else NatToString(i)
  }

  /** The value of a run of decimal digits. */
  function DigitsValue(s: string): nat
    requires AllDigits(s)
  {
    if s == [] then 0
    else DigitsValue(s[..|s| - 1]) * 10 + (s[|s| - 1] as int - '0' as int)
  }

  /** Python's `int(s)`, restricted to an optional sign followed by one or more ASCII digits. */
  function ParseInt(s: string): Option<int>
  {
    if |s| > 1 && (s[0] == '-' || s[0] == '+') && AllDigits(s[1..]) then
      Some(if s[0] == '-' then -(DigitsValue(s[1..]) as int) else DigitsValue(s[1..]))
    else if |s| > 0 && AllDigits(s) then
      Some(DigitsValue(s))
    else
      None
  }

  lemma {:induction false} DigitsValueOfNat(n: nat)
    ensures DigitsValue(NatToString(n)) == n
  {
    if n >= 10 {
      DigitsValueOfNat(n / 10);
      var s := NatToString(n);
      assert s[..|s| - 1] == NatToString(n / 10);
    }
  }

  /** Rendering an integer and parsing it back gives the integer. */
  lemma ParseIntRoundTrip(i: int)
    ensures ParseInt(IntToString(i)) == Some(i)
  {
    if i < 0 {
      DigitsValueOfNat(-i);
      assert IntToString(i)[1..] == NatToString(-i);
    } else {
      DigitsValueOfNat(i);
    }
  }

  /**
   * The whitespace CPython's `int()` skips around the digits of a `str`:
   * below 128 only space, tab, line feed, vertical tab, form feed and
   * carriage return (the separators U+001C to U+001F are not skipped);
   * above, whatever `str.isspace` accepts.
   */
  predicate IntSpace(c: char)
  {
    if c as int < 128 then c == ' ' || '\t' <= c <= '\r' else IsSpace(c)
  }

  /** CPython's default `sys.int_info.default_max_str_digits`: `int()` refuses a `str` with more digits. */
  const MaxStrDigits: nat := 4300

  /** The number of digits of a text made of an optional sign and digits. */
  function DigitCount(s: string): nat
  {
    if |s| > 0 && (s[0] == '-' || s[0] == '+') then |s| - 1 else |s|
  }

  /** Whether the decimal text of `i` has few enough digits for `int()` to read it back. */
  predicate WithinDigitLimit(i: int)
  {
    |NatToString(if i < 0 then -i else i)| <= MaxStrDigits
  }

  /**
   * Python's `int(s)` on a `str`: the digits may be surrounded by
   * `IntSpace` whitespace, and more than `MaxStrDigits` of them raise
   * `ValueError`.
   */
  function IntOf(s: string): Option<int>
  {
    var t := Trim(s, IntSpace);
    if DigitCount(t) > MaxStrDigits then None else ParseInt(t)
  }

  /** `int(str(i)) == i` for every integer within the digit limit; beyond it `int()` refuses the text. */
  lemma IntOfRoundTrip(i: int)
    ensures IntOf(IntToString(i)) == (if WithinDigitLimit(i) then Some(i) else None)
  {
    var s := IntToString(i);
    IntToStringEnds(i);
    if i < 0 {
      assert DigitCount(s) == |NatToString(-i)|;
    } else {
      assert DigitCount(s) == |NatToString(i)|;
    }
    ParseIntRoundTrip(i);
  }

  /** The decimal text of an integer starts with a sign or a digit, ends with a digit, and `int()` trims nothing off it. */
  lemma IntToStringEnds(i: int)
    ensures var n := IntToString(i);
      && n != [] && (n[0] == '-' || IsDigit(n[0])) && IsDigit(n[|n| - 1])
      && TrimStart(n, IntSpace) == n && Trim(n, IntSpace) == n
  {
    var n := IntToString(i);
    assert n[0] == '-' || IsDigit(n[0]);
    assert IsDigit(n[|n| - 1]);
    assert !IntSpace(n[0]) && !IntSpace(n[|n| - 1]);
    TrimUnchanged(n, IntSpace);
  }

  /**
   * A character in front of a number that is neither a digit nor a sign is
   * skipped by `int()` exactly when it is `IntSpace` whitespace (the number
   * is then read when within the digit limit); any other such character
   * makes the text unreadable.
   */
  lemma IntOfLeadingChar(c: char, i: int)
    requires !IsDigit(c) && c != '-' && c != '+'
    ensures IntOf([c] + IntToString(i)) == (if IntSpace(c) && WithinDigitLimit(i) then Some(i) else None)
  {
    var n := IntToString(i);
    var s := [c] + n;
    IntToStringEnds(i);
    assert s[1..] == n && s[|s| - 1] == n[|n| - 1];
    if IntSpace(c) {
      assert TrimStart(s, IntSpace) == TrimStart(n, IntSpace);
      IntOfRoundTrip(i);
    } else {
      TrimUnchanged(s, IntSpace);
      assert !IsDigit(s[0]);
    }
  }

  /** Rendering is injective: distinct integers have distinct decimal texts. */
  lemma IntToStringInjective(i: int, j: int)
    requires i != j
    ensures IntToString(i) != IntToString(j)
  {
    ParseIntRoundTrip(i);
    ParseIntRoundTrip(j);
  }

  /** The decimal text of an integer holds no line break. */
  lemma IntToStringOneLine(i: int)
    ensures '\n' !in IntToString(i)
  {
  }

  /** Python's `a <= b` on `str`: lexicographic order of code points. */
  predicate LessEq(a: string, b: string)
  {
    |a| == 0 || (|b| > 0 && (a[0] < b[0] || (a[0] == b[0] && LessEq(a[1..], b[1..]))))
  }

  lemma LessEqTotal(a: string, b: string)
    ensures LessEq(a, b) || LessEq(b, a)
  {
    if |a| > 0 && |b| > 0 && a[0] == b[0] {
      LessEqTotal(a[1..], b[1..]);
    }
  }

  lemma LessEqTransitive(a: string, b: string, c: string)
    requires LessEq(a, b) && LessEq(b, c)
    ensures LessEq(a, c)
  {
    if |a| > 0 && |b| > 0 && |c| > 0 && a[0] == b[0] == c[0] {
      LessEqTransitive(a[1..], b[1..], c[1..]);
    }
  }
}
