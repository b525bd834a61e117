/**
  * The few JavaScript string operations the SLA engine relies on:
  * `String.prototype.trim`, `split` on one character, `Number(text)`, the
  * decimal text of a number and `("0" + x).slice(-2)`.
  */
module JsText {

  /** The characters `trim` removes: ECMAScript WhiteSpace and LineTerminator. */
  const JsWhitespace: set<char> := {
    '\t', '\n', '\U{000B}', '\U{000C}', '\r', ' ', '\U{00A0}', '\U{1680}',
    '\U{2000}', '\U{2001}', '\U{2002}', '\U{2003}', '\U{2004}', '\U{2005}',
    '\U{2006}', '\U{2007}', '\U{2008}', '\U{2009}', '\U{200A}',
    '\U{2028}', '\U{2029}', '\U{202F}', '\U{205F}', '\U{3000}', '\U{FEFF}'
  }

  /** Whether `trim` removes `c`. */
  predicate IsJsWhitespace(c: char) {
    c in JsWhitespace
  }

  /** Drops leading whitespace. */
  function TrimStart(s: string): (r: string)
    ensures |r| <= |s| && r == s[|s| - |r|..]
    ensures forall i :: 0 <= i < |s| - |r| ==> IsJsWhitespace(s[i])
    ensures r == [] || !IsJsWhitespace(r[0])
  {
    if |s| > 0 && IsJsWhitespace(s[0]) then TrimStart(s[1..]) else s
  }

  /** Drops trailing whitespace. */
  function TrimEnd(s: string): (r: string)
    ensures |r| <= |s| && r == s[..|r|]
    ensures forall i :: |r| <= i < |s| ==> IsJsWhitespace(s[i])
    ensures r == [] || !IsJsWhitespace(r[|r| - 1])
  {
    if |s| > 0 && IsJsWhitespace(s[|s| - 1]) then TrimEnd(s[..|s| - 1]) else s
  }

  /**
    * `s.trim()`: the slice of `s` left once the whitespace at both ends is
    * removed; only whitespace is removed, and the slice neither starts nor
    * ends with whitespace.
    */
  function Trim(s: string): (r: string)
    ensures TrimmedFrom(s, |s| - |TrimStart(s)|, r)
    ensures r == [] || (!IsJsWhitespace(r[0]) && !IsJsWhitespace(r[|r| - 1]))
  {
    TrimmedSlice(s, TrimStart(s), TrimEnd(TrimStart(s)));
    TrimEnd(TrimStart(s))
  }

  /**
    * `r` is the slice of `s` starting at `i`, and everything of `s` before
    * and after it is whitespace.
    */
  predicate TrimmedFrom(s: string, i: int, r: string) {
    && 0 <= i <= |s| - |r| && r == s[i..i + |r|]
    && (forall j :: 0 <= j < i ==> IsJsWhitespace(s[j]))
    && (forall j :: i + |r| <= j < |s| ==> IsJsWhitespace(s[j]))
  }

  /**
    * Dropping leading whitespace to get `t`, then trailing whitespace to get
    * `r`, keeps a slice of `s` and drops only whitespace around it.
    */
  lemma TrimmedSlice(s: string, t: string, r: string)
    requires |t| <= |s| && t == s[|s| - |t|..]
    requires forall j :: 0 <= j < |s| - |t| ==> IsJsWhitespace(s[j])
    requires |r| <= |t| && r == t[..|r|]
    requires forall j :: |r| <= j < |t| ==> IsJsWhitespace(t[j])
    ensures TrimmedFrom(s, |s| - |t|, r)
  {
    var i := |s| - |t|;
    forall j | i + |r| <= j < |s| ensures IsJsWhitespace(s[j]) {
      assert s[j] == t[j - i];
    }
  }

  /** Rebuilds a string from its parts, putting `sep` between consecutive parts. */
  function Join(parts: seq<string>, sep: char): string
    requires |parts| >= 1
  {
    if |parts| == 1 then parts[0] else parts[0] + [sep] + Join(parts[1..], sep)
  }

  /** `s.split(sep)` for a one-character separator. */
  function Split(s: string, sep: char): (parts: seq<string>)
    ensures |parts| >= 1
    ensures forall i :: 0 <= i < |parts| ==> sep !in parts[i]
    ensures Join(parts, sep) == s
  {
    if |s| == 0 then [""]
    else
      var rest := Split(s[1..], sep);
      assert [s[0]] + s[1..] == s;
      if s[0] == sep then
        assert ([""] + rest)[1..] == rest;
        [""] + rest
      else
        var parts := [[s[0]] + rest[0]] + rest[1..];
        assert parts[1..] == rest[1..];
        assert Join(parts, sep) == [s[0]] + Join(rest, sep);
        parts
  }

  /** Splitting a string with no separator in it gives the string back whole. */
  lemma {:induction false} SplitWithoutSeparator(s: string, sep: char)
    requires sep !in s
    ensures Split(s, sep) == [s]
  {
    if |s| > 0 {
      assert sep !in s[1..] by {
        forall i | 0 <= i < |s| - 1 ensures s[1..][i] != sep { assert s[1..][i] == s[i + 1]; }
      }
      SplitWithoutSeparator(s[1..], sep);
    }
  }

  /** The first separator ends the first part; the rest is split on its own. */
  lemma {:induction false} SplitAtFirstSeparator(a: string, sep: char, b: string)
    requires sep !in a
    ensures Split(a + [sep] + b, sep) == [a] + Split(b, sep)
  {
    var s := a + [sep] + b;
    if |a| == 0 {
      assert s[1..] == b;
    } else {
      assert s[1..] == a[1..] + [sep] + b;
      assert sep !in a[1..] by {
        forall i | 0 <= i < |a| - 1 ensures a[1..][i] != sep { assert a[1..][i] == a[i + 1]; }
      }
      SplitAtFirstSeparator(a[1..], sep, b);
      assert [a[0]] + a[1..] == a;
    }
  }

  predicate IsDigit(c: char) { '0' <= c <= '9' }

  /** Every character is an ASCII digit (the empty string qualifies). */
  predicate IsDigits(s: string) {
    forall i :: 0 <= i < |s| ==> IsDigit(s[i])
  }

  function DigitValue(c: char): nat
    requires IsDigit(c)
  {
    c as int - '0' as int
  }

  function DigitChar(d: nat): (c: char)
    requires d < 10
    ensures IsDigit(c) && DigitValue(c) == d
  {
    ('0' as int + d) as char
  }

  /** `Number(s)` for a string of decimal digits; `Number("")` is 0. */
  function DigitsValue(s: string): nat
    requires IsDigits(s)
  {
    if |s| == 0 then 0 else 10 * DigitsValue(s[..|s| - 1]) + DigitValue(s[|s| - 1])
  }

  /** A value written with `k` digits is below 10^k. */
  lemma {:induction false} DigitsValueBound(s: string)
    requires IsDigits(s)
    ensures DigitsValue(s) < Pow10(|s|)
    ensures |s| > 0 && s[0] != '0' ==> Pow10(|s| - 1) <= DigitsValue(s)
  {
    if |s| > 0 {
      var p := s[..|s| - 1];
      DigitsValueBound(p);
      if |s| > 1 {
        assert p[0] == s[0];
      }
    }
  }

  function Pow10(k: nat): (p: nat)
    ensures p >= 1
  {
    if k == 0 then 1 else 10 * Pow10(k - 1)
  }

  /** The decimal text of a natural number, as JavaScript's `String(n)` writes it. */
  function NatText(n: nat): (r: string)
    ensures |r| >= 1 && IsDigits(r) && DigitsValue(r) == n
    ensures r[0] == '0' <==> n == 0
  {
    if n < 10 then [DigitChar(n)]
    else
      var r := NatText(n / 10) + [DigitChar(n % 10)];
      assert r[..|r| - 1] == NatText(n / 10);
      r
  }

  /** The decimal text of an integer: a minus sign before a negative value. */
  function IntText(i: int): (r: string)
    ensures |r| >= 1
    ensures i >= 0 ==> r == NatText(i)
    ensures i < 0 ==> r == "-" + NatText(-i)
  {
    if i < 0 then "-" + NatText(-i) else NatText(i)
  }

  /** Reading a digit string without a leading zero and writing it back gives the same text. */
  lemma {:induction false} NatTextOfDigits(s: string)
    requires |s| >= 1 && IsDigits(s) && s[0] != '0'
    ensures NatText(DigitsValue(s)) == s
  {
    var n := DigitsValue(s);
    if |s| == 1 {
      assert DigitsValue(s[..0]) == 0;
      assert n < 10;
    } else {
      var p := s[..|s| - 1];
      assert p[0] == s[0];
      DigitsValueBound(p);
      assert DigitsValue(p) >= 1;
      assert n / 10 == DigitsValue(p) && n % 10 == DigitValue(s[|s| - 1]);
      NatTextOfDigits(p);
      assert DigitChar(n % 10) == s[|s| - 1];
    }
  }

  /** `("0" + text).slice(-2)`: the last two characters of the text with a zero in front. */
  function ZeroPad2(text: string): string {
    var s := "0" + text;
    if |s| >= 2 then s[|s| - 2..] else s
  }

  /** Padding the value of any two-digit string gives that string back. */
  lemma ZeroPad2OfDigits(s: string)
    requires |s| == 2 && IsDigits(s)
    ensures ZeroPad2(NatText(DigitsValue(s))) == s
  {
    if s[0] == '0' {
      PaddedDigit(s);
    } else {
      NatTextOfDigits(s);
    }
  }

  /** A two-digit text starting with '0' reads as its second digit, which padding puts back behind the '0'. */
  lemma PaddedDigit(s: string)
    requires |s| == 2 && IsDigits(s) && s[0] == '0'
    ensures ZeroPad2(NatText(DigitsValue(s))) == s
  {
    assert s[..1][..0] == [];
    assert DigitsValue(s[..1]) == 0;
    var n := DigitsValue(s);
    assert n == DigitValue(s[1]) < 10;
    assert NatText(n) == [s[1]];
    assert ZeroPad2([s[1]]) == s;
  }

  /** Padding a number below 100 gives two digits that read back as that number. */
  lemma ZeroPad2Reads(n: nat)
    requires n < 100
    ensures |ZeroPad2(NatText(n))| == 2 && IsDigits(ZeroPad2(NatText(n)))
    ensures DigitsValue(ZeroPad2(NatText(n))) == n
  {
    var t := NatText(n);
    if n < 10 {
      assert t == [DigitChar(n)];
      assert ZeroPad2(t) == ['0', DigitChar(n)];
      assert ZeroPad2(t)[..1] == ['0'];
    } else {
      DigitsValueBound(t);
      Pow10Beyond2(|t|);
      assert |t| == 2;
      assert ZeroPad2(t) == t;
    }
  }

  lemma Pow10Beyond2(k: nat)
    ensures k >= 3 ==> Pow10(k - 1) >= 100
  {
    if k >= 3 {
      Pow10Monotone(2, k - 1);
    }
  }

  lemma {:induction false} Pow10Monotone(j: nat, k: nat)
    requires j <= k
    ensures Pow10(j) <= Pow10(k)
  {
    if j < k {
      Pow10Monotone(j, k - 1);
    }
  }

  /** A JavaScript number as far as this program meets one: an integer or NaN. */
  datatype Num = Finite(value: int) | NaN {

    /** `this + k`: NaN stays NaN. */
    function Plus(k: int): Num {
      match this
      case Finite(v) => Finite(v + k)
      case NaN => NaN
    }
  }

  /**
    * The characters a string numeric literal can be made of: digits, signs,
    * the decimal point, exponent and radix letters, hexadecimal digits and
    * the letters of `Infinity`.
    */
  predicate IsNumericLiteralChar(c: char) {
    || IsDigit(c) || ('a' <= c <= 'f') || ('A' <= c <= 'F')
    || c == '+' || c == '-' || c == '.' || c == 'x' || c == 'X' || c == 'o' || c == 'O'
    || c == 'I' || c == 'n' || c == 'i' || c == 't' || c == 'y'
  }

  /**
    * The texts whose `Number(text)` this model computes: a run of digits
    * (possibly empty), or a text holding a character that is neither
    * whitespace nor part of any numeric literal.
    */
  predicate NumberSupported(s: string) {
    IsDigits(s) || exists i :: 0 <= i < |s| && !IsNumericLiteralChar(s[i]) && !IsJsWhitespace(s[i])
  }

  /**
    * `Number(s)`: the empty text is 0, a digit string its decimal value, and
    * a text with a character that trimming keeps and no numeric literal
    * contains is NaN.
    */
  function StringToNumber(s: string): (n: Num)
    requires NumberSupported(s)
    ensures n.Finite? <==> IsDigits(s)
    ensures n.Finite? ==> n.value == DigitsValue(s) && n.value >= 0
    ensures s == "" ==> n == Finite(0)
  {
    if IsDigits(s) then Finite(DigitsValue(s)) else NaN
  }

  /** The text of a number, as `String(n)` and template literals write it. */
  function NumText(n: Num): (r: string)
    ensures n.NaN? ==> r == "NaN"
    ensures n.Finite? && n.value >= 0 ==> IsDigits(r) && DigitsValue(r) == n.value
  {
    match n
    case Finite(v) => IntText(v)
    case NaN => "NaN"
  }

  /** Reading the decimal text of a natural number gives the number back. */
  lemma NumberOfNatText(n: nat)
    ensures NumberSupported(NatText(n)) && StringToNumber(NatText(n)) == Finite(n)
  {
  }
}
