/** Character and string helpers standing in for the JavaScript built-ins the
    screen relies on: `String.prototype.split` with a one-character separator,
    `Number(...)` applied to a string of decimal digits, and the zero-padded
    decimal fields that `Date.prototype.toISOString` and `toLocaleTimeString`
    print. */
module Text {

  predicate IsDigit(c: char) {
    '0' <= c <= '9'
  }

  function DigitValue(c: char): (v: nat)
    requires IsDigit(c)
    ensures v < 10
  {
    (c as int - '0' as int) as nat
  }

  function DigitChar(v: nat): (c: char)
    requires v < 10
    ensures IsDigit(c) && DigitValue(c) == v
  {
    ('0' as int + v) as char
  }

  predicate AllDigits(s: string) {
    forall i :: 0 <= i < |s| ==> IsDigit(s[i])
  }

  function Pow10(k: nat): (p: nat)
    ensures p >= 1
  {
    if k == 0 then 1 else 10 * Pow10(k - 1)
  }

  /** The value of a string of decimal digits, most significant first
      (`Number("07") == 7`). */
  function NumberValue(s: string): (n: nat)
    requires AllDigits(s)
    ensures n < Pow10(|s|)
    decreases |s|
  {
    if s == [] then 0 else NumberValue(s[..|s| - 1]) * 10 + DigitValue(s[|s| - 1])
  }

  /** Two-digit zero-padded decimal field ("07"). */
  function Pad2(n: nat): (s: string)
    requires n < 100
    ensures |s| == 2 && AllDigits(s) && NumberValue(s) == n
  {
    var s := [DigitChar(n / 10), DigitChar(n % 10)];
    assert s[..1] == [DigitChar(n / 10)];
    assert s[..1][..0] == [];
    s
  }

  /** Appending a digit shifts the value one decimal place. */
  lemma NumberValueSnoc(s: string, c: char)
    requires AllDigits(s) && IsDigit(c)
    ensures AllDigits(s + [c]) && NumberValue(s + [c]) == NumberValue(s) * 10 + DigitValue(c)
  {
    assert (s + [c])[..|s|] == s;
  }

  /** The value of a four-digit string, read off its digits. */
  lemma NumberValue4(s: string)
    requires |s| == 4 && AllDigits(s)
    ensures NumberValue(s) ==
      ((DigitValue(s[0]) * 10 + DigitValue(s[1])) * 10 + DigitValue(s[2])) * 10 + DigitValue(s[3])
  {
    assert s[..3][..2][..1] == [s[0]] && [s[0]][..0] == [];
    assert s[..3][..2] == s[..2] && s[..3][..2][..1] == s[..1];
    assert NumberValue(s[..1]) == DigitValue(s[0]);
    assert NumberValue(s[..2]) == DigitValue(s[0]) * 10 + DigitValue(s[1]);
  }

  /** Three-digit zero-padded decimal field ("007"). */
  function Pad3(n: nat): (s: string)
    requires n < 1000
    ensures |s| == 3 && AllDigits(s) && NumberValue(s) == n
  {
    var s := Pad2(n / 10) + [DigitChar(n % 10)];
    NumberValueSnoc(Pad2(n / 10), DigitChar(n % 10));
    s
  }

  /** Four-digit zero-padded decimal field ("1970"). */
  function Pad4(n: nat): (s: string)
    requires n < 10000
    ensures |s| == 4 && AllDigits(s) && NumberValue(s) == n
  {
    var s := Pad3(n / 10) + [DigitChar(n % 10)];
    NumberValueSnoc(Pad3(n / 10), DigitChar(n % 10));
    s
  }

  /** Padding the value of a one- or two-digit string to two digits gives
      the string back, with a leading zero added to a single digit. */
  lemma Pad2OfNumberValue(s: string)
    requires 1 <= |s| <= 2 && AllDigits(s)
    ensures Pad2(NumberValue(s)) == if |s| == 1 then "0" + s else s
  {
    if |s| == 1 {
      assert s[..0] == [];
    } else {
      assert s[..1][..0] == [];
    }
  }

  /** Padding a four-digit string's value gives the string back. */
  lemma Pad4OfNumberValue(s: string)
    requires |s| == 4 && AllDigits(s)
    ensures Pad4(NumberValue(s)) == s
  {
    NumberValue4(s);
    var n := NumberValue(s);
    var d0, d1, d2, d3 := DigitValue(s[0]), DigitValue(s[1]), DigitValue(s[2]), DigitValue(s[3]);
    assert n / 10 / 10 / 10 == d0 && n / 10 / 10 % 10 == d1 && n / 10 % 10 == d2 && n % 10 == d3;
  }

  /** `s.split(sep)` for a one-character separator: the maximal pieces of `s`
      between occurrences of `sep`; the empty string splits into `[""]`. */
  function Split(s: string, sep: char): (parts: seq<string>)
    ensures |parts| >= 1
    ensures forall k :: 0 <= k < |parts| ==> sep !in parts[k]
    decreases |s|
  {
    if s == [] then [[]]
    else
      var rest := Split(s[1..], sep);
      if s[0] == sep then [[]] + rest
      else [[s[0]] + rest[0]] + rest[1..]
  }

  /** `parts.join(sep)`. */
  function Join(parts: seq<string>, sep: char): string
    decreases |parts|
  {
    if |parts| == 0 then []
    else if |parts| == 1 then parts[0]
    else parts[0] + [sep] + Join(parts[1..], sep)
  }

  /** Splitting loses nothing: joining the pieces with the separator gives the
      string back. */
  lemma {:induction false} JoinSplit(s: string, sep: char)
    ensures Join(Split(s, sep), sep) == s
    decreases |s|
  {
    if s != [] {
      var rest := Split(s[1..], sep);
      JoinSplit(s[1..], sep);
      if s[0] == sep {
        assert Split(s, sep)[1..] == rest;
      } else if |rest| == 1 {
        assert Split(s, sep) == [[s[0]] + rest[0]];
      } else {
        var parts := Split(s, sep);
        assert parts[1..] == rest[1..];
        assert Join(rest, sep) == rest[0] + [sep] + Join(rest[1..], sep);
        assert Join(parts, sep) == [s[0]] + rest[0] + [sep] + Join(rest[1..], sep);
        assert s == [s[0]] + s[1..];
      }
    }
  }

  /** A string without the separator is a single piece. */
  lemma {:induction false} SplitNoSeparator(a: string, sep: char)
    requires sep !in a
    ensures Split(a, sep) == [a]
    decreases |a|
  {
    if a != [] {
      SplitNoSeparator(a[1..], sep);
      assert [a[0]] + a[1..] == a;
    }
  }

  /** The piece before the first separator is split off first. */
  lemma {:induction false} SplitAtFirst(a: string, sep: char, b: string)
    requires sep !in a
    ensures Split(a + [sep] + b, sep) == [a] + Split(b, sep)
    decreases |a|
  {
    if a == [] {
      assert ([] + [sep] + b)[1..] == b;
    } else {
      assert (a + [sep] + b)[1..] == a[1..] + [sep] + b;
      SplitAtFirst(a[1..], sep, b);
      assert [a[0]] + a[1..] == a;
    }
  }
}
