/**
 Printing numbers: digits written lowest first into a buffer, then turned
 round in place, and padded for "%#x".
*/
module Numbers {
  import opened Buffers

  const LOOKUP: string := "0123456789ABCDEFGHIJKLMNOPQRSTUVWXYZ"
  const UINT32: nat := 0x1_0000_0000

  /** A place of the table of digits. */
  function Digit(d: nat): (c: char)
    requires d < 36
    ensures c != '\0'
  {
    if d < 10 then '0' + d as char else 'A' + (d - 10) as char
  }

  /** The value of a digit, and 36 for anything else. */
  function DigitValue(c: char): (d: nat)
    ensures d <= 36
  {
    if '0' <= c <= '9' then c as nat - '0' as nat
    else if 'A' <= c <= 'Z' then c as nat - 'A' as nat + 10
    else 36
  }

  lemma DigitRoundTrip(d: nat)
    requires d < 36
    ensures DigitValue(Digit(d)) == d && LOOKUP[d] == Digit(d)
  {
  }

  lemma ZeroDigit()
    ensures DigitValue('0') == 0 && Digit(0) == '0'
  {
  }

  /** The value of a text read in base r. */
  function ValueOf(s: string, r: nat): nat {
    if s == "" then 0 else ValueOf(s[..|s| - 1], r) * r + DigitValue(s[|s| - 1])
  }

  predicate DigitsBelow(s: string, r: nat) {
    forall i :: 0 <= i < |s| ==> DigitValue(s[i]) < r
  }

  /** A number the way people write it: digits, and no leading zero. */
  predicate IsNumeral(s: string, r: nat) {
    s != "" && DigitsBelow(s, r) && (s[0] == '0' ==> |s| == 1)
  }

  function Numeral(v: nat, r: nat): (s: string)
    requires 2 <= r <= 36
    ensures s != "" && '\0' !in s
  {
    if v < r then [Digit(v)]
    else
      Divided(v, r);
      Numeral(v / r, r) + [Digit(v % r)]
  }

  lemma ValueSnoc(s: string, c: char, r: nat)
    ensures ValueOf(s + [c], r) == ValueOf(s, r) * r + DigitValue(c)
    ensures DigitsBelow(s + [c], r) <==> DigitsBelow(s, r) && DigitValue(c) < r
  {
    hide DigitValue;
    assert (s + [c])[..|s|] == s && (s + [c])[|s|] == c;
    assert DigitsBelow(s + [c], r) ==> DigitsBelow(s, r) by {
      assert forall i :: 0 <= i < |s| ==> (s + [c])[i] == s[i];
    }
  }

  lemma StepsOfR(a: nat, b: nat, r: nat)
    requires a < b
    ensures a * r + r <= b * r
  {
    assert (b - a - 1) * r == b * r - a * r - r;
  }

  lemma DivisionIsUnique(a: nat, b: nat, r: nat, i: nat, j: nat)
    requires i < r && j < r && a * r + i == b * r + j
    ensures a == b && i == j
  {
    if a < b {
      StepsOfR(a, b, r);
    } else if b < a {
      StepsOfR(b, a, r);
    }
  }

  lemma Divided(v: nat, r: nat)
    requires 2 <= r
    ensures v == v / r * r + v % r && v % r < r
    ensures v < r <==> v / r == 0
    ensures v > 0 ==> v / r < v
  {
    var q := v / r;
    if q > 0 {
      StepsOfR(q - 1, q, r);
      StepsOfR(0, q, r - 1);
      assert q * r == q * (r - 1) + q;
    }
  }

  lemma DivisionIs(a: nat, r: nat, i: nat)
    requires 2 <= r && i < r
    ensures (a * r + i) / r == a && (a * r + i) % r == i
  {
    var v := a * r + i;
    Divided(v, r);
    DivisionIsUnique(a, v / r, r, i, v % r);
  }

  lemma NumeralParts(v: nat, r: nat)
    requires 2 <= r <= 36
    ensures v < r ==> Numeral(v, r) == [Digit(v)]
    ensures v >= r ==> 0 < v / r < v && v == v / r * r + v % r && v % r < r
    ensures v >= r ==> Numeral(v, r) == Numeral(v / r, r) + [Digit(v % r)]
  {
    Divided(v, r);
  }

  lemma NumeralSnoc(v: nat, r: nat, d: nat)
    requires 2 <= r <= 36 && d < r
    ensures Numeral(v * r + d, r) == if v == 0 then [Digit(d)] else Numeral(v, r) + [Digit(d)]
  {
    hide Numeral, Digit;
    DivisionIs(v, r, d);
    NumeralParts(v * r + d, r);
    if v > 0 {
      StepsOfR(0, v, r);
    }
  }

  lemma SingleDigit(c: char, r: nat)
    ensures ValueOf([c], r) == DigitValue(c) && (DigitsBelow([c], r) <==> DigitValue(c) < r)
  {
    hide DigitValue;
    assert [c][..0] == [];
  }

  /** What is printed is a number, and the right one. */
  lemma {:induction false} NumeralIsNumeral(v: nat, r: nat)
    requires 2 <= r <= 36
    ensures IsNumeral(Numeral(v, r), r) && ValueOf(Numeral(v, r), r) == v
    ensures v > 0 ==> Numeral(v, r)[0] != '0'
  {
    hide Digit, DigitValue, Numeral;
    NumeralParts(v, r);
    ZeroDigit();
    if v < r {
      DigitRoundTrip(v);
      SingleDigit(Digit(v), r);
    } else {
      NumeralIsNumeral(v / r, r);
      DigitRoundTrip(v % r);
      ValueSnoc(Numeral(v / r, r), Digit(v % r), r);
      assert Numeral(v, r)[0] == Numeral(v / r, r)[0];
    }
  }

  /** Texts of digits of the same length and value are the same. */
  lemma {:induction false} SameValueSameText(s: string, t: string, r: nat)
    requires |s| == |t| && r <= 36 && DigitsBelow(s, r) && DigitsBelow(t, r) && ValueOf(s, r) == ValueOf(t, r)
    ensures s == t
  {
    hide DigitValue;
    if s != "" {
      var n := |s| - 1;
      DivisionIsUnique(ValueOf(s[..n], r), ValueOf(t[..n], r), r, DigitValue(s[n]), DigitValue(t[n]));
      SameValueSameText(s[..n], t[..n], r);
      SameDigit(s[n], t[n]);
      assert s == s[..n] + [s[n]] && t == t[..n] + [t[n]];
    }
  }

  lemma SameDigit(c: char, d: char)
    requires DigitValue(c) == DigitValue(d) < 36
    ensures c == d == Digit(DigitValue(c))
  {
  }

  lemma {:induction false} LeadingDigit(s: string, r: nat)
    requires r > 0 && DigitsBelow(s, r) && ValueOf(s, r) == 0 && s != ""
    ensures DigitValue(s[0]) == 0
  {
    hide DigitValue;
    var n := |s| - 1;
    assert ValueOf(s[..n], r) * r == 0;
    if n > 0 {
      LeadingDigit(s[..n], r);
    }
  }

  /** There is only one way to write a number. */
  lemma {:induction false} NumeralIsUnique(s: string, r: nat)
    requires 2 <= r <= 36 && IsNumeral(s, r)
    ensures s == Numeral(ValueOf(s, r), r)
  {
    hide Digit, DigitValue, Numeral;
    var n := |s| - 1;
    var v, d := ValueOf(s[..n], r), DigitValue(s[n]);
    assert s == s[..n] + [s[n]];
    NumeralSnoc(v, r, d);
    SameDigit(s[n], s[n]);
    if n > 0 {
      NumeralIsUnique(s[..n], r);
      if v == 0 {
        LeadingDigit(s[..n], r);
        ZeroDigit();
        SameDigit(s[0], Digit(0));
        assert false;
      }
    }
  }

  // ---------------------------------------------------------------- in the buffer

  /** At most n digits if the value is below r to the n. */
  function Power(r: nat, n: nat): nat {
    if n == 0 then 1 else r * Power(r, n - 1)
  }

  lemma {:induction false} NumeralLength(v: nat, r: nat, n: nat)
    requires 2 <= r <= 36 && 0 < n && v < Power(r, n)
    ensures |Numeral(v, r)| <= n
  {
    hide Numeral, Digit;
    NumeralParts(v, r);
    if v >= r {
      assert n > 1 by {
        assert Power(r, 1) == r * Power(r, 0);
      }
      if v / r >= Power(r, n - 1) {
        Multiply(Power(r, n - 1), v / r, r);
        assert false;
      }
      NumeralLength(v / r, r, n - 1);
    }
  }

  lemma Multiply(a: nat, b: nat, r: nat)
    requires a <= b
    ensures r * a <= b * r
  {
    assert (b - a) * r == b * r - r * a;
  }

  lemma WordPowers()
    ensures Power(2, 32) == Power(16, 8) == UINT32
  {
    assert Power(2, 8) == 256;
    assert Power(2, 16) == 65536;
    assert Power(2, 24) == 16777216;
    assert Power(16, 4) == 65536;
  }

  /** No 32-bit number has more than 32 digits, or 8 in base 16. */
  lemma WordLength(v: nat, r: nat)
    requires 2 <= r <= 36 && v < UINT32
    ensures |Numeral(v, r)| <= 32 && (r == 16 ==> |Numeral(v, r)| <= 8)
  {
    hide Numeral, Power;
    WordPowers();
    PowerGrows(r, 32);
    NumeralLength(v, r, 32);
    if r == 16 {
      NumeralLength(v, r, 8);
    }
  }

  lemma {:induction false} PowerGrows(r: nat, n: nat)
    requires 2 <= r
    ensures Power(2, n) <= Power(r, n)
  {
    if n > 0 {
      PowerGrows(r, n - 1);
      var p := Power(r, n - 1);
      assert (r - 2) * p == r * p - 2 * p;
    }
  }

  function Reversed(s: string): (r: string)
    ensures |r| == |s|
    ensures forall k :: 0 <= k < |s| ==> r[k] == s[|s| - 1 - k]
  {
    seq(|s|, k requires 0 <= k < |s| => s[|s| - 1 - k])
  }

  /** The digits as the loop finds them, lowest first. */
  function LowFirst(v: nat, r: nat): (s: string)
    requires 2 <= r <= 36
    ensures '\0' !in s
  {
    if v == 0 then ""
    else
      Divided(v, r);
      [Digit(v % r)] + LowFirst(v / r, r)
  }

  lemma {:induction false} LowFirstReversed(v: nat, r: nat)
    requires 2 <= r <= 36 && v > 0
    ensures Reversed(LowFirst(v, r)) == Numeral(v, r) && |LowFirst(v, r)| == |Numeral(v, r)|
  {
    hide Numeral, Digit;
    NumeralParts(v, r);
    Divided(v, r);
    assert LowFirst(v, r) == [Digit(v % r)] + LowFirst(v / r, r);
    if v >= r {
      LowFirstReversed(v / r, r);
    } else {
      assert LowFirst(v / r, r) == "";
    }
  }

  method Strlen(s: array<char>, at: nat, ghost text: string) returns (len: int)
    requires StringAt(s[..], at, text)
    ensures len == |text|
  {
    hide StringAt;
    len := 0;
    StringCell(s[..], at, text, 0);
    while s[at + len] != '\0'
      invariant 0 <= len <= |text| && at + len < s.Length && (s[at + len] == '\0' <==> len == |text|)
      decreases |text| - len
    {
      len := len + 1;
      StringCell(s[..], at, text, len);
    }
  }

  /** The text with its first n and last n characters exchanged. */
  function Exchanged(t: string, n: nat): (r: string)
    requires 2 * n <= |t| + 1
    ensures |r| == |t|
    ensures forall k :: 0 <= k < |t| ==> r[k] == if k < n || k >= |t| - n then t[|t| - 1 - k] else t[k]
  {
    seq(|t|, k requires 0 <= k < |t| => if k < n || k >= |t| - n then t[|t| - 1 - k] else t[k])
  }

  lemma ExchangeStep(buf: seq<char>, at: nat, t: string, n: nat)
    requires at + |t| <= |buf| && 2 * n < |t| - 1
    ensures var s, i, j := Written(buf, at, Exchanged(t, n)), at + n, at + |t| - 1 - n;
            s[j := s[i]][i := s[j]] == Written(buf, at, Exchanged(t, n + 1))
  {
  }

  lemma ExchangedAll(t: string, n: nat)
    requires |t| - 1 <= 2 * n <= |t| + 1
    ensures Exchanged(t, n) == Reversed(t)
  {
  }

  method Swap(s: array<char>, i: nat, j: nat)
    requires i < s.Length && j < s.Length
    modifies s
    ensures s[..] == old(s[..])[j := old(s[..])[i]][i := old(s[..])[j]]
  {
    var tmp := s[j];
    s[j] := s[i];
    s[i] := tmp;
  }

  /** Reverse a string in place. */
  method Strrev(s: array<char>, at: nat, ghost text: string)
    requires StringAt(s[..], at, text)
    modifies s
    ensures s[..] == Written(old(s[..]), at, Reversed(text))
  {
    hide Exchanged, Reversed, StringAt, Written;
    ghost var cells := s[..];
    NothingExchanged(cells, at, text);
    var beg := 0;
    var len := Strlen(s, at, text);
    var end := len - 1;
    while beg < end
      invariant 0 <= beg && beg + end == |text| - 1 && beg <= end + 2
      invariant s[..] == Written(cells, at, Exchanged(text, beg))
    {
      ExchangeStep(cells, at, text, beg);
      Swap(s, at + beg, at + end);
      beg := beg + 1;
      end := end - 1;
    }
    ExchangedAll(text, beg);
  }

  lemma NothingExchanged(buf: seq<char>, at: nat, t: string)
    requires StringAt(buf, at, t)
    ensures at + |t| < |buf| && Written(buf, at, Exchanged(t, 0)) == buf
  {
    assert Exchanged(t, 0) == t;
  }

  method Lookup(i: nat) returns (c: char)
    requires i < 36
    ensures c == Digit(i)
  {
    DigitRoundTrip(i);
    c := LOOKUP[i];
  }

  /** The loop of itoa. */
  method WriteDigits(value: nat, buf: array<char>, at: nat, radix: nat) returns (end: nat)
    requires 2 <= radix <= 36 && at + |LowFirst(value, radix)| <= buf.Length
    modifies buf
    ensures end == at + |LowFirst(value, radix)|
    ensures buf[..] == Written(old(buf[..]), at, LowFirst(value, radix))
  {
    hide Digit, Written, LowFirst;
    ghost var cells, text, done := buf[..], LowFirst(value, radix), "";
    assert [] + text == text;
    WriteNothing(cells, at);
    var newval := value;
    end := at;
    while newval > 0
      invariant 0 <= newval <= value && end == at + |done| && done + LowFirst(newval, radix) == text
      invariant buf[..] == Written(cells, at, done)
    {
      LowFirstStep(newval, radix);
      var c := Lookup(newval % radix);
      newval := newval / radix;
      WriteStep(cells, at, done, c);
      assert done + ([c] + LowFirst(newval, radix)) == (done + [c]) + LowFirst(newval, radix);
      buf[end] := c;
      end := end + 1;
      done := done + [c];
    }
    LowFirstStep(newval, radix);
    assert done + [] == done;
  }

  lemma LowFirstStep(v: nat, r: nat)
    requires 2 <= r <= 36
    ensures v / r <= v && 0 <= v % r < r && (v > 0 ==> v / r < v)
    ensures LowFirst(v, r) == if v == 0 then "" else [Digit(v % r)] + LowFirst(v / r, r)
  {
    Divided(v, r);
  }

  lemma WriteNothing(buf: seq<char>, at: nat)
    requires at <= |buf|
    ensures Written(buf, at, "") == buf
  {
  }

  /** Write a number at a place in a buffer. */
  method Itoa(value: nat, buf: array<char>, at: nat, radix: nat)
    requires value < UINT32 && 2 <= radix <= 36 && at + |Numeral(value, radix)| < buf.Length
    modifies buf
    ensures StringAt(buf[..], at, Numeral(value, radix))
    ensures buf[..][..at] == old(buf[..])[..at]
  {
    hide Numeral, Digit, Written, StringAt, LowFirst;
    ghost var cells, numeral := buf[..], Numeral(value, radix);
    if value == 0 {
      NumeralParts(value, radix);
      ZeroDigit();
      WriteStep(cells, at, [], '0');
      WriteStep(cells, at, [] + ['0'], '\0');
      assert [] + ['0'] + ['\0'] == numeral + "\0";
      StringWritten(cells, at, numeral, numeral);
      buf[at] := '0';
      buf[at + 1] := '\0';
      return;
    }
    ghost var text := LowFirst(value, radix);
    LowFirstReversed(value, radix);
    var newbuf := WriteDigits(value, buf, at, radix);
    WriteStep(cells, at, text, '\0');
    buf[newbuf] := '\0';
    StringWritten(cells, at, text, numeral);
    Strrev(buf, at, text);
  }

  /** puts, which returns what it has printed. */
  method Puts(s: array<char>, at: nat, ghost text: string) returns (printed: string)
    requires StringAt(s[..], at, text)
    ensures printed == text
  {
    hide StringAt;
    var index := 0;
    printed := "";
    StringCell(s[..], at, text, 0);
    while s[at + index] != '\0'
      invariant 0 <= index <= |text| && printed == text[..index]
      invariant at + index < s.Length && (s[at + index] == '\0' <==> index == |text|)
      decreases |text| - index
    {
      StringCell(s[..], at, text, index);
      printed := printed + [s[at + index]];
      index := index + 1;
      StringCell(s[..], at, text, index);
    }
    assert text[..index] == text;
  }

  /** "%u". */
  method PrintUnsigned(value: nat) returns (printed: string)
    requires value < UINT32
    ensures IsNumeral(printed, 10) && ValueOf(printed, 10) == value
  {
    hide Numeral, ValueOf, IsNumeral;
    var convBuf := new char[36];
    WordLength(value, 10);
    Itoa(value, convBuf, 0, 10);
    NumeralIsNumeral(value, 10);
    printed := Puts(convBuf, 0, Numeral(value, 10));
  }

  lemma {:induction false} LeadingZeros(n: nat, s: string, r: nat)
    requires r > 0 && DigitsBelow(s, r)
    ensures ValueOf(Repeat('0', n) + s, r) == ValueOf(s, r) && DigitsBelow(Repeat('0', n) + s, r)
    decreases |s|, n
  {
    hide DigitValue;
    ZeroDigit();
    var z := Repeat('0', n) + s;
    if s == "" {
      if n > 0 {
        LeadingZeros(n - 1, s, r);
        assert z[..|z| - 1] == Repeat('0', n - 1) + s;
      }
    } else {
      LeadingZeros(n, s[..|s| - 1], r);
      assert z[..|z| - 1] == Repeat('0', n) + s[..|s| - 1];
    }
  }

  /** "%#x": exactly eight digits. */
  method PrintHex(value: nat) returns (printed: string)
    requires value < UINT32
    ensures |printed| == 8 && DigitsBelow(printed, 16) && ValueOf(printed, 16) == value
  {
    hide Numeral, ValueOf, DigitsBelow, Digit, Written, StringAt;
    ghost var text := Numeral(value, 16);
    var convBuf := new char[64];
    WordLength(value, 16);
    Itoa(value, convBuf, 8, 16);
    NumeralIsHex(value);
    ghost var cells := convBuf[..];
    var startingIndex := Strlen(convBuf, 8, text);
    var i := startingIndex;
    WriteStep(cells, i, Repeat('0', 0), '0');
    while i < 8
      invariant startingIndex <= i <= 8
      invariant convBuf[..] == Written(cells, startingIndex, Repeat('0', i - startingIndex))
    {
      WriteStep(cells, startingIndex, Repeat('0', i - startingIndex), '0');
      convBuf[i] := '0';
      i := i + 1;
    }
    LeadingZeros(8 - |text|, text, 16);
    StringExtended(cells, 8, text, Repeat('0', 8 - |text|));
    printed := Puts(convBuf, startingIndex, Repeat('0', 8 - |text|) + text);
  }

  lemma NumeralIsHex(v: nat)
    ensures DigitsBelow(Numeral(v, 16), 16) && ValueOf(Numeral(v, 16), 16) == v && Numeral(v, 16) != ""
  {
    hide Numeral, ValueOf;
    NumeralIsNumeral(v, 16);
  }
}
