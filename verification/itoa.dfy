/** itoa (kernel/libc/string.c): the numeral of a 32-bit value, made last digit first and then reversed in place. */
module Itoas {
  import opened Bytes

  const CHAR_X: byte := 120
  const ZERO: byte := 48

  predicate IsRadix(radix: nat) {
    radix == 10 || radix == 16
  }

  /** The character of a digit. */
  function DigitChar(d: nat): byte
    requires d < 16
  {
    if d < 10 then d + 48 else d + 65 - 10
  }

  lemma DigitTable(d: nat)
    requires d < 16
    ensures DigitChar(d) == "0123456789ABCDEF"[d] as int
  {
  }

  predicate IsDigit(c: byte, radix: nat) {
    48 <= c < 58 || (radix == 16 && 65 <= c < 71)
  }

  function CharDigit(c: byte): nat
    requires IsDigit(c, 16)
  {
    if c < 58 then c as int - 48 else c as int - 65 + 10
  }

  predicate AllDigits(s: seq<byte>, radix: nat) {
    forall k :: 0 <= k < |s| ==> IsDigit(s[k], radix)
  }

  /** The digits as the loop makes them, the last one first. */
  function Digits(v: nat, radix: nat): (s: seq<byte>)
    requires IsRadix(radix)
    ensures s != []
    decreases v
  {
    [DigitChar(v % radix)] + if v / radix == 0 then [] else Digits(v / radix, radix)
  }

  function Reversed(s: seq<byte>): (r: seq<byte>)
    ensures |r| == |s|
  {
    seq(|s|, (k: nat) requires k < |s| => s[|s| - 1 - k])
  }

  function Numeral(v: nat, radix: nat): (s: seq<byte>)
    requires IsRadix(radix)
  {
    Reversed(Digits(v, radix))
  }

  /** What a string of digits stands for, most significant digit first. */
  function Value(s: seq<byte>, radix: nat): nat
    requires IsRadix(radix) && AllDigits(s, radix)
  {
    if s == [] then 0 else Value(s[..|s| - 1], radix) * radix + CharDigit(s[|s| - 1])
  }

  /** A string of digits without leading zeros. */
  predicate Canonical(s: seq<byte>, radix: nat) {
    AllDigits(s, radix) && 0 < |s| && (s[0] == ZERO ==> |s| == 1)
  }

  lemma LastDigit(v: nat, radix: nat)
    requires IsRadix(radix)
    ensures v == v / radix * radix + v % radix && v % radix < radix
    ensures IsDigit(DigitChar(v % radix), radix) && CharDigit(DigitChar(v % radix)) == v % radix
    ensures DigitChar(v % radix) == ZERO <==> v % radix == 0
  {
  }

  /** Taking the last digit off a numeral leaves the numeral of the quotient. */
  lemma NumeralEnd(v: nat, radix: nat)
    requires IsRadix(radix)
    ensures Numeral(v, radix) == (if v / radix == 0 then [] else Numeral(v / radix, radix)) + [DigitChar(v % radix)]
  {
  }

  /** The numeral reads back as the value and has no leading zero. */
  lemma {:induction false} NumeralReads(v: nat, radix: nat)
    requires IsRadix(radix)
    ensures Canonical(Numeral(v, radix), radix) && Value(Numeral(v, radix), radix) == v
    ensures Numeral(v, radix)[0] == ZERO ==> v == 0
    decreases v
  {
    var s := Numeral(v, radix);
    NumeralEnd(v, radix);
    LastDigit(v, radix);
    if v / radix != 0 {
      NumeralReads(v / radix, radix);
      assert s[..|s| - 1] == Numeral(v / radix, radix);
    } else {
      assert s[..|s| - 1] == [];
    }
  }

  lemma Quotient(q: nat, r: nat, radix: nat)
    requires IsRadix(radix) && r < radix
    ensures (q * radix + r) / radix == q && (q * radix + r) % radix == r
  {
    if radix == 10 {
      assert (q * 10 + r) / 10 == q;
    } else {
      assert (q * 16 + r) / 16 == q;
    }
  }

  lemma DigitCharBack(c: byte, radix: nat)
    requires IsRadix(radix) && IsDigit(c, radix)
    ensures CharDigit(c) < radix && DigitChar(CharDigit(c)) == c
    ensures CharDigit(c) == 0 <==> c == ZERO
  {
  }

  /** The value of a string with one more digit behind it. */
  lemma ValueEnd(s: seq<byte>, radix: nat)
    requires IsRadix(radix) && AllDigits(s, radix) && s != []
    ensures var v := Value(s, radix);
      && v / radix == Value(s[..|s| - 1], radix) && v % radix == CharDigit(s[|s| - 1])
      && DigitChar(v % radix) == s[|s| - 1]
  {
    DigitCharBack(s[|s| - 1], radix);
    Quotient(Value(s[..|s| - 1], radix), CharDigit(s[|s| - 1]), radix);
  }

  /** Every string of digits without leading zeros is the numeral of its value. */
  lemma {:induction false} ValueIsWritten(s: seq<byte>, radix: nat)
    requires IsRadix(radix) && Canonical(s, radix)
    ensures Numeral(Value(s, radix), radix) == s
    ensures Value(s, radix) == 0 ==> s == [ZERO]
    decreases |s|
  {
    var front, c := s[..|s| - 1], s[|s| - 1];
    DigitCharBack(c, radix);
    ValueEnd(s, radix);
    NumeralEnd(Value(s, radix), radix);
    assert s == front + [c];
    if front != [] {
      ValueIsWritten(front, radix);
    }
  }

  /** Different values get different strings. */
  lemma NumeralInjective(v: nat, w: nat, radix: nat)
    requires IsRadix(radix) && Numeral(v, radix) == Numeral(w, radix)
    ensures v == w
  {
    NumeralReads(v, radix);
    NumeralReads(w, radix);
  }

  function Power(radix: nat, n: nat): nat {
    if n == 0 then 1 else radix * Power(radix, n - 1)
  }

  lemma {:induction false} DigitsBound(v: nat, radix: nat, n: nat)
    requires IsRadix(radix) && 0 < n && v < Power(radix, n)
    ensures |Digits(v, radix)| <= n
    decreases n
  {
    if v / radix != 0 {
      assert Power(radix, n) == radix * Power(radix, n - 1);
      if radix == 10 {
        assert v / 10 < Power(10, n - 1);
      } else {
        assert v / 16 < Power(16, n - 1);
      }
      DigitsBound(v / radix, radix, n - 1);
    }
  }

  /** A 32-bit value takes at most 10 decimal digits, or 8 hexadecimal ones. */
  lemma NumeralBound(v: nat)
    requires v < WORD_LIMIT
    ensures |Numeral(v, 10)| <= 10 && |Numeral(v, 16)| <= 8
  {
    assert Power(10, 5) == 100000;
    assert Power(10, 10) == 10000000000;
    assert Power(16, 4) == 0x1_0000;
    assert Power(16, 8) == 0x1_0000_0000;
    DigitsBound(v, 10, 10);
    DigitsBound(v, 16, 8);
  }

  lemma DigitsStep(done: seq<byte>, v: nat, radix: nat)
    requires IsRadix(radix)
    ensures v / radix < v || v == 0
    ensures done + Digits(v, radix) ==
      done + [DigitChar(v % radix)] + if v / radix == 0 then [] else Digits(v / radix, radix)
  {
    QuotientSmaller(v, radix);
    Regrouped(done, [DigitChar(v % radix)], if v / radix == 0 then [] else Digits(v / radix, radix));
  }

  lemma QuotientSmaller(v: nat, radix: nat)
    requires IsRadix(radix)
    ensures v / radix < v || v == 0
  {
    if radix == 10 {
      assert v / 10 < v || v == 0;
    } else {
      assert v / 16 < v || v == 0;
    }
  }

  lemma Regrouped(a: seq<byte>, b: seq<byte>, c: seq<byte>)
    ensures a + (b + c) == a + b + c
  {
  }

  /** The digit loop. It runs at least once; the result is where the string ends. */
  method WriteDigits(buf: array<byte>, d: nat, divisor: nat) returns (p: nat)
    requires IsRadix(divisor) && |Digits(d, divisor)| < buf.Length
    modifies buf
    ensures p == |Digits(d, divisor)| && buf[..p] == Digits(d, divisor)
    ensures buf[p..] == old(buf[p..])
  {
    hide Digits;
    var ud: nat := d;
    p := 0;
    var more := true;
    while more
      invariant p <= buf.Length && buf[p..] == old(buf[p..])
      invariant Digits(d, divisor) == buf[..p] + if more then Digits(ud, divisor) else []
      decreases more, ud
    {
      ghost var done := buf[..p];
      var remainder := ud % divisor;
      buf[p] := if remainder < 10 then remainder + 48 else remainder + 65 - 10;
      p := p + 1;
      assert buf[..p] == done + [DigitChar(remainder)];
      LastDigit(ud, divisor);
      DigitsStep(done, ud, divisor);
      ud := ud / divisor;
      more := ud != 0;
    }
  }

  /** The swapping loop over the first n bytes. */
  method ReverseFront(buf: array<byte>, n: nat)
    requires 0 < n <= buf.Length
    modifies buf
    ensures buf[..n] == Reversed(old(buf[..n])) && buf[n..] == old(buf[n..])
  {
    var p1, p2 := 0, n - 1;
    while p1 < p2
      invariant 0 <= p1 <= n && p1 + p2 == n - 1
      invariant forall k :: 0 <= k < p1 ==> buf[k] == old(buf[n - 1 - k]) && buf[n - 1 - k] == old(buf[k])
      invariant forall k :: p1 <= k <= p2 ==> buf[k] == old(buf[k])
      invariant buf[n..] == old(buf[n..])
    {
      var tmp := buf[p1];
      buf[p1] := buf[p2];
      buf[p2] := tmp;
      p1 := p1 + 1;
      p2 := p2 - 1;
    }
    ghost var r := Reversed(old(buf[..n]));
    forall k | 0 <= k < n ensures buf[k] == r[k] {
      if k > p2 {
        var j := n - 1 - k;
        assert 0 <= j <= p1;
        assert j < p1 ==> buf[n - 1 - j] == old(buf[j]);
      }
    }
  }

  /** The sign branch of itoa needs an unsigned value below zero, so the numeral is never signed. */
  method Itoa(buf: array<byte>, base: nat, d: nat)
    requires d < WORD_LIMIT && |Numeral(d, if base == 'x' as int then 16 else 10)| < buf.Length
    modifies buf
    ensures var radix := if base == 'x' as int then 16 else 10;
      var s := Numeral(d, radix);
      && buf[..|s|] == s && buf[|s|] == 0 && buf[|s| + 1..] == old(buf[|s| + 1..])
      && Canonical(s, radix) && Value(s, radix) == d
  {
    hide Value, Canonical;
    var divisor := 10;
    if base == CHAR_X as int {
      divisor := 16;
    }
    var p := WriteDigits(buf, d, divisor);
    buf[p] := 0;
    assert buf[..p] == Digits(d, divisor);
    ReverseFront(buf, p);
    assert buf[p..][0] == buf[p];
    NumeralReads(d, divisor);
  }
}
