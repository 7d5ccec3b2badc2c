/** Numbers as text: printed in decimal, and read as `strtoul` reads them. */
module Numbers {
  import opened Words

  /** The value of a character as a digit; 36 for all others. */
  function DigitValue(c: char): nat {
    if '0' <= c <= '9' then c as int - '0' as int
    else if 'a' <= c <= 'z' then c as int - 'a' as int + 10
    else if 'A' <= c <= 'Z' then c as int - 'A' as int + 10
    else 36
  }

  predicate Digits(s: string, base: nat) {
    forall i :: 0 <= i < |s| ==> DigitValue(s[i]) < base
  }

  function Value(s: string, base: nat): nat {
    if s == "" then 0 else Value(s[..|s| - 1], base) * base + DigitValue(s[|s| - 1])
  }

  function DigitChar(d: nat): char
    requires d < 10
  {
    "0123456789"[d]
  }

  /** `%u`. */
  function Decimal(n: nat): string {
    if n < 10 then [DigitChar(n)] else Decimal(n / 10) + [DigitChar(n % 10)]
  }

  lemma {:induction false} DecimalReads(n: nat)
    ensures Decimal(n) != "" && Digits(Decimal(n), 10) && Value(Decimal(n), 10) == n
    ensures forall i :: 0 <= i < |Decimal(n)| ==> '0' <= Decimal(n)[i] <= '9'
    ensures Decimal(n)[0] == '0' ==> n == 0
  {
    var s := Decimal(n);
    if n < 10 {
      assert s[..0] == "";
    } else {
      DecimalReads(n / 10);
      assert s[..|s| - 1] == Decimal(n / 10);
    }
  }

  function Pow10(k: nat): nat {
    if k == 0 then 1 else 10 * Pow10(k - 1)
  }

  lemma {:induction false} DecimalLength(n: nat, k: nat)
    requires k > 0 && n < Pow10(k)
    ensures |Decimal(n)| <= k
  {
    if n >= 10 {
      assert k > 1;
      DecimalLength(n / 10, k - 1);
    }
  }

  predicate IsWhite(c: char) {
    c == ' ' || 9 <= c as int <= 13
  }

  function SkipSpace(s: string): string {
    if s != "" && IsWhite(s[0]) then SkipSpace(s[1..]) else s
  }

  /** The macro `GET_CB_FIELD` with base 0 at the end of a string: `strtoul` has to use up the string,
      and the value must not exceed the limit. A minus sign negates modulo 2^64. */
  function Field(s: string, lim: nat): Option<nat> {
    if s == "" then Some(0)
    else
      var t := SkipSpace(s);
      var u := if t != "" && (t[0] == '+' || t[0] == '-') then t[1..] else t;
      var hex := |u| > 2 && u[0] == '0' && (u[1] == 'x' || u[1] == 'X') && DigitValue(u[2]) < 16;
      var base := if hex then 16 else if u != "" && u[0] == '0' then 8 else 10;
      var digits := if hex then u[2..] else u;
      if digits == "" || !Digits(digits, base) || Value(digits, base) >= TWO_64 then None
      else
        var v := Value(digits, base);
        var val := if t[0] == '-' then (TWO_64 - v) % TWO_64 else v;
        if val > lim then None else Some(val)
  }

  /** What was printed in decimal is read back just when it is within the limit and fits 64 bits. */
  lemma FieldOfDecimal(n: nat, lim: nat)
    ensures Field(Decimal(n), lim) == if n <= lim && n < TWO_64 then Some(n) else None
  {
    DecimalReads(n);
    var s := Decimal(n);
    assert SkipSpace(s) == s;
    if s[0] == '0' {
      assert s == "0" && s[..0] == "";
      assert Value(s, 8) == 0;
    }
  }

  /** Digits of the base that the prefix of the text names, and no number that needs more than 64 bits. */
  predicate Reads(digits: string, base: nat) {
    digits != "" && Digits(digits, base) && Value(digits, base) < TWO_64
  }

  /** Hexadecimal behind `0x`, octal behind a zero, and decimal otherwise, read back just when within the
      limit; the empty text is 0. */
  lemma FieldForms(digits: string, lim: nat)
    ensures Reads(digits, 16) ==>
      Field("0x" + digits, lim) == if Value(digits, 16) <= lim then Some(Value(digits, 16)) else None
    ensures Reads(digits, 8) ==>
      Field("0" + digits, lim) == if Value(digits, 8) <= lim then Some(Value(digits, 8)) else None
    ensures Reads(digits, 10) && digits != "" && digits[0] != '0' ==>
      Field(digits, lim) == if Value(digits, 10) <= lim then Some(Value(digits, 10)) else None
    ensures Field("", lim) == Some(0)
  {
    hide Field, Reads, Value;
    if Reads(digits, 16) {
      Hexadecimal(digits, lim);
    }
    if Reads(digits, 8) {
      Octal(digits, lim);
    }
    if Reads(digits, 10) && digits != "" && digits[0] != '0' {
      PlainDecimal(digits, lim);
    }
    NoField(lim);
  }

  lemma NoField(lim: nat)
    ensures Field("", lim) == Some(0)
  {
  }

  lemma PlainDecimal(digits: string, lim: nat)
    requires Reads(digits, 10) && digits[0] != '0'
    ensures Field(digits, lim) == if Value(digits, 10) <= lim then Some(Value(digits, 10)) else None
  {
    hide Value, Digits;
    FirstDigit(digits, 10);
    assert SkipSpace(digits) == digits;
  }

  lemma Hexadecimal(digits: string, lim: nat)
    requires Reads(digits, 16)
    ensures Field("0x" + digits, lim) == if Value(digits, 16) <= lim then Some(Value(digits, 16)) else None
  {
    hide Value, Digits;
    var s := "0x" + digits;
    assert s[2..] == digits && s[0] == '0' && s[1] == 'x';
    assert DigitValue(s[2]) < 16 by { FirstDigit(digits, 16); }
  }

  lemma FirstDigit(digits: string, base: nat)
    requires Reads(digits, base)
    ensures DigitValue(digits[0]) < base
  {
  }

  lemma Octal(digits: string, lim: nat)
    requires Reads(digits, 8)
    ensures Field("0" + digits, lim) == if Value(digits, 8) <= lim then Some(Value(digits, 8)) else None
  {
    hide Value;
    var s := "0" + digits;
    assert s[0] == '0' && s[1] == digits[0];
    FirstDigit(digits, 8);
    ZeroInFront(digits, 8);
    assert forall i :: 0 < i < |s| ==> s[i] == digits[i - 1];
  }

  lemma {:induction false} ZeroInFront(digits: string, base: nat)
    ensures Value("0" + digits, base) == Value(digits, base)
  {
    var s := "0" + digits;
    if digits == "" {
      assert s[..0] == "";
    } else {
      ZeroInFront(digits[..|digits| - 1], base);
      assert s[..|s| - 1] == "0" + digits[..|digits| - 1];
    }
  }

  /** White space in front is skipped, a plus sign makes no difference, and a minus sign negates modulo
      2^64. */
  lemma SignedField(n: nat, lim: nat)
    requires n < TWO_64
    ensures Field(" " + Decimal(n), lim) == Field(Decimal(n), lim) == Field("+" + Decimal(n), lim)
    ensures var negated := if n == 0 then 0 else TWO_64 - n;
      Field("-" + Decimal(n), lim) == if negated <= lim then Some(negated) else None
  {
    hide Field, Decimal;
    DecimalReads(n);
    OctalZero(Decimal(n), n);
    Blank(Decimal(n), lim);
    Plus(Decimal(n), n, lim);
    Minus(Decimal(n), n, lim);
    FieldOfDecimal(n, lim);
  }

  lemma Blank(s: string, lim: nat)
    requires s != ""
    ensures Field(" " + s, lim) == Field(s, lim)
  {
    hide Value, Digits;
    assert (" " + s)[1..] == s;
    assert SkipSpace(" " + s) == SkipSpace(s);
  }

  /** The text is the decimal number `n`, or a zero. */
  predicate IsNumber(s: string, n: nat) {
    && s != "" && '0' <= s[0] <= '9' && (s[0] == '0' ==> |s| == 1 && Digits(s, 8) && Value(s, 8) == n)
    && Digits(s, 10) && Value(s, 10) == n && n < TWO_64
  }

  lemma Plus(s: string, n: nat, lim: nat)
    requires IsNumber(s, n)
    ensures Field("+" + s, lim) == if n <= lim then Some(n) else None
  {
    hide Value, Digits;
    assert ("+" + s)[1..] == s;
    assert SkipSpace("+" + s) == "+" + s;
  }

  lemma Minus(s: string, n: nat, lim: nat)
    requires IsNumber(s, n)
    ensures var negated := if n == 0 then 0 else TWO_64 - n;
      Field("-" + s, lim) == if negated <= lim then Some(negated) else None
  {
    hide Value, Digits;
    assert ("-" + s)[1..] == s;
    assert SkipSpace("-" + s) == "-" + s;
  }

  /** A printed number that starts with a zero is zero. */
  lemma OctalZero(s: string, n: nat)
    requires s == Decimal(n) && n < TWO_64
    ensures s[0] == '0' ==> Digits(s, 8) && Value(s, 8) == n && |s| == 1
  {
    DecimalReads(n);
    if s[0] == '0' {
      assert s == "0" && s[..0] == "";
    }
  }
}
