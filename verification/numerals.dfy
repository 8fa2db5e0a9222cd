/** Positional numerals: Python's `f"{n:X}"` (upper-case hexadecimal) and
    `str(n)` (decimal), each with the reader that inverts it. */
module Numerals {
  import opened Wrappers

  const Alphabet := "0123456789ABCDEF"

  predicate IsBase(base: int) { 2 <= base <= 16 }

  function DigitChar(v: nat): char
    requires v < 16
  {
    Alphabet[v]
  }

  /** The value of an upper-case digit character, if it is a digit of `base`. */
  function DigitValue(c: char, base: nat): (r: Option<nat>)
    requires IsBase(base)
    ensures r.Some? ==> r.value < base
  {
    var v := if '0' <= c <= '9' then c as int - '0' as int
             else if 'A' <= c <= 'F' then c as int - 'A' as int + 10
             else 16;
    if v < base then Some(v) else None
  }

  lemma {:induction false} DigitCharValue(v: nat, base: nat)
    requires IsBase(base) && v < base
    ensures DigitValue(DigitChar(v), base) == Some(v)
  {
  }

  predicate AllDigits(s: string, base: nat)
    requires IsBase(base)
  {
    forall i :: 0 <= i < |s| ==> DigitValue(s[i], base).Some?
  }

  /** The number a string of digits denotes, most significant digit first. */
  function DigitsValue(s: string, base: nat): nat
    requires IsBase(base) && AllDigits(s, base)
    decreases |s|
  {
    if |s| == 0 then 0
    else Shift(DigitsValue(s[..|s| - 1], base), base) + DigitValue(s[|s| - 1], base).value
  }

  /** `x * base`, written as repeated addition so that multiplication enters
      a proof only where `ShiftIsProduct` is invoked. */
  function Shift(x: nat, base: nat): nat
    decreases x
  {
    if x == 0 then 0 else Shift(x - 1, base) + base
  }

  lemma {:induction false} ShiftIsProduct(x: nat, base: nat)
    ensures Shift(x, base) == x * base
    decreases x
  {
    if x > 0 {
      ShiftIsProduct(x - 1, base);
    }
  }

  /** `n // base`, written as repeated subtraction (with `Rem` for `n % base`). */
  function Quot(n: nat, base: nat): nat
    requires IsBase(base)
    decreases n
  {
    if n < base then 0 else Quot(n - base, base) + 1
  }

  function Rem(n: nat, base: nat): nat
    requires IsBase(base)
    decreases n
  {
    if n < base then n else Rem(n - base, base)
  }

  /** Euclid's division: `n == base * (n // base) + n % base` with the remainder below the base. */
  lemma {:induction false} QuotRem(n: nat, base: nat)
    requires IsBase(base)
    ensures Shift(Quot(n, base), base) + Rem(n, base) == n
    ensures Rem(n, base) < base
    ensures n >= base ==> 1 <= Quot(n, base) < n
    decreases n
  {
    if n >= base {
      QuotRem(n - base, base);
    }
  }

  /** Quotient and remainder are unique. */
  lemma {:induction false} QuotRemOf(q: nat, v: nat, base: nat)
    requires IsBase(base) && v < base
    ensures Quot(Shift(q, base) + v, base) == q
    ensures Rem(Shift(q, base) + v, base) == v
    decreases q
  {
    if q > 0 {
      QuotRemOf(q - 1, v, base);
      assert Shift(q, base) + v - base == Shift(q - 1, base) + v;
    }
  }

  /** The digits of `n` in `base`, with no leading zero ("0" for zero). */
  function NatDigits(n: nat, base: nat): (r: string)
    requires IsBase(base)
    ensures 1 <= |r|
    ensures AllDigits(r, base)
    ensures r[0] == '0' ==> n == 0 && r == "0"
    decreases n
  {
    if n < base then
      DigitCharValue(n, base);
      [DigitChar(n)]
    else
      QuotRem(n, base);
      DigitCharValue(Rem(n, base), base);
      NatDigits(Quot(n, base), base) + [DigitChar(Rem(n, base))]
  }

  /** `format(n, ...)` for a signed integer (`f"{n:X}"`, `str(n)`): reading
      it back in `base` gives `n`, and it is the canonical numeral of `n`. */
  function IntDigits(n: int, base: nat): (r: string)
    requires IsBase(base)
    ensures ParseInt(r, base) == Some(n)
    ensures Canonical(r, base)
  {
    if n < 0 then
      var m := NatDigits(-n, base);
      NatDigitsValue(-n, base);
      assert ("-" + m)[1..] == m;
      "-" + m
    else
      var m := NatDigits(n, base);
      NatDigitsValue(n, base);
      assert DigitValue(m[0], base).Some?;
      m
  }

  /** Reads an optional minus sign followed by at least one digit of `base`. */
  function ParseInt(s: string, base: nat): Option<int>
    requires IsBase(base)
  {
    if |s| >= 2 && s[0] == '-' && AllDigits(s[1..], base) then Some(0 - DigitsValue(s[1..], base))
    else if |s| >= 1 && AllDigits(s, base) then Some(DigitsValue(s, base))
    else None
  }

  /** A numeral with no superfluous zero: no leading zero unless it is "0", and no "-0". */
  predicate Canonical(s: string, base: nat)
    requires IsBase(base)
  {
    if |s| >= 1 && s[0] == '-' then
      var m := s[1..];
      && |m| >= 1 && AllDigits(m, base) && m[0] != '0'
    else
      && |s| >= 1 && AllDigits(s, base) && (s[0] == '0' ==> |s| == 1)
  }

  lemma {:induction false} NatDigitsValue(n: nat, base: nat)
    requires IsBase(base)
    ensures DigitsValue(NatDigits(n, base), base) == n
    decreases n
  {
    if n >= base {
      QuotRem(n, base);
      var s := NatDigits(n, base);
      var p := NatDigits(Quot(n, base), base);
      var c := DigitChar(Rem(n, base));
      DigitCharValue(Rem(n, base), base);
      assert s == p + [c];
      assert s[..|s| - 1] == p;
      NatDigitsValue(Quot(n, base), base);
      assert DigitsValue(s, base) == Shift(DigitsValue(p, base), base) + DigitValue(c, base).value;
    } else {
      DigitCharValue(n, base);
      assert NatDigits(n, base)[..0] == [];
    }
  }

  lemma {:induction false} ZeroDigits(s: string, base: nat)
    requires IsBase(base) && AllDigits(s, base)
    requires DigitsValue(s, base) == 0
    ensures forall i :: 0 <= i < |s| ==> s[i] == '0'
    decreases |s|
  {
    if |s| > 0 {
      ZeroDigits(s[..|s| - 1], base);
      assert forall i :: 0 <= i < |s| - 1 ==> s[i] == s[..|s| - 1][i];
    }
  }

  lemma {:induction false} DigitOfValue(c: char, base: nat)
    requires IsBase(base) && DigitValue(c, base).Some?
    ensures DigitChar(DigitValue(c, base).value) == c
  {
  }

  /** A canonical string of digits is the rendering of the number it denotes. */
  lemma {:induction false} NatDigitsOfValue(s: string, base: nat)
    requires IsBase(base) && AllDigits(s, base)
    requires |s| >= 1 && (s[0] == '0' ==> |s| == 1)
    ensures NatDigits(DigitsValue(s, base), base) == s
    decreases |s|
  {
    var c := s[|s| - 1];
    var last := DigitValue(c, base).value;
    DigitOfValue(c, base);
    var p := s[..|s| - 1];
    if |s| == 1 {
      assert p == [];
      assert DigitsValue(s, base) == last;
      assert s == [c];
    } else {
      assert p[0] == s[0];
      var q := DigitsValue(p, base);
      if q == 0 {
        ZeroDigits(p, base);
        assert false;
      }
      NatDigitsOfValue(p, base);
      var n := DigitsValue(s, base);
      assert n == Shift(q, base) + last;
      QuotRemOf(q, last, base);
      assert n >= base;
      assert NatDigits(n, base) == NatDigits(q, base) + [DigitChar(last)];
      assert s == p + [c];
    }
  }

  lemma {:induction false} CanonicalNegative(m: string, base: nat)
    requires IsBase(base) && |m| >= 1 && AllDigits(m, base) && m[0] != '0'
    ensures IntDigits(0 - DigitsValue(m, base), base) == "-" + m
  {
    var v := DigitsValue(m, base);
    assert v > 0 && NatDigits(v, base) == m by {
      PositiveValue(m, base);
      NatDigitsOfValue(m, base);
    }
    NegativeDigits(v, m, base);
  }

  lemma {:induction false} PositiveValue(m: string, base: nat)
    requires IsBase(base) && |m| >= 1 && AllDigits(m, base) && m[0] != '0'
    ensures DigitsValue(m, base) > 0
  {
    if DigitsValue(m, base) == 0 {
      ZeroDigits(m, base);
    }
  }

  lemma {:induction false} NegativeDigits(v: nat, m: string, base: nat)
    requires IsBase(base) && v > 0 && NatDigits(v, base) == m
    ensures IntDigits(0 - v, base) == "-" + m
  {
  }

  /** The rendering is the only canonical numeral of its value: reading a
      canonical numeral and rendering the result gives the same text. */
  lemma {:induction false} CanonicalUnique(s: string, base: nat)
    requires IsBase(base) && Canonical(s, base)
    ensures ParseInt(s, base).Some?
    ensures IntDigits(ParseInt(s, base).value, base) == s
  {
    if s[0] == '-' {
      var m := s[1..];
      assert s == "-" + m;
      assert ParseInt(s, base) == Some(0 - DigitsValue(m, base));
      CanonicalNegative(m, base);
    } else {
      assert DigitValue('-', base).None?;
      assert ParseInt(s, base) == Some(DigitsValue(s, base));
      NatDigitsOfValue(s, base);
    }
  }

  lemma {:induction false} DigitsHaveNoDash(s: string, base: nat)
    requires IsBase(base) && AllDigits(s, base)
    ensures '-' !in s
  {
    forall i | 0 <= i < |s|
      ensures s[i] != '-'
    {
      assert DigitValue(s[i], base).Some?;
    }
  }

  /** Text made only of minus signs and digits (of any base up to 16). */
  predicate NumeralText(s: string) {
    forall i :: 0 <= i < |s| ==> s[i] == '-' || DigitValue(s[i], 16).Some?
  }

  lemma {:induction false} DigitsAreNumeralText(s: string, base: nat)
    requires IsBase(base) && AllDigits(s, base)
    ensures NumeralText(s)
  {
    assert forall i :: 0 <= i < |s| ==> DigitValue(s[i], base).Some? ==> DigitValue(s[i], 16).Some?;
  }

  lemma {:induction false} IntDigitsText(n: int, base: nat)
    requires IsBase(base)
    ensures NumeralText(IntDigits(n, base))
  {
    var m := NatDigits(if n < 0 then -n else n, base);
    DigitsAreNumeralText(m, base);
    if n < 0 {
      assert IntDigits(n, base) == "-" + m;
    }
  }

  /** `s` padded on the left with zeros to at least `width` characters. */
  function ZeroPad(s: string, width: nat): (r: string)
    ensures |r| >= width && |r| >= |s|
    ensures |s| < width ==> |r| == width
    ensures |s| >= width ==> r == s
    ensures r[|r| - |s|..] == s
    decreases width - |s|
  {
    if |s| >= width then s else ZeroPad("0" + s, width)
  }

  lemma {:induction false} LeadingZero(s: string, base: nat)
    requires IsBase(base) && AllDigits(s, base)
    ensures AllDigits("0" + s, base)
    ensures DigitsValue("0" + s, base) == DigitsValue(s, base)
    decreases |s|
  {
    var z := "0" + s;
    assert DigitValue('0', base).Some?;
    assert forall i :: 1 <= i < |z| ==> z[i] == s[i - 1];
    if |s| == 0 {
      assert z[..0] == [];
    } else {
      var p := s[..|s| - 1];
      LeadingZero(p, base);
      assert z[..|z| - 1] == "0" + p;
    }
  }

  /** Padding with zeros keeps a numeral's digits and value. */
  lemma {:induction false} ZeroPadValue(s: string, width: nat, base: nat)
    requires IsBase(base) && AllDigits(s, base)
    ensures AllDigits(ZeroPad(s, width), base)
    ensures DigitsValue(ZeroPad(s, width), base) == DigitsValue(s, base)
    decreases width - |s|
  {
    if |s| < width {
      LeadingZero(s, base);
      ZeroPadValue("0" + s, width, base);
    }
  }

  /** Decimal numerals of numbers below 10^k have at most k digits. */
  lemma {:induction false} DecimalLength(n: nat, k: nat, bound: nat)
    requires k >= 1 && bound == Pow10(k) && n < bound
    ensures |NatDigits(n, 10)| <= k
    decreases k
  {
    if n >= 10 {
      assert k >= 2;
      QuotRem(n, 10);
      ShiftIsProduct(Quot(n, 10), 10);
      assert Quot(n, 10) < Pow10(k - 1);
      DecimalLength(Quot(n, 10), k - 1, Pow10(k - 1));
      assert NatDigits(n, 10) == NatDigits(Quot(n, 10), 10) + [DigitChar(Rem(n, 10))];
    }
  }

  function Pow10(k: nat): (r: nat)
    ensures r >= 1
  {
    if k == 0 then 1 else 10 * Pow10(k - 1)
  }
}
