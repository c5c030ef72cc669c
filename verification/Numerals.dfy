/** Numbers as they are written on the wire, by digits from an alphabet, and how the readers take these digits. */
module Numerals {
  import opened Http

  const LOWER: string := "0123456789abcdef"
  const UPPER: string := "0123456789ABCDEF"

  lemma QuotientIsLess(n: nat, base: nat)
    requires 2 <= base <= n
    ensures n / base < n
  {
    assert n == n / base * base + n % base;
  }

  /** The digits of n, most significant first, without leading zeros. */
  function Spell(n: nat, base: nat, alphabet: string): (s: string)
    requires 2 <= base <= |alphabet|
    ensures s != ""
  {
    if n < base then [alphabet[n]]
    else
      QuotientIsLess(n, base);
      Spell(n / base, base, alphabet) + [alphabet[n % base]]
  }

  function SpellDec(n: nat): string {
    Spell(n, 10, LOWER)
  }

  function SpellHex(n: nat, upper: bool): string {
    Spell(n, 16, if upper then UPPER else LOWER)
  }

  lemma DigitOf(d: nat, upper: bool)
    requires d < 16
    ensures var c := (if upper then UPPER else LOWER)[d];
      IsHexDigit(c) && DigitValue(c) == d && (d < 10 ==> IsDigit(c)) && c != '\r' && c != '\n'
    ensures LOWER == "0123456789abcdef" && UPPER == "0123456789ABCDEF"
  {
    var alphabet := if upper then UPPER else LOWER;
    if d < 8 {
      assert alphabet[..8] == "01234567";
      assert alphabet[d] == alphabet[..8][d];
    } else {
      assert alphabet[8..] == if upper then "89ABCDEF" else "89abcdef";
      assert alphabet[d] == alphabet[8..][d - 8];
    }
  }

  /** Another digit at the end. */
  lemma SpellMore(n: nat, base: nat, alphabet: string)
    requires 2 <= base <= |alphabet| && base <= n
    ensures Spell(n, base, alphabet) == Spell(n / base, base, alphabet) + [alphabet[n % base]]
  {
  }

  lemma SpellOne(n: nat, base: nat, alphabet: string)
    requires 2 <= base <= |alphabet| && n < base
    ensures Spell(n, base, alphabet) == [alphabet[n]]
  {
    assert n % base == n;
    assert "" + [alphabet[n]] == [alphabet[n]];
  }

  lemma InBefore(s: string, last: char, c: char)
    requires c in s + [last]
    ensures c in s || c == last
  {
  }

  lemma {:induction false} DecimalDigits(n: nat)
    ensures forall c :: c in SpellDec(n) ==> IsDigit(c) && c != '\r' && c != '\n'
  {
    DigitOf(n % 10, false);
    var before, last := "", LOWER[n % 10];
    hide LOWER, IsDigit, IsHexDigit, DigitValue;
    if n < 10 {
      SpellOne(n, 10, LOWER);
      assert "" + [last] == [last];
    } else {
      before := SpellDec(n / 10);
      DecimalDigits(n / 10);
      SpellMore(n, 10, LOWER);
    }
    assert SpellDec(n) == before + [last];
    hide *;
    forall c | c in SpellDec(n)
      ensures IsDigit(c) && c != '\r' && c != '\n'
    {
      InBefore(before, last, c);
    }
  }

  lemma {:induction false} HexDigits(n: nat, upper: bool)
    ensures forall c :: c in SpellHex(n, upper) ==> IsHexDigit(c) && c != '\r' && c != '\n'
  {
    DigitOf(n % 16, upper);
    var alphabet := if upper then UPPER else LOWER;
    var before, last := "", alphabet[n % 16];
    hide LOWER, UPPER, IsDigit, IsHexDigit, DigitValue;
    if n < 16 {
      SpellOne(n, 16, alphabet);
      assert "" + [last] == [last];
    } else {
      before := SpellHex(n / 16, upper);
      HexDigits(n / 16, upper);
      SpellMore(n, 16, alphabet);
    }
    assert SpellHex(n, upper) == before + [last];
    hide *;
    forall c | c in SpellHex(n, upper)
      ensures IsHexDigit(c) && c != '\r' && c != '\n'
    {
      InBefore(before, last, c);
    }
  }
}
