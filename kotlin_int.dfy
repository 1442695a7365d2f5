/** Kotlin's 32-bit `Int`: the wrap-around of its arithmetic, its decimal
    rendering (`toString`) and its parser (`toIntOrNull`, radix 10). */
module KotlinInt {
  import opened Wrappers

  const MinInt: int := -0x8000_0000
  const MaxInt: int := 0x7fff_ffff
  const Modulus: int := 0x1_0000_0000

  predicate IsInt(x: int)
  {
    MinInt <= x <= MaxInt
  }

  /** The value a Kotlin `Int` operation yields when its exact result is `x`:
      two's-complement wrap-around into [MinInt, MaxInt]. */
  function Wrap(x: int): (r: int)
    ensures IsInt(r)
    ensures (r - x) % Modulus == 0
    ensures IsInt(x) ==> r == x
    decreases if x > MaxInt then x - MaxInt else if x < MinInt then MinInt - x else 0
  {
    if x > MaxInt then Wrap(x - Modulus)
    else if x < MinInt then Wrap(x + Modulus)
    else x
  }

  /** `Wrap(x)` is the only `Int` congruent to `x` modulo 2^32, so it is the
      two's-complement result whatever order the wrap-around happened in. */
  lemma WrapUnique(x: int, r: int)
    requires IsInt(r) && (r - x) % Modulus == 0
    ensures r == Wrap(x)
  {
    var w := Wrap(x);
    var q1, q2 := (w - x) / Modulus, (r - x) / Modulus;
    assert w - x == Modulus * q1;
    assert r - x == Modulus * q2;
    assert w - r == Modulus * (q1 - q2);
  }

  predicate IsDigit(c: char)
  {
    '0' <= c <= '9'
  }

  predicate AllDigits(s: string)
  {
    forall k :: 0 <= k < |s| ==> IsDigit(s[k])
  }

  function DigitChar(d: nat): (c: char)
    requires d < 10
    ensures IsDigit(c)
  {
    ('0' as int + d) as char
  }

  function DigitValue(c: char): (d: nat)
    requires IsDigit(c)
    ensures d < 10 && DigitChar(d) == c
  {
    c as int - '0' as int
  }

  /** The value of a string of decimal digits, most significant first. */
  function DigitsValue(s: string): nat
    requires AllDigits(s)
  {
    if s == [] then 0 else DigitsValue(s[..|s| - 1]) * 10 + DigitValue(s[|s| - 1])
  }

  /** Decimal rendering of a natural number, without leading zeros. */
  function NatToString(n: nat): (s: string)
    ensures |s| >= 1 && AllDigits(s)
    ensures s[0] == '0' ==> n == 0
  {
    if n < 10 then [DigitChar(n)] else NatToString(n / 10) + [DigitChar(n % 10)]
  }

  /** `Int.toString()`: a minus sign for negative values, then the digits. */
  function IntToString(n: int): (s: string)
    ensures |s| >= 1
    ensures forall k :: 0 <= k < |s| ==> IsDigit(s[k]) || (k == 0 && s[k] == '-')
  {
    if n < 0 then "-" + NatToString(-n) else NatToString(n)
  }

  /** `String.toIntOrNull()`: an optional `+` or `-`, then at least one digit,
      and a value that fits in an `Int`; anything else is `null`. */
  function ToIntOrNull(s: string): (r: Option<int>)
    ensures r.Some? ==> IsInt(r.value)
    ensures r.Some? ==> |s| >= 1 && (IsDigit(s[0]) || s[0] == '-' || s[0] == '+')
    ensures r.Some? ==> forall k :: 1 <= k < |s| ==> IsDigit(s[k])
  {
    if |s| == 0 then None
    else if s[0] == '-' || s[0] == '+' then
      if |s| == 1 || !AllDigits(s[1..]) then None
      else
        var v: int := if s[0] == '-' then -(DigitsValue(s[1..]) as int) else DigitsValue(s[1..]);
        if IsInt(v) then Some(v) else None
    else if AllDigits(s) then
      var v := DigitsValue(s);
      if IsInt(v) then Some(v) else None
    else None
  }

  /** Reading back the digits of `n` gives `n`. */
  lemma {:induction false} DigitsOfNat(n: nat)
    ensures DigitsValue(NatToString(n)) == n
  {
    var s := NatToString(n);
    if n >= 10 {
      DigitsOfNat(n / 10);
      assert s[..|s| - 1] == NatToString(n / 10);
    }
  }

  lemma ParseDigits(s: string)
    requires |s| >= 1 && AllDigits(s) && IsInt(DigitsValue(s))
    ensures ToIntOrNull(s) == Some(DigitsValue(s))
  {
    assert IsDigit(s[0]);
  }

  lemma ParseNegatedDigits(s: string)
    requires |s| >= 1 && AllDigits(s) && IsInt(-(DigitsValue(s) as int))
    ensures ToIntOrNull("-" + s) == Some(-(DigitsValue(s) as int))
  {
    assert ("-" + s)[0] == '-';
    assert ("-" + s)[1..] == s;
  }

  /** `toIntOrNull` inverts `toString` on every `Int`. */
  lemma ParseOfPrint(n: int)
    requires IsInt(n)
    ensures ToIntOrNull(IntToString(n)) == Some(n)
  {
    if n < 0 {
      DigitsOfNat(-n);
      ParseNegatedDigits(NatToString(-n));
    } else {
      DigitsOfNat(n);
      ParseDigits(NatToString(n));
    }
  }

  /** A rendered `Int` contains neither of the ledger's separators. */
  lemma PrintHasNoSeparator(n: int, sep: char)
    requires sep != '-' && !IsDigit(sep)
    ensures sep !in IntToString(n)
  {
  }
}
