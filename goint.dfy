/** Go's `int`, taken to be 64 bits wide as under the standard Go
    toolchain's WebAssembly target, the `++` statement on it,
    and the base-10 conversions the plugins rely on: `strconv.Atoi` (reading
    `max_tokens`, and fastjson's array-index path segments) and the decimal
    rendering `fmt`'s `%d` and `encoding/json` produce. */
module GoInt {
  import opened Wrappers

  const MinInt: int := -0x8000_0000_0000_0000
  const MaxInt: int := 0x7fff_ffff_ffff_ffff
  const Modulus: int := 0x1_0000_0000_0000_0000

  /** A value of Go's 64-bit `int`. */
  type Int = x: int | MinInt <= x <= MaxInt

  /** Two's-complement reduction of an exact result into `Int`. */
  function Wrap(x: int): (r: Int)
    ensures MinInt <= x <= MaxInt ==> r == x
  {
    (x - MinInt) % Modulus + MinInt
  }

  /** `n++` on a Go `int`: one more, except that the largest value wraps
      around to the smallest. */
  function Inc(n: Int): (r: Int)
    ensures n < MaxInt ==> r == n + 1
    ensures n == MaxInt ==> r == MinInt
  {
    Wrap(n + 1)
  }

  predicate IsDigit(c: char) {
    '0' <= c <= '9'
  }

  function DigitValue(c: char): (d: nat)
    requires IsDigit(c)
    ensures d < 10
  {
    c as int - '0' as int
  }

  predicate AllDigits(s: string) {
    forall i :: 0 <= i < |s| ==> IsDigit(s[i])
  }

  /** The number a string of decimal digits denotes, most significant digit
      first (the empty string denotes 0). */
  function DecimalValue(s: string): nat
    requires AllDigits(s)
  {
    if |s| == 0 then 0 else DecimalValue(s[..|s| - 1]) * 10 + DigitValue(s[|s| - 1])
  }

  /** The base-10 syntax `strconv.Atoi` accepts: an optional `+` or `-`,
      then one or more decimal digits (leading zeros allowed, nothing else). */
  predicate IsDecimal(s: string) {
    if |s| > 0 && (s[0] == '+' || s[0] == '-') then |s| > 1 && AllDigits(s[1..])
    else |s| > 0 && AllDigits(s)
  }

  /** The integer a decimal numeral denotes, without any range limit. */
  function DecimalOf(s: string): int
    requires IsDecimal(s)
  {
    if s[0] == '-' then -(DecimalValue(s[1..]) as int)
    else if s[0] == '+' then DecimalValue(s[1..])
    else DecimalValue(s)
  }

  /** The digit loop of `strconv.ParseUint`: scan left to right, multiply the
      running value by ten and add each digit, fail on any other character. */
  function Accumulate(s: string, acc: nat): Option<nat>
  {
    if |s| == 0 then Some(acc)
    else if !IsDigit(s[0]) then None
    else Accumulate(s[1..], acc * 10 + DigitValue(s[0]))
  }

  lemma {:induction false} AccumulateSnoc(s: string, c: char, acc: nat)
    ensures Accumulate(s + [c], acc) ==
      match Accumulate(s, acc)
      case None => None
      case Some(m) => if IsDigit(c) then Some(m * 10 + DigitValue(c)) else None
  {
    if |s| > 0 {
      assert (s + [c])[1..] == s[1..] + [c];
      if IsDigit(s[0]) {
        AccumulateSnoc(s[1..], c, acc * 10 + DigitValue(s[0]));
      }
    } else {
      assert s + [c] == [c];
    }
  }

  /** Scanning from zero yields exactly the value of a digit string, and
      fails on any string that holds a non-digit. */
  lemma {:induction false} AccumulateDigits(s: string)
    ensures Accumulate(s, 0) == if AllDigits(s) then Some(DecimalValue(s)) else None
  {
    if |s| > 0 {
      var p, c := s[..|s| - 1], s[|s| - 1];
      assert s == p + [c];
      AccumulateDigits(p);
      AccumulateSnoc(p, c, 0);
      if !AllDigits(p) {
        var i :| 0 <= i < |p| && !IsDigit(p[i]);
        assert s[i] == p[i];
      }
    }
  }

  /** `strconv.Atoi`: `None` for the empty string, a bare sign, any other
      character, and any value outside Go's `int` (the `ErrRange` case). */
  function Atoi(s: string): (r: Option<Int>)
    ensures r.Some? <==> IsDecimal(s) && MinInt <= DecimalOf(s) <= MaxInt
    ensures r.Some? ==> r.value == DecimalOf(s)
  {
    if |s| == 0 then None
    else
      var neg := s[0] == '-';
      var digits := if s[0] == '+' || s[0] == '-' then s[1..] else s;
      if |digits| == 0 then None
      else
        AccumulateDigits(digits);
        match Accumulate(digits, 0)
        case None => None
        case Some(m) =>
          var v: int := if neg then -(m as int) else m;
          if MinInt <= v <= MaxInt then Some(v) else None
  }

  function Digit(d: nat): (c: char)
    requires d < 10
    ensures IsDigit(c) && DigitValue(c) == d
  {
    ('0' as int + d) as char
  }

  /** The decimal digits of a natural number, without leading zeros. */
  function FormatNat(n: nat): (r: string)
    ensures |r| > 0 && AllDigits(r) && DecimalValue(r) == n
    ensures r[0] != '0' || n == 0
  {
    if n < 10 then [Digit(n)]
    else
      var p := FormatNat(n / 10);
      var r := p + [Digit(n % 10)];
      assert r[..|r| - 1] == p;
      r
  }

  /** `%d` of an integer: a `-` for negative values, then the digits. */
  function FormatInt(n: int): (r: string)
    ensures IsDecimal(r) && DecimalOf(r) == n
  {
    if n < 0 then
      var r := "-" + FormatNat(-n);
      assert r[1..] == FormatNat(-n);
      r
    else FormatNat(n)
  }

  /** Reading back what `%d` wrote gives the number again, for every Go `int`;
      anything `%d` writes for a value outside that range is rejected. */
  lemma AtoiFormatInt(n: int)
    ensures Atoi(FormatInt(n)) == if MinInt <= n <= MaxInt then Some(n) else None
  {
  }
}
