/** Java's 32-bit `int`: wrap-around arithmetic and `Integer.parseInt`. */
module JavaInt {
  import opened Wrappers

  const IntMin: int := -0x8000_0000
  const IntMax: int := 0x7FFF_FFFF
  const Modulus: int := 0x1_0000_0000

  predicate InInt32(x: int) {
    IntMin <= x <= IntMax
  }

  /** Values of a Java `int`. */
  type Int32 = x: int | InInt32(x)

  /** The value Java stores for the mathematical result `x` of an `int` operation
      or of a `(int)` cast from `long`: two's-complement wrap-around. */
  function Wrap32(x: int): (r: int)
    ensures InInt32(r)
    ensures (r - x) % Modulus == 0
  {
    (x - IntMin) % Modulus + IntMin
  }

  lemma Wrap32Identity(x: int)
    requires InInt32(x)
    ensures Wrap32(x) == x
  {
  }

  /** Adding to a wrapped value and wrapping again is the same as wrapping once. */
  lemma Wrap32Add(a: int, b: int)
    ensures Wrap32(Wrap32(a) + b) == Wrap32(a + b)
  {
    var k := (a - IntMin) / Modulus;
    assert Wrap32(a) == a - k * Modulus;
    assert Wrap32(a) + b - IntMin == (a + b - IntMin) - k * Modulus;
    ModuloShift(a + b - IntMin, k);
  }

  lemma ModuloShift(x: int, k: int)
    ensures (x - k * Modulus) % Modulus == x % Modulus
  {
    var q := x / Modulus;
    var r := x % Modulus;
    assert x - k * Modulus == (q - k) * Modulus + r;
  }

  // ---------------------------------------------------------------------
  // Integer.parseInt (radix 10)
  // ---------------------------------------------------------------------

  predicate IsDigit(c: char) {
    '0' <= c <= '9'
  }

  predicate AllDigits(s: string) {
    forall i :: 0 <= i < |s| ==> IsDigit(s[i])
  }

  /** The natural number written by a string of decimal digits. */
  function DigitsValue(s: string): nat
    requires AllDigits(s)
  {
    if |s| == 0 then 0
    else DigitsValue(s[..|s| - 1]) * 10 + (s[|s| - 1] as int - '0' as int)
  }

  /** `Integer.parseInt(s)`: an optional `+` or `-`, then at least one ASCII digit,
      with the value inside the `int` range; `None` is the NumberFormatException. */
  function ParseInt(s: string): (r: Option<int>)
    ensures r.Some? ==> InInt32(r.value)
    ensures r.Some? <==> WellFormedDecimal(s) && InInt32(SignedValue(s))
  {
    if !WellFormedDecimal(s) then None
    else
      var v := SignedValue(s);
      if InInt32(v) then Some(v) else None
  }

  predicate HasSign(s: string) {
    |s| > 0 && (s[0] == '-' || s[0] == '+')
  }

  predicate WellFormedDecimal(s: string) {
    var body := if HasSign(s) then s[1..] else s;
    |body| > 0 && AllDigits(body)
  }

  function SignedValue(s: string): int
    requires WellFormedDecimal(s)
  {
    var magnitude: int := if HasSign(s) then DigitsValue(s[1..]) else DigitsValue(s);
    if HasSign(s) && s[0] == '-' then -magnitude else magnitude
  }

  /** `Integer.toString(n)` for decimal output: a minus sign for negatives, no leading zeros. */
  function FormatInt(n: int): string {
    if n < 0 then "-" + FormatNat(-n) else FormatNat(n)
  }

  function FormatNat(n: nat): string
    decreases n
  {
    if n < 10 then [('0' as int + n) as char]
    else FormatNat(n / 10) + [('0' as int + n % 10) as char]
  }

  lemma {:induction false} FormatNatDigits(n: nat)
    ensures |FormatNat(n)| > 0
    ensures AllDigits(FormatNat(n))
    ensures DigitsValue(FormatNat(n)) == n
    decreases n
  {
    if n >= 10 {
      FormatNatDigits(n / 10);
      var s := FormatNat(n);
      assert s[..|s| - 1] == FormatNat(n / 10);
    }
  }

  /** Parsing the decimal text of any `int` gives it back. */
  lemma ParseFormatRoundTrip(n: int)
    requires InInt32(n)
    ensures ParseInt(FormatInt(n)) == Some(n)
  {
    var s := FormatInt(n);
    if n < 0 {
      FormatNatDigits(-n);
      assert s[1..] == FormatNat(-n);
      assert HasSign(s) && s[0] == '-';
      assert WellFormedDecimal(s);
      assert SignedValue(s) == n;
    } else {
      FormatNatDigits(n);
      assert IsDigit(s[0]);
      assert !HasSign(s);
      assert WellFormedDecimal(s);
      assert SignedValue(s) == n;
    }
  }
}
