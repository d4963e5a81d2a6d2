/** Field elements of the Stark field, their `{:#x}` printed form, and the hex parser that reads it back. */
module Felts {

  datatype Option<+T> = None | Some(value: T)

  datatype Result<+T, +E> = Ok(value: T) | Err(error: E)

  /** 2^251 + 17 * 2^192 + 1 */
  const PRIME: nat := 0x800000000000011000000000000000000000000000000000000000000000001

  type Felt = n: nat | n < PRIME

  const ZERO: Felt := 0

  type Byte = n: nat | n < 0x100

  function FromNat(n: nat): Felt {
    n % PRIME
  }

  function Add(a: Felt, b: Felt): Felt {
    (a + b) % PRIME
  }

  function Mul(a: Felt, b: Felt): Felt {
    (a * b) % PRIME
  }

  function Pow(base: nat, n: nat): (p: nat)
    ensures base > 0 ==> p > 0
  {
    if n == 0 then 1 else base * Pow(base, n - 1)
  }

  lemma {:induction false} PowSum(base: nat, m: nat, n: nat)
    ensures Pow(base, m + n) == Pow(base, m) * Pow(base, n)
  {
    if m == 0 {
    } else {
      PowSum(base, m - 1, n);
      MulAssociative(base, Pow(base, m - 1), Pow(base, n));
    }
  }

  lemma MulAssociative(x: nat, y: nat, z: nat)
    ensures x * (y * z) == (x * y) * z
  {
  }

  /** The quotient and remainder are the only ones. */
  lemma DivModUnique(n: nat, d: nat, q: nat, r: nat)
    requires d > 0 && n == d * q + r && r < d
    ensures n / d == q && n % d == r
  {
    var q' := n / d;
    assert n == d * q' + n % d;
    MulStrict(d, q', q);
    MulStrict(d, q, q');
  }

  lemma MulStrict(d: nat, x: nat, y: nat)
    ensures x < y ==> d * x + d <= d * y
  {
    if x < y {
      var gap := y - x - 1;
      assert d * y == d * (x + 1 + gap) == d * (x + 1) + d * gap;
      assert d * (x + 1) == d * x + d;
    }
  }

  // ------------------------------------------------------------------------
  // Printing
  // ------------------------------------------------------------------------

  function HexDigit(d: nat): char
    requires d < 16
  {
    if d < 10 then '0' + d as char else 'a' + (d - 10) as char
  }

  /** Lower-case digits, most significant first, no leading zero except for 0 itself. */
  function HexDigits(n: nat): string {
    if n < 16 then [HexDigit(n)] else HexDigits(n / 16) + [HexDigit(n % 16)]
  }

  /** Rust's `format!("{:#x}", n)`. */
  function ToHex(n: nat): string {
    "0x" + HexDigits(n)
  }

  // ------------------------------------------------------------------------
  // Parsing
  // ------------------------------------------------------------------------

  function DigitValue(c: char): (v: Option<nat>)
    ensures v.Some? ==> v.value < 16
  {
    if '0' <= c <= '9' then Some((c - '0') as nat)
    else if 'a' <= c <= 'f' then Some((c - 'a') as nat + 10)
    else if 'A' <= c <= 'F' then Some((c - 'A') as nat + 10)
    else None
  }

  function ParseDigits(s: string): Option<nat> {
    if s == [] then Some(0)
    else
      match (ParseDigits(s[..|s| - 1]), DigitValue(s[|s| - 1]))
      case (Some(high), Some(low)) => Some(16 * high + low)
      case _ => None
  }

  function StripPrefix(s: string): string {
    if |s| > 2 && s[..2] == "0x" then s[2..] else s
  }

  /** `Felt::from_hex`: an optional prefix, then one to 64 digits; the value is reduced into the field. */
  function FeltFromHex(s: string): Option<Felt> {
    var digits := StripPrefix(s);
    if digits == [] || |digits| > 64 then None
    else
      match ParseDigits(digits)
      case Some(n) => Some(FromNat(n))
      case None => None
  }

  /** An unsigned integer field of the JSON-RPC interface (`u64` and `u128` fields). */
  function NatFromHex(s: string): Option<nat> {
    var digits := StripPrefix(s);
    if digits == [] then None else ParseDigits(digits)
  }

  // ------------------------------------------------------------------------
  // Round trips
  // ------------------------------------------------------------------------

  lemma DigitRoundTrip(d: nat)
    requires d < 16
    ensures DigitValue(HexDigit(d)) == Some(d)
  {
    if d >= 10 {
      assert HexDigit(d) as nat == 'a' as nat + (d - 10);
    }
  }

  lemma {:induction false} ParsePrinted(n: nat)
    ensures ParseDigits(HexDigits(n)) == Some(n)
    ensures HexDigits(n) != []
  {
    DigitRoundTrip(n % 16);
    if n < 16 {
      assert HexDigits(n)[..0] == [];
      assert ParseDigits([]) == Some(0);
    } else {
      ParsePrinted(n / 16);
      var s := HexDigits(n);
      assert s[..|s| - 1] == HexDigits(n / 16);
    }
  }

  lemma {:induction false} DigitCount(n: nat, k: nat)
    requires k > 0 && n < Pow(16, k)
    ensures |HexDigits(n)| <= k
  {
    if n < 16 {
    } else {
      assert Pow(16, 1) == 16;
      DigitCount(n / 16, k - 1);
    }
  }

  predicate LowerHex(c: char) {
    '0' <= c <= '9' || 'a' <= c <= 'f'
  }

  lemma DigitIsLower(d: nat)
    requires d < 16
    ensures LowerHex(HexDigit(d)) && (HexDigit(d) == '0' <==> d == 0)
  {
    if d >= 10 {
      assert HexDigit(d) as nat == 'a' as nat + (d - 10);
    } else {
      assert HexDigit(d) as nat == '0' as nat + d;
    }
  }

  /** The printed digits are lower-case, and only the number 0 starts with one. */
  lemma {:induction false} PrintedShape(n: nat)
    ensures HexDigits(n) != [] && forall i :: 0 <= i < |HexDigits(n)| ==> LowerHex(HexDigits(n)[i])
    ensures HexDigits(n)[0] == '0' <==> n == 0
  {
    DigitIsLower(n % 16);
    if n < 16 {
    } else {
      PrintedShape(n / 16);
    }
  }

  /** Digits parse exactly when each of them is one. */
  lemma {:induction false} ParsesExactly(s: string)
    ensures ParseDigits(s).Some? <==> forall i :: 0 <= i < |s| ==> LowerHex(s[i]) || 'A' <= s[i] <= 'F'
  {
    if s == [] {
    } else {
      ParsesExactly(s[..|s| - 1]);
    }
  }

  /** Every printed natural number parses back to itself. */
  lemma NatRoundTrip(n: nat)
    ensures NatFromHex(ToHex(n)) == Some(n)
  {
    ParsePrinted(n);
    assert ToHex(n)[2..] == HexDigits(n);
  }

  lemma PrimeHas64Digits()
    ensures PRIME < Pow(16, 64)
  {
    assert Pow(16, 4) == 0x1_0000;
    PowSum(16, 4, 4);
    PowSum(16, 8, 8);
    assert Pow(16, 16) == 0x1_0000_0000_0000_0000;
    PowSum(16, 16, 16);
    PowSum(16, 32, 32);
  }

  /** Every printed field element parses back to itself, so `felt_from_hex` undoes `{:#x}`. */
  lemma FeltRoundTrip(f: Felt)
    ensures FeltFromHex(ToHex(f)) == Some(f)
  {
    FeltDigits(f);
    ParsePrinted(f);
    assert StripPrefix(ToHex(f)) == HexDigits(f);
  }

  lemma FeltDigits(f: Felt)
    ensures |HexDigits(f)| <= 64
  {
    PrimeHas64Digits();
    DigitCount(f, 64);
  }

  /** The printed form is injective. */
  lemma HexInjective(a: nat, b: nat)
    requires ToHex(a) == ToHex(b)
    ensures a == b
  {
    NatRoundTrip(a);
    NatRoundTrip(b);
  }
}
