/**
 * The C library's text conversions the codecs rely on: `printf("%d")` for the
 * Netpbm header, `atoi` for the header numbers, and the NUL-terminated view
 * of a token buffer that `strcmp` and `atoi` see.
 */
module Decimal {
  import opened Bytes

  predicate IsDigit(b: byte) {
    ZERO <= b < ZERO + 10
  }

  /** The bytes C's `isspace` accepts in the "C" locale: space, \t, \n, \v, \f, \r. */
  predicate IsCSpace(b: byte) {
    b == SP || TAB <= b <= CR
  }

  predicate AllDigits(t: seq<byte>) {
    forall i :: 0 <= i < |t| ==> IsDigit(t[i])
  }

  /** Decimal digits of `n`, most significant first, without leading zeros. */
  function DecNat(n: nat): (r: seq<byte>)
    ensures 1 <= |r| && AllDigits(r)
    ensures r[0] == ZERO ==> n == 0
    decreases n
  {
    if n < 10 then [ZERO + n] else DecNat(n / 10) + [ZERO + n % 10]
  }

  /** `printf("%d", n)`: an optional minus sign, then the digits of |n|. */
  function DecInt(n: int): (r: seq<byte>)
    ensures 1 <= |r|
    ensures n >= 0 ==> AllDigits(r)
    ensures n < 0 ==> r[0] == MINUS && AllDigits(r[1..])
  {
    if n < 0 then [MINUS] + DecNat(-n) else DecNat(n)
  }

  /** Value of a digit string read left to right, as `atoi` accumulates it. */
  function DigitsValue(t: seq<byte>): nat
    requires AllDigits(t)
  {
    if t == [] then 0 else DigitsValue(t[..|t| - 1]) * 10 + (t[|t| - 1] - ZERO)
  }

  /** Length of the run of digits at the start of `t`. */
  function DigitRun(t: seq<byte>): (n: nat)
    ensures n <= |t| && AllDigits(t[..n])
    ensures n < |t| ==> !IsDigit(t[n])
  {
    if t == [] || !IsDigit(t[0]) then 0 else 1 + DigitRun(t[1..])
  }

  /** Number of `isspace` bytes at the start of `t`. */
  function SpaceRun(t: seq<byte>): (n: nat)
    ensures n <= |t|
    ensures forall i :: 0 <= i < n ==> IsCSpace(t[i])
    ensures n < |t| ==> !IsCSpace(t[n])
  {
    if t == [] || !IsCSpace(t[0]) then 0 else 1 + SpaceRun(t[1..])
  }

  /**
   * `atoi(t)`: skip leading white space, take an optional sign, then the
   * longest run of digits; anything after the run is ignored and no digits
   * give 0. The value is an unbounded integer.
   */
  function Atoi(t: seq<byte>): (r: int)
    ensures AllDigits(t) ==> r == DigitsValue(t)
    ensures |t| > 0 && !IsCSpace(t[0]) && !IsDigit(t[0]) && t[0] != MINUS && t[0] != PLUS ==> r == 0
  {
    assert |t| > 0 && IsDigit(t[0]) ==> SpaceRun(t) == 0;
    assert AllDigits(t) ==> DigitRun(t) == |t| && t[SpaceRun(t)..] == t[..DigitRun(t)] == t;
    var u := t[SpaceRun(t)..];
    if |u| > 0 && (u[0] == MINUS || u[0] == PLUS) then
      var v: int := DigitsValue(u[1..][..DigitRun(u[1..])]);
      if u[0] == MINUS then -v else v
    else
      DigitsValue(u[..DigitRun(u)])
  }

  /** The bytes of a `char` buffer up to (not including) its first NUL. */
  function CString(t: seq<byte>): (r: seq<byte>)
    ensures |r| <= |t| && r == t[..|r|]
    ensures forall i :: 0 <= i < |r| ==> r[i] != 0
    ensures |r| < |t| ==> t[|r|] == 0
  {
    if t == [] || t[0] == 0 then [] else [t[0]] + CString(t[1..])
  }

  lemma {:induction false} DigitsValueOfDecNat(n: nat)
    ensures DigitsValue(DecNat(n)) == n
    decreases n
  {
    var r := DecNat(n);
    if n >= 10 {
      DigitsValueOfDecNat(n / 10);
      assert r[..|r| - 1] == DecNat(n / 10);
    }
  }

  /** `atoi` reads back exactly the number `printf("%d")` wrote. */
  lemma AtoiOfDecInt(n: int)
    ensures Atoi(DecInt(n)) == n
  {
    var r := DecInt(n);
    if n < 0 {
      DigitsValueOfDecNat(-n);
      assert r[SpaceRun(r)..] == r;
      assert r[1..] == DecNat(-n);
      assert r[1..][..DigitRun(r[1..])] == r[1..];
    } else {
      DigitsValueOfDecNat(n);
      assert r[SpaceRun(r)..] == r;
      assert r[..DigitRun(r)] == r;
    }
  }

  function Pow10(k: nat): (p: nat)
    ensures p >= 1
  {
    if k == 0 then 1 else 10 * Pow10(k - 1)
  }

  /** A number below 10^k has at most k digits. */
  lemma {:induction false} DecNatLength(n: nat, k: nat)
    requires 1 <= k && n < Pow10(k)
    ensures |DecNat(n)| <= k
    decreases k
  {
    if n >= 10 {
      assert k >= 2;
      DecNatLength(n / 10, k - 1);
    }
  }

  /** `printf("%d")` of a 32-bit `int` takes at most 11 bytes: a sign and ten digits. */
  lemma DecIntLength(n: int)
    requires -0x8000_0000 <= n < 0x8000_0000
    ensures |DecInt(n)| <= 11
  {
    assert Pow10(10) == 10_000_000_000;
    DecNatLength(if n < 0 then -n else n, 10);
  }

  /** A buffer without a NUL is its own C string. */
  lemma CStringOfNoNul(t: seq<byte>)
    requires forall i :: 0 <= i < |t| ==> t[i] != 0
    ensures CString(t) == t
  {
  }
}
