/** Numbers as C prints and reads them. */
module Decimal {
  import opened Bytes

  const ZERO: byte := 48
  const PLUS: byte := 43
  const MINUS: byte := 45

  predicate IsDigit(c: byte) {
    ZERO <= c <= 57
  }

  /** `%u` and `%ld` of a number that is not negative. */
  function Digits(n: nat): (d: bytes)
    ensures d != [] && forall i :: 0 <= i < |d| ==> IsDigit(d[i])
  {
    if n < 10 then [ZERO + n] else Digits(n / 10) + [ZERO + n % 10]
  }

  /** `%d`. */
  function Signed(n: int): bytes {
    if n < 0 then [MINUS] + Digits(-n) else Digits(n)
  }

  /** The value of the digits a text starts with, after a value already read. */
  function Leading(value: nat, s: bytes): nat
    decreases |s|
  {
    if s != [] && IsDigit(s[0]) then Leading(value * 10 + (s[0] - ZERO), s[1..]) else value
  }

  function Blanks(s: bytes): bytes {
    if s != [] && (s[0] == 32 || 9 <= s[0] <= 13) then Blanks(s[1..]) else s
  }

  /** `strtoul(s, NULL, 10)` where `unsigned long` has 32 bits: it saturates, and a
      minus sign negates modulo 2^32. */
  function Strtoul(s: bytes): (n: nat)
    ensures n < TWO_32
  {
    var t := Blanks(s);
    var minus := t != [] && t[0] == MINUS;
    var d := Leading(0, if minus || (t != [] && t[0] == PLUS) then t[1..] else t);
    if d >= TWO_32 then TWO_32 - 1 else if minus then (TWO_32 - d) % TWO_32 else d
  }

  /** `atoi`, for values an `int` can hold. */
  function Atoi(s: bytes): int {
    var t := Blanks(s);
    var minus := t != [] && t[0] == MINUS;
    var d: int := Leading(0, if minus || (t != [] && t[0] == PLUS) then t[1..] else t);
    if minus then -d else d
  }

  function Pow10(n: nat): (p: nat)
    ensures 0 < p
  {
    if n == 0 then 1 else 10 * Pow10(n - 1)
  }

  lemma {:induction false} LeadingAppend(value: nat, s: bytes, t: bytes)
    requires forall i :: 0 <= i < |s| ==> IsDigit(s[i])
    ensures Leading(value, s + t) == Leading(Leading(value, s), t)
    decreases |s|
  {
    if s == [] {
      assert s + t == t;
    } else {
      assert (s + t)[1..] == s[1..] + t;
      LeadingAppend(value * 10 + (s[0] - ZERO), s[1..], t);
    }
  }

  lemma {:induction false} LeadingDigits(n: nat)
    ensures Leading(0, Digits(n)) == n
  {
    if n < 10 {
      assert [ZERO + n][1..] == [];
      assert Leading(0, [ZERO + n]) == Leading(n, []);
    } else {
      LeadingDigits(n / 10);
      LeadingAppend(0, Digits(n / 10), [ZERO + n % 10]);
      assert [ZERO + n % 10][1..] == [];
      assert Leading(n / 10, [ZERO + n % 10]) == Leading(n / 10 * 10 + n % 10, []);
    }
  }

  lemma {:induction false} DigitsLength(n: nat, k: nat)
    requires n < Pow10(k) && 0 < k
    ensures |Digits(n)| <= k
    decreases k
  {
    if n >= 10 {
      DigitsLength(n / 10, k - 1);
    }
  }

  /** Round trip: a printed number is read back, whatever follows it. */
  lemma PrintedIsRead(n: nat, rest: bytes)
    requires rest == [] || !IsDigit(rest[0])
    ensures Atoi(Digits(n) + rest) == n
    ensures n < TWO_32 ==> Strtoul(Digits(n) + rest) == n
  {
    var s := Digits(n) + rest;
    assert s[0] == Digits(n)[0];
    LeadingDigits(n);
    LeadingAppend(0, Digits(n), rest);
  }
}
