/**
 * Rendering of seat numbers inside the Redis lock key `lock:seat:<n>`
 * (src/worker.ts line 19). A JavaScript template literal prints an integer
 * in decimal with a leading '-' when negative; the seat number is a
 * double, so the digits are exact only for magnitudes up to 2^53, and the
 * model renders the exact decimal text of every integer.
 */
module Text {

  /** The decimal digit character for d. */
  function Digit(d: nat): (c: char)
    requires d < 10
    ensures '0' <= c <= '9'
  {
    (d + '0' as int) as char
  }

  lemma DigitInjective(a: nat, b: nat)
    requires a < 10 && b < 10
    ensures Digit(a) == Digit(b) ==> a == b
  {
  }

  /** Decimal rendering of a natural number, most significant digit first, no leading zeros. */
  function NatDigits(n: nat): (s: string)
    ensures 1 <= |s|
    ensures forall i :: 0 <= i < |s| ==> '0' <= s[i] <= '9'
    ensures n < 10 <==> |s| == 1
    ensures |s| > 1 ==> s[0] != '0'
    decreases n
  {
    if n < 10 then [Digit(n)] else NatDigits(n / 10) + [Digit(n % 10)]
  }

  /** Decimal rendering of an integer, as `${n}` prints it for |n| <= 2^53. */
  function IntToString(n: int): (s: string)
    ensures 1 <= |s|
    ensures s[0] == '-' <==> n < 0
  {
    if n < 0 then "-" + NatDigits(-n) else NatDigits(n)
  }

  const LockPrefix: string := "lock:seat:"

  /** The Redis key that serialises booking attempts on one seat number: its suffix reads back as that number. */
  function LockKey(seatNumber: int): (k: string)
    ensures |k| > |LockPrefix| && k[..|LockPrefix|] == LockPrefix
    ensures k[|LockPrefix|..] == IntToString(seatNumber)
    ensures SignedValue(k[|LockPrefix|..]) == seatNumber
  {
    var k := LockPrefix + IntToString(seatNumber);
    assert k[|LockPrefix|..] == IntToString(seatNumber);
    IntToStringValue(seatNumber);
    k
  }

  /** The value of a decimal digit character. */
  function DigitValue(c: char): (d: nat)
    ensures d < 10
  {
    if '0' <= c <= '9' then c as int - '0' as int else 0
  }

  /** The number a string of decimal digits denotes, most significant digit first. */
  function DecimalValue(s: string): (v: nat)
    decreases |s|
  {
    if s == [] then 0 else 10 * DecimalValue(s[..|s| - 1]) + DigitValue(s[|s| - 1])
  }

  /** The number a decimal text with an optional leading '-' denotes. */
  function SignedValue(s: string): (v: int) {
    if |s| > 0 && s[0] == '-' then -(DecimalValue(s[1..]) as int) else DecimalValue(s)
  }

  /** Reading the decimal text of n back gives n. */
  lemma {:induction false} NatDigitsValue(n: nat)
    ensures DecimalValue(NatDigits(n)) == n
    decreases n
  {
    var s := NatDigits(n);
    if n >= 10 {
      assert s[..|s| - 1] == NatDigits(n / 10);
      NatDigitsValue(n / 10);
    }
  }

  /** Reading the text `${n}` back gives n, for negative n as well. */
  lemma IntToStringValue(n: int)
    ensures SignedValue(IntToString(n)) == n
  {
    var s := IntToString(n);
    if n < 0 {
      assert s == "-" + NatDigits(-n) && s[0] == '-' && s[1..] == NatDigits(-n);
      NatDigitsValue(-n);
    } else {
      NatDigitsValue(n);
    }
  }

  /** Two naturals with the same decimal text are equal. */
  lemma {:induction false} NatDigitsInjective(a: nat, b: nat)
    requires NatDigits(a) == NatDigits(b)
    ensures a == b
    decreases a
  {
    var sa, sb := NatDigits(a), NatDigits(b);
    if a < 10 && b < 10 {
      assert sa[0] == Digit(a) && sb[0] == Digit(b);
      DigitInjective(a, b);
    } else if a >= 10 && b >= 10 {
      assert sa == NatDigits(a / 10) + [Digit(a % 10)];
      assert sb == NatDigits(b / 10) + [Digit(b % 10)];
      assert sa[..|sa| - 1] == NatDigits(a / 10);
      assert sb[..|sb| - 1] == NatDigits(b / 10);
      NatDigitsInjective(a / 10, b / 10);
      assert sa[|sa| - 1] == Digit(a % 10) && sb[|sb| - 1] == Digit(b % 10);
      DigitInjective(a % 10, b % 10);
    }
  }

  lemma IntToStringInjective(a: int, b: int)
    requires IntToString(a) == IntToString(b)
    ensures a == b
  {
    if a < 0 {
      assert IntToString(a)[1..] == NatDigits(-a);
      assert IntToString(b)[1..] == NatDigits(-b);
      NatDigitsInjective(-a, -b);
    } else {
      NatDigitsInjective(a, b);
    }
  }

  /** Distinct seat numbers never share a lock key, so a lock on one seat never blocks another. */
  lemma LockKeyInjective(a: int, b: int)
    ensures LockKey(a) == LockKey(b) <==> a == b
  {
    if LockKey(a) == LockKey(b) {
      assert LockKey(a)[|LockPrefix|..] == IntToString(a);
      assert LockKey(b)[|LockPrefix|..] == IntToString(b);
      IntToStringInjective(a, b);
    }
  }
}
