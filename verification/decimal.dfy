/** Integer formatting and parsing: `Number.prototype.toString` on integers and the global
    `parseInt` with no radix argument, over unbounded integers. JavaScript numbers are
    doubles, so the two agree with the program only below 1e21 in magnitude for `toString`,
    which switches to exponent form there, and up to 2^53 for `parseInt`, which rounds
    beyond it. */
module Decimal {
  import opened Wrappers
  import opened Text

  function DigitChar(d: nat): (c: char)
    requires d < 10
    ensures IsDigit(c)
  {
    ('0' as int + d) as char
  }

  /** The value of `c` as a digit in base `radix` (10 or 16), if it is one. */
  function DigitIn(c: char, radix: nat): (r: Option<nat>)
    ensures r.Some? ==> r.value < radix
    ensures radix == 10 ==> (r.Some? <==> IsDigit(c))
  {
    if IsDigit(c) && (c as int - '0' as int) < radix then Some(c as int - '0' as int)
    else if radix == 16 && 'a' <= c <= 'f' then Some(c as int - 'a' as int + 10)
    else if radix == 16 && 'A' <= c <= 'F' then Some(c as int - 'A' as int + 10)
    else None
  }

  predicate AllIn(s: string, radix: nat) {
    forall i :: 0 <= i < |s| ==> DigitIn(s[i], radix).Some?
  }

  /** The value of a string of base-`radix` digits, most significant first. */
  function Value(s: string, radix: nat): nat
    requires AllIn(s, radix)
  {
    if |s| == 0 then 0
    else Value(s[..|s| - 1], radix) * radix + DigitIn(s[|s| - 1], radix).value
  }

  /** The longest prefix of `s` made of base-`radix` digits. */
  function DigitPrefix(s: string, radix: nat): (r: string)
    ensures |r| <= |s| && r == s[..|r|]
    ensures AllIn(r, radix)
    ensures |r| < |s| ==> DigitIn(s[|r|], radix).None?
  {
    if |s| == 0 || DigitIn(s[0], radix).None? then ""
    else [s[0]] + DigitPrefix(s[1..], radix)
  }

  /** `Number.prototype.toString()` of a non-negative integer: decimal digits, no leading zero. */
  function NatToString(n: nat): (r: string)
    ensures |r| > 0 && AllDigits(r)
    ensures r[0] == '0' ==> n == 0 && |r| == 1
    decreases n
  {
    if n < 10 then [DigitChar(n)] else NatToString(n / 10) + [DigitChar(n % 10)]
  }

  /** `Number.prototype.toString()` of an integer, in plain decimal (as JavaScript writes
      integers below 1e21 in magnitude). */
  function IntToString(i: int): (r: string)
    ensures |r| > 0
    ensures i >= 0 ==> AllDigits(r)
    ensures i < 0 ==> r[0] == '-' && AllDigits(r[1..])
  {
    if i < 0 then "-" + NatToString(-i) else NatToString(i)
  }

  /** The global `parseInt(s)`: leading white space skipped, an optional sign, a `0x`/`0X`
      prefix switching to base 16, then the longest run of digits; `None` stands for `NaN`,
      the result when that run is empty. */
  function ParseInt(s: string): Option<int>
  {
    var t := TrimStart(s);
    var z := DigitPrefix(Body(t), Radix(t));
    var v: int := Value(z, Radix(t));
    if |z| == 0 then None
    else if |t| > 0 && t[0] == '-' then Some(-v)
    else Some(v)
  }

  /** `t` with its sign, if any, removed. */
  function Unsigned(t: string): string {
    if |t| > 0 && (t[0] == '-' || t[0] == '+') then t[1..] else t
  }

  function Radix(t: string): nat {
    var u := Unsigned(t);
    if |u| >= 2 && u[0] == '0' && (u[1] == 'x' || u[1] == 'X') then 16 else 10
  }

  /** The digits part of a trimmed `parseInt` argument: sign and hexadecimal prefix removed. */
  function Body(t: string): string {
    var u := Unsigned(t);
    if Radix(t) == 16 then u[2..] else u
  }

  lemma {:induction false} ValueOfNatToString(n: nat)
    ensures AllIn(NatToString(n), 10)
    ensures Value(NatToString(n), 10) == n
    decreases n
  {
    var s := NatToString(n);
    if n >= 10 {
      ValueOfNatToString(n / 10);
      assert s[..|s| - 1] == NatToString(n / 10);
    }
  }

  lemma DigitPrefixOfDigits(s: string)
    requires AllDigits(s)
    ensures DigitPrefix(s, 10) == s
  {
    if |s| > 0 {
      DigitPrefixOfDigits(s[1..]);
    }
  }

  /** `parseInt` reads back what `toString` writes, for every unbounded integer. */
  lemma ParseIntOfIntToString(i: int)
    ensures ParseInt(IntToString(i)) == Some(i)
  {
    var n: nat := if i < 0 then -i else i;
    var s := IntToString(i);
    var d := NatToString(n);
    assert !IsSpace(s[0]);
    assert TrimStart(s) == s;
    assert Unsigned(s) == d;
    assert Radix(s) == 10 by {
      if |d| >= 2 && d[0] == '0' { }
    }
    assert Body(s) == d;
    DigitPrefixOfDigits(d);
    ValueOfNatToString(n);
  }

  /** `parseInt` of a string of decimal digits is their exact decimal value, leading zeros
      and all (JavaScript rounds it to a double beyond 2^53). */
  lemma ParseIntOfDigits(s: string)
    requires |s| > 0 && AllDigits(s)
    ensures AllIn(s, 10)
    ensures ParseInt(s) == Some(Value(s, 10))
  {
    assert !IsSpace(s[0]);
    assert TrimStart(s) == s;
    assert Unsigned(s) == s;
    assert Radix(s) == 10;
    assert Body(s) == s;
    DigitPrefixOfDigits(s);
  }
}
