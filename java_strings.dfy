/**
 * The two pieces of Java's string library the ledger's renderings use:
 * decimal formatting of integers (`%d`) and `String.trim`.
 */
module JavaStrings {

  function DigitChar(d: nat): (c: char)
    requires d < 10
    ensures '0' <= c <= '9'
  {
    ('0' as int + d) as char
  }

  predicate IsDigits(s: string)
  {
    forall i :: 0 <= i < |s| ==> '0' <= s[i] <= '9'
  }

  /** The decimal digits of n, most significant first, without leading zeros. */
  function NatDecimal(n: nat): (s: string)
    ensures |s| >= 1 && IsDigits(s)
    ensures s[0] == '0' <==> n == 0
    ensures n == 0 ==> s == "0"
  {
    if n < 10 then [DigitChar(n)] else NatDecimal(n / 10) + [DigitChar(n % 10)]
  }

  /** What `%d` prints for an integer: a minus sign before a negative value. */
  function Decimal(x: int): (s: string)
    ensures |s| >= 1
    ensures x < 0 <==> s[0] == '-'
    ensures if x < 0 then IsDigits(s[1..]) else IsDigits(s)
    ensures var digits := if x < 0 then s[1..] else s; |digits| >= 1 && (digits[0] == '0' ==> digits == "0")
  {
    if x < 0 then "-" + NatDecimal(-x) else NatDecimal(x)
  }

  /** The value of a string of decimal digits (the reading direction of `Long.parseLong`). */
  function ParseDigits(s: string): nat
    requires IsDigits(s)
  {
    if s == [] then 0 else ParseDigits(s[..|s| - 1]) * 10 + (s[|s| - 1] as int - '0' as int)
  }

  function ParseDecimal(s: string): int
    requires |s| >= 1
    requires if s[0] == '-' then IsDigits(s[1..]) else IsDigits(s)
  {
    if s[0] == '-' then -(ParseDigits(s[1..]) as int) else ParseDigits(s)
  }

  lemma {:induction false} NatDecimalRoundTrip(n: nat)
    ensures ParseDigits(NatDecimal(n)) == n
  {
    if n >= 10 {
      var s := NatDecimal(n);
      assert s[..|s| - 1] == NatDecimal(n / 10);
      NatDecimalRoundTrip(n / 10);
    }
  }

  /** Decimal rendering loses nothing: parsing it back yields the integer. */
  lemma DecimalRoundTrip(x: int)
    ensures ParseDecimal(Decimal(x)) == x
  {
    if x < 0 {
      assert Decimal(x)[1..] == NatDecimal(-x);
      NatDecimalRoundTrip(-x);
    } else {
      NatDecimalRoundTrip(x);
    }
  }

  /** `String.trim` drops every character up to and including U+0020 at either end. */
  predicate Trimmable(c: char)
  {
    c <= ' '
  }

  function TrimStart(s: string): (r: string)
    ensures |r| <= |s| && r == s[|s| - |r|..]
    ensures |r| > 0 ==> !Trimmable(r[0])
    ensures forall i :: 0 <= i < |s| - |r| ==> Trimmable(s[i])
  {
    if |s| > 0 && Trimmable(s[0]) then TrimStart(s[1..]) else s
  }

  function TrimEnd(s: string): (r: string)
    ensures |r| <= |s| && r == s[..|r|]
    ensures |r| > 0 ==> !Trimmable(r[|r| - 1])
    ensures forall i :: |r| <= i < |s| ==> Trimmable(s[i])
  {
    if |s| > 0 && Trimmable(s[|s| - 1]) then TrimEnd(s[..|s| - 1]) else s
  }

  /** Java's `String.trim`. */
  function Trim(s: string): (r: string)
    ensures |r| <= |s|
    ensures |r| > 0 ==> !Trimmable(r[0]) && !Trimmable(r[|r| - 1])
    ensures (forall i :: 0 <= i < |s| ==> !Trimmable(s[i])) ==> r == s
  {
    TrimEnd(TrimStart(s))
  }

  /** Trimming a line that starts and ends with a visible character removes exactly the newline after it. */
  lemma TrimFinalNewline(s: string)
    requires |s| > 0 && !Trimmable(s[0]) && !Trimmable(s[|s| - 1])
    ensures Trim(s + "\n") == s
  {
    var t := s + "\n";
    assert TrimStart(t) == t;
    assert t[..|s|] == s;
    assert TrimEnd(t) == TrimEnd(s);
  }
}
