/** Decimal names of list indices: KList::IntToChars, KList::IsInt and the C function atoi. */
module Decimal {
  predicate IsDigit(c: char) { '0' <= c <= '9' }

  /** KList::IsInt: every character is a digit.  The empty name passes. */
  predicate AllDigits(name: string) {
    forall i :: 0 <= i < |name| ==> IsDigit(name[i])
  }

  /** KList::IntToChars. */
  function IntToChars(n: nat): string {
    if n < 10 then [Digit(n)] else IntToChars(n / 10) + [Digit(n % 10)]
  }

  function Digit(d: nat): char
    requires d < 10
  {
    '0' + d as char
  }

  /** The value of a digit string; "" is 0. */
  function Number(name: string): nat
    requires AllDigits(name)
  {
    if name == "" then 0
    else 10 * Number(name[..|name| - 1]) + (name[|name| - 1] as nat - '0' as nat)
  }

  /** The names that IntToChars produces: not empty, digits only, no superfluous leading zero. */
  predicate Canonical(name: string) {
    name != "" && AllDigits(name) && (name[0] == '0' ==> |name| == 1)
  }

  lemma {:induction false} NumberOfPrinted(n: nat)
    ensures Canonical(IntToChars(n)) && Number(IntToChars(n)) == n
    ensures n > 0 ==> IntToChars(n)[0] != '0'
  {
    if n >= 10 {
      NumberOfPrinted(n / 10);
      assert IntToChars(n)[..|IntToChars(n)| - 1] == IntToChars(n / 10);
    }
  }

  /** The last character of a printed index is its last decimal digit, and what stands before it is the rest, printed. */
  lemma PrintedDigits(n: nat)
    ensures n < 10 ==> |IntToChars(n)| == 1
    ensures var s := IntToChars(n); s != "" && s[|s| - 1] as int == '0' as int + n % 10
    ensures n >= 10 ==> IntToChars(n)[..|IntToChars(n)| - 1] == IntToChars(n / 10)
  {
  }

  /** One more digit makes ten times the number and the value of the digit. */
  lemma NumberOfDigits(name: string, c: char)
    requires AllDigits(name) && '0' <= c <= '9'
    ensures Number("") == 0 && AllDigits(name + [c]) && Number(name + [c]) == 10 * Number(name) + (c as int - '0' as int)
  {
    assert (name + [c])[..|name|] == name;
  }

  lemma {:induction false} PrintedOfNumber(name: string)
    requires AllDigits(name)
    ensures name != "" && name[0] != '0' ==> Number(name) > 0
    ensures Canonical(name) ==> IntToChars(Number(name)) == name
  {
    if |name| == 1 {
      assert name[..0] == "";
    } else if |name| > 1 {
      PrintedOfNumber(name[..|name| - 1]);
      assert name == name[..|name| - 1] + [name[|name| - 1]];
    }
  }

  /** Printing is injective, and its image is exactly the canonical names. */
  lemma PrintInjective(m: nat, n: nat)
    requires IntToChars(m) == IntToChars(n)
    ensures m == n
  {
    NumberOfPrinted(m);
    NumberOfPrinted(n);
  }

  lemma CanonicalIffPrinted(name: string)
    ensures Canonical(name) <==> AllDigits(name) && name == IntToChars(Number(name))
  {
    if AllDigits(name) {
      PrintedOfNumber(name);
      NumberOfPrinted(Number(name));
    }
  }
}
