/** Decimal text of integers, as `str(i)` writes it. */
module Decimal {

  type byte = b: int | 0 <= b < 256

  function Digits(n: nat): (s: string)
    ensures |s| >= 1
    ensures forall c :: c in s ==> '0' <= c <= '9'
  {
    if n < 10 then [('0' as int + n) as char]
    else Digits(n / 10) + [('0' as int + n % 10) as char]
  }

  /** `str(i)`. */
  function Show(i: int): string {
    if i < 0 then "-" + Digits(-i) else Digits(i)
  }

  /** The ASCII bytes of a text. */
  function Ascii(s: string): (b: seq<byte>)
    requires forall c :: c in s ==> c < 128 as char
    ensures |b| == |s|
    ensures forall k :: 0 <= k < |s| ==> b[k] == s[k] as int
  {
    if s == "" then [] else
    assert s[0] in s && forall c :: c in s[1..] ==> c in s;
    [s[0] as int as byte] + Ascii(s[1..])
  }

  predicate IsDigits(b: seq<byte>) {
    |b| >= 1 && forall k :: 0 <= k < |b| ==> 48 <= b[k] <= 57
  }

  /** The number a run of ASCII digits denotes. */
  function Number(b: seq<byte>): nat
    requires forall k :: 0 <= k < |b| ==> 48 <= b[k] <= 57
  {
    if b == [] then 0 else 10 * Number(b[..|b| - 1]) + (b[|b| - 1] - 48)
  }

  lemma {:induction false} NumberOfDigits(n: nat)
    ensures IsDigits(Ascii(Digits(n)))
    ensures Number(Ascii(Digits(n))) == n
  {
    var b := Ascii(Digits(n));
    if n < 10 {
      assert b[..|b| - 1] == [];
    } else {
      NumberOfDigits(n / 10);
      assert b[..|b| - 1] == Ascii(Digits(n / 10));
    }
  }

  /** Different integers have different decimal texts. */
  lemma ShowInjective(i: int, j: int)
    requires Show(i) == Show(j)
    ensures i == j
  {
    assert i < 0 ==> Show(i)[0] == '-';
    assert i >= 0 ==> Show(i)[0] in Digits(i);
    assert j >= 0 ==> Show(j)[0] in Digits(j);
    var a, b := if i < 0 then -i else i, if j < 0 then -j else j;
    assert i < 0 ==> Show(i)[1..] == Digits(a);
    assert j < 0 ==> Show(j)[1..] == Digits(b);
    NumberOfDigits(a);
    NumberOfDigits(b);
  }
}
