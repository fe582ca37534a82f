// Decimal text: what Rust's integer parser reads and its formatter writes.
module Decimal {
  import opened Prelude
  import opened Text

  predicate AllDigits(s: string)
  {
    forall i | 0 <= i < |s| :: IsAsciiDigit(s[i])
  }

  type Digits = s: string | AllDigits(s)

  function Pow10(k: nat): (r: nat)
    ensures r >= 1
  {
    if k == 0 then 1 else 10 * Pow10(k - 1)
  }

  // The number a string of digits spells, most significant digit first.
  function Numeral(s: Digits): (n: nat)
    decreases |s|
  {
    if s == "" then 0 else 10 * Numeral(s[..|s| - 1]) + (s[|s| - 1] as int - '0' as int)
  }

  function DigitChar(d: nat): (c: char)
    requires d < 10
    ensures IsAsciiDigit(c) && c as int - '0' as int == d
  {
    ('0' as int + d) as char
  }

  // to_string on an unsigned integer.
  function ToDecimal(n: nat): (s: string)
    ensures s != "" && AllDigits(s)
    ensures Numeral(s) == n
  {
    if n < 10 then
      assert Numeral([]) == 0;
      assert [DigitChar(n)][..0] == [];
      [DigitChar(n)]
    else
      var front := ToDecimal(n / 10);
      assert (front + [DigitChar(n % 10)])[..|front|] == front;
      front + [DigitChar(n % 10)]
  }

  // str::parse for an unsigned type with the given largest value: digits, with one
  // optional leading plus sign, and no overflow.
  function ParseUnsigned(s: string, max: nat): (r: Option<nat>)
    ensures AllDigits(s) && s != "" ==> r == (if Numeral(s) <= max then Some(Numeral(s)) else None)
    ensures r.Some? ==> r.value <= max
  {
    var body := if s != "" && s[0] == '+' then s[1..] else s;
    if body == "" || !AllDigits(body) || Numeral(body) > max then None else Some(Numeral(body))
  }

  // The ten digits, by what they are worth.
  lemma NumeralOfDigit(d: nat)
    requires d < 10
    ensures AllDigits(["0123456789"[d]]) && Numeral(["0123456789"[d]]) == d
  {
    var s := ["0123456789"[d]];
    assert s[..0] == "" && "0123456789"[d] as int == '0' as int + d;
  }

  lemma {:induction false} NumeralOfConcatenation(s: Digits, t: Digits)
    ensures AllDigits(s + t)
    ensures Numeral(s + t) == Numeral(s) * Pow10(|t|) + Numeral(t)
    decreases |t|
  {
    if t == "" {
      assert s + t == s;
    } else {
      var p := t[..|t| - 1];
      NumeralOfConcatenation(s, p);
      assert (s + t)[..|s + t| - 1] == s + p;
      calc {
        Numeral(s + t);
        10 * Numeral(s + p) + (t[|t| - 1] as int - '0' as int);
        10 * (Numeral(s) * Pow10(|p|)) + Numeral(t);
        { assert 10 * (Numeral(s) * Pow10(|p|)) == Numeral(s) * (10 * Pow10(|p|)); }
        Numeral(s) * Pow10(|t|) + Numeral(t);
      }
    }
  }

  lemma {:induction false} NumeralBelowPow10(s: Digits)
    ensures Numeral(s) < Pow10(|s|)
    decreases |s|
  {
    if s == "" {
    } else {
      NumeralBelowPow10(s[..|s| - 1]);
    }
  }

  function Zeros(k: nat): (s: string)
    ensures |s| == k && AllDigits(s)
  {
    seq(k, _ => '0')
  }

  lemma {:induction false} ZerosSpellZero(k: nat)
    ensures Numeral(Zeros(k)) == 0
  {
    if k == 0 {
    } else {
      ZerosSpellZero(k - 1);
      assert Zeros(k)[..k - 1] == Zeros(k - 1);
    }
  }
}
