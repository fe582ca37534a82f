// The XRP amount, destination tag and balance checks of the desktop client
// (crates/desktop-client/src/commands.rs).
module Amounts {
  import opened Prelude
  import opened Text
  import opened Decimal

  const DROPS_PER_XRP: nat := 1_000_000

  const MAX_DECIMALS: nat := 6

  datatype AmountError =
    | AmountRequired
    | MustBePositive
    | MustBeFinite
    | NotNumeric
    | TooManyDecimals
    | TooLarge
    | MustBeGreaterThanZero

  // str::split on one character: never empty, and no part contains the character.
  function Split(s: string, c: char): (parts: seq<string>)
    ensures parts != []
    ensures c !in parts[0]
    ensures |parts| == 1 ==> s == parts[0]
    ensures |parts| == 2 ==> c !in parts[1] && s == parts[0] + [c] + parts[1]
  {
    if s == "" then [""] else
      var rest := Split(s[1..], c);
      if s[0] == c then [""] + rest else [[s[0]] + rest[0]] + rest[1..]
  }

  // format!("{fractional:0<6}")
  function PadDecimals(fractional: string): (s: string)
    requires |fractional| <= MAX_DECIMALS
    ensures |s| == MAX_DECIMALS
  {
    fractional + Zeros(MAX_DECIMALS - |fractional|)
  }

  function WholeDrops(whole: Digits): Result<nat, AmountError>
  {
    match ParseUnsigned(whole, U64_MAX)
    case None => Err(TooLarge)
    case Some(n) => if n * DROPS_PER_XRP > U64_MAX then Err(TooLarge) else Ok(n * DROPS_PER_XRP)
  }

  function FractionalDrops(fractional: Digits): Result<nat, AmountError>
    requires |fractional| <= MAX_DECIMALS
  {
    if fractional == "" then Ok(0) else
      match ParseUnsigned(PadDecimals(fractional), U64_MAX)
      case None => Err(TooLarge)
      case Some(n) => Ok(n)
  }

  function DropsOfParts(whole: Digits, fractional: Digits): Result<nat, AmountError>
    requires |fractional| <= MAX_DECIMALS
  {
    var wholeDrops :- WholeDrops(whole);
    var fractionalDrops :- FractionalDrops(fractional);
    var drops := wholeDrops + fractionalDrops;
    if drops > U64_MAX then Err(TooLarge)
    else if drops == 0 then Err(MustBeGreaterThanZero)
    else Ok(drops)
  }

  function ParseXrpAmountToDrops(amountXrp: string): Result<nat, AmountError>
  {
    var trimmed := Trim(amountXrp);
    if trimmed == "" then
      Err(AmountRequired)
    else if trimmed[0] == '-' || trimmed[0] == '+' then
      Err(MustBePositive)
    else if EqIgnoreAsciiCase(trimmed, "nan") || Contains(ToAsciiLowercase(trimmed), "inf") then
      Err(MustBeFinite)
    else
      var parts := Split(trimmed, '.');
      var whole, fractional := parts[0], if |parts| > 1 then parts[1] else "";
      if |parts| > 2 || whole == "" || !AllDigits(whole) || !AllDigits(fractional) then
        Err(NotNumeric)
      else if |fractional| > MAX_DECIMALS then
        Err(TooManyDecimals)
      else
        DropsOfParts(whole, fractional)
  }

  // What the amount field promises, without any mention of how it is read: digits,
  // optionally a point and more digits.
  predicate IsDecimal(text: string, whole: string, fractional: string)
  {
    && whole != "" && AllDigits(whole) && AllDigits(fractional)
    && (text == whole + "." + fractional || (fractional == "" && text == whole))
  }

  // drops is 10^6 times the number written as whole.fractional; the decimal point is
  // cleared by a power of ten instead of dividing.
  predicate IsMillionfold(drops: nat, whole: Digits, fractional: Digits)
  {
    AllDigits(whole + fractional)
    && drops * Pow10(|fractional|) == Numeral(whole + fractional) * 1_000_000
  }

  predicate Denotes(amountXrp: string, whole: string, fractional: string, drops: nat)
  {
    && IsDecimal(Trim(amountXrp), whole, fractional)
    && |fractional| <= 6
    && IsMillionfold(drops, whole, fractional)
    && 1 <= drops <= 0xFFFF_FFFF_FFFF_FFFF
  }

  lemma {:induction false} SplitWithoutSeparator(s: string, c: char)
    requires c !in s
    ensures Split(s, c) == [s]
  {
    if s == "" {
    } else {
      SplitWithoutSeparator(s[1..], c);
    }
  }

  lemma {:induction false} SplitAtSeparator(s: string, c: char, t: string)
    requires c !in s && c !in t
    ensures Split(s + [c] + t, c) == [s, t]
  {
    var u := s + [c] + t;
    if s == "" {
      assert u[1..] == t;
      SplitWithoutSeparator(t, c);
      assert [""] + [t] == [s, t];
    } else {
      assert u[1..] == s[1..] + [c] + t;
      SplitAtSeparator(s[1..], c, t);
      assert [s[0]] + s[1..] == s;
    }
  }

  lemma DigitsAndPointAreFinite(text: string)
    requires text != "" && forall i | 0 <= i < |text| :: IsAsciiDigit(text[i]) || text[i] == '.'
    ensures !EqIgnoreAsciiCase(text, "nan")
    ensures !Contains(ToAsciiLowercase(text), "inf")
  {
    assert ToAsciiLower(text[0]) != ToAsciiLower("nan"[0]);
    var lower := ToAsciiLowercase(text);
    forall i | 0 <= i <= |lower| ensures !OccursAt(lower, "inf", i) {
      if i + 3 <= |lower| {
        assert lower[i..i + 3][0] == lower[i] != 'i';
      }
    }
  }

  lemma Pow10Table()
    ensures Pow10(0) == 1 && Pow10(1) == 10 && Pow10(2) == 100 && Pow10(3) == 1000
    ensures Pow10(4) == 10000 && Pow10(5) == 100000 && Pow10(6) == DROPS_PER_XRP
  {
    assert Pow10(2) == 10 * Pow10(1) && Pow10(4) == 10 * Pow10(3) && Pow10(6) == 10 * Pow10(5);
  }

  // The padded fraction is the fraction scaled up to six decimals, and it stays below
  // one XRP.
  lemma FractionIsScaled(fractional: Digits)
    requires |fractional| <= MAX_DECIMALS
    ensures FractionalDrops(fractional).Ok?
    ensures FractionalDrops(fractional).value * Pow10(|fractional|) == Numeral(fractional) * DROPS_PER_XRP
    ensures FractionalDrops(fractional).value < DROPS_PER_XRP
  {
    hide Pow10, Numeral, AllDigits, FractionalDrops;
    PaddedFraction(fractional);
    ScaleUp(Numeral(fractional), |fractional|);
  }

  lemma PaddedFraction(fractional: Digits)
    requires |fractional| <= MAX_DECIMALS
    ensures FractionalDrops(fractional) == Ok(Numeral(fractional) * Pow10(MAX_DECIMALS - |fractional|))
    ensures Numeral(fractional) * Pow10(MAX_DECIMALS - |fractional|) < DROPS_PER_XRP
  {
    hide Pow10, Numeral, AllDigits, ParseUnsigned;
    Pow10Table();
    NumeralOfEmpty();
    if fractional != "" {
      var k := MAX_DECIMALS - |fractional|;
      NumeralOfConcatenation(fractional, Zeros(k));
      ZerosSpellZero(k);
      NumeralBelowPow10(PadDecimals(fractional));
    }
  }

  lemma NumeralOfEmpty()
    ensures AllDigits("") && Numeral("") == 0
  {
  }

  lemma ScaleUp(n: nat, k: nat)
    requires k <= MAX_DECIMALS
    ensures n * Pow10(MAX_DECIMALS - k) * Pow10(k) == n * DROPS_PER_XRP
  {
    Pow10Table();
  }

  // The sum the parser forms is the only number that is the millionfold.
  lemma SumIsMillionfold(whole: Digits, fractional: Digits, f: nat, drops: nat)
    requires f * Pow10(|fractional|) == Numeral(fractional) * DROPS_PER_XRP
    ensures IsMillionfold(drops, whole, fractional) <==> drops == Numeral(whole) * DROPS_PER_XRP + f
  {
    hide Pow10, Numeral, AllDigits;
    NumeralOfConcatenation(whole, fractional);
    OnlyMillionfold(Numeral(whole), Pow10(|fractional|), Numeral(fractional), f, drops);
  }

  lemma OnlyMillionfold(w: nat, p: nat, n: nat, f: nat, drops: nat)
    requires p >= 1 && f * p == n * DROPS_PER_XRP
    ensures drops * p == (w * p + n) * DROPS_PER_XRP <==> drops == w * DROPS_PER_XRP + f
  {
    var sum := w * DROPS_PER_XRP + f;
    assert sum * p == w * p * DROPS_PER_XRP + f * p;
    if drops < sum {
      assert drops * p < sum * p;
    } else if drops > sum {
      assert drops * p > sum * p;
    }
  }

  // Reading the parts of a well-shaped amount.
  lemma PartsOfDecimal(text: string, whole: string, fractional: string)
    requires IsDecimal(text, whole, fractional)
    ensures Split(text, '.') == (if text == whole then [whole] else [whole, fractional])
    ensures !EqIgnoreAsciiCase(text, "nan") && !Contains(ToAsciiLowercase(text), "inf")
    ensures IsAsciiDigit(text[0])
  {
    if fractional == "" && text == whole {
      SplitWithoutSeparator(whole, '.');
    } else {
      SplitAtSeparator(whole, '.', fractional);
    }
    DigitsAndPointAreFinite(text);
  }

  lemma PartsAddUp(whole: Digits, fractional: Digits, drops: nat)
    requires whole != "" && |fractional| <= MAX_DECIMALS
    ensures DropsOfParts(whole, fractional) == Ok(drops)
      <==> IsMillionfold(drops, whole, fractional) && 1 <= drops <= U64_MAX
  {
    hide FractionalDrops, IsMillionfold, Numeral, Pow10, AllDigits;
    FractionIsScaled(fractional);
    SumIsMillionfold(whole, fractional, FractionalDrops(fractional).value, drops);
  }

  lemma ParseOfDecimal(amountXrp: string, whole: string, fractional: string, drops: nat)
    requires IsDecimal(Trim(amountXrp), whole, fractional)
    requires |fractional| <= MAX_DECIMALS
    ensures ParseXrpAmountToDrops(amountXrp) == Ok(drops)
      <==> IsMillionfold(drops, whole, fractional) && 1 <= drops <= U64_MAX
  {
    PartsOfDecimal(Trim(amountXrp), whole, fractional);
    PartsAddUp(whole, fractional, drops);
    hide Trim, Split, EqIgnoreAsciiCase, ToAsciiLowercase, Contains, DropsOfParts, IsMillionfold;
  }

  // The amount parser succeeds exactly on decimal numbers of at most six decimals
  // whose millionfold is in 1..2^64-1, and returns that millionfold.
  lemma ParserReadsExactlyDecimals(amountXrp: string, drops: nat)
    ensures ParseXrpAmountToDrops(amountXrp) == Ok(drops)
      <==> exists whole, fractional :: Denotes(amountXrp, whole, fractional, drops)
  {
    if whole, fractional :| Denotes(amountXrp, whole, fractional, drops) {
      ParseOfDecimal(amountXrp, whole, fractional, drops);
    }
    if ParseXrpAmountToDrops(amountXrp) == Ok(drops) {
      var parts := Split(Trim(amountXrp), '.');
      var whole, fractional := parts[0], if |parts| > 1 then parts[1] else "";
      assert IsDecimal(Trim(amountXrp), whole, fractional);
      ParseOfDecimal(amountXrp, whole, fractional, drops);
      assert Denotes(amountXrp, whole, fractional, drops);
    }
  }

  // Why a well-written amount is refused: too many decimals, nothing to pay, or more
  // than 64 bits of drops.
  lemma DecimalRefusals(amountXrp: string, whole: string, fractional: string)
    requires IsDecimal(Trim(amountXrp), whole, fractional)
    ensures |fractional| > 6 ==> ParseXrpAmountToDrops(amountXrp) == Err(TooManyDecimals)
    ensures |fractional| <= 6 && IsMillionfold(0, whole, fractional) ==>
      ParseXrpAmountToDrops(amountXrp) == Err(MustBeGreaterThanZero)
    ensures |fractional| <= 6 && ParseXrpAmountToDrops(amountXrp).Err? && !IsMillionfold(0, whole, fractional) ==>
      ParseXrpAmountToDrops(amountXrp) == Err(TooLarge)
  {
    PartsOfDecimal(Trim(amountXrp), whole, fractional);
    hide Trim, Split, EqIgnoreAsciiCase, ToAsciiLowercase, Contains, DropsOfParts, IsMillionfold;
    if |fractional| <= 6 {
      PartsRefused(whole, fractional);
    }
  }

  lemma PartsRefused(whole: Digits, fractional: Digits)
    requires whole != "" && |fractional| <= 6
    ensures var r := DropsOfParts(whole, fractional);
            && (r.Err? ==> r.error in {TooLarge, MustBeGreaterThanZero})
            && (r == Err(MustBeGreaterThanZero) <==> IsMillionfold(0, whole, fractional))
  {
    hide FractionalDrops, IsMillionfold, Numeral, Pow10, AllDigits;
    FractionIsScaled(fractional);
    SumIsMillionfold(whole, fractional, FractionalDrops(fractional).value, 0);
  }

  datatype TagError = NotANonNegativeInteger | TagTooLarge

  function ParseDestinationTag(tag: Option<string>): Result<Option<U32>, TagError>
  {
    match tag
    case None => Ok(None)
    case Some(text) =>
      var trimmed := Trim(text);
      if trimmed == "" then
        Ok(None)
      else if trimmed[0] == '-' || trimmed[0] == '+' || !AllDigits(trimmed) then
        Err(NotANonNegativeInteger)
      else
        match ParseUnsigned(trimmed, U32_MAX)
        case None => Err(TagTooLarge)
        case Some(n) => Ok(Some(n))
  }

  // A tag is read exactly when it is a trimmed run of digits that fits 32 bits, and is
  // absent exactly when there is none or it is blank.
  lemma TagIsReadExactly(tag: Option<string>, n: U32)
    ensures ParseDestinationTag(tag) == Ok(Some(n)) <==>
      tag.Some? && Trim(tag.value) != "" && AllDigits(Trim(tag.value)) && Numeral(Trim(tag.value)) == n
    ensures ParseDestinationTag(tag) == Ok(None) <==> (tag.Some? ==> Trim(tag.value) == "")
  {
    hide Numeral, Trim;
  }

  datatype BalanceError = ReserveAndFeeNotCovered | InsufficientBalance

  function CheckedSub(a: nat, b: nat): Option<nat>
  {
    if a < b then None else Some(a - b)
  }

  // No addition is made, so nothing can wrap around even when the three amounts
  // together exceed 64 bits.
  function ValidateSpendableBalance(balance: nat, reserve: nat, fee: nat, amount: nat): (r: Result<Unit, BalanceError>)
    ensures r.Ok? <==> balance >= reserve + fee + amount
    ensures r == Err(ReserveAndFeeNotCovered) <==> balance < reserve + fee
  {
    match CheckedSub(balance, reserve)
    case None => Err(ReserveAndFeeNotCovered)
    case Some(afterReserve) =>
      match CheckedSub(afterReserve, fee)
      case None => Err(ReserveAndFeeNotCovered)
      case Some(spendable) => if spendable < amount then Err(InsufficientBalance) else Ok(Unit)
  }
}
