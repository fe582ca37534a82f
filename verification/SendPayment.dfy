// The data flow of the payment command, from the text the user typed to the
// transaction that is signed (crates/desktop-client/src/commands.rs).
module SendPayment {
  import opened Prelude
  import opened Text
  import opened Decimal
  import opened Amounts
  import opened SigningPolicy

  const RESERVE_DROPS: nat := 10_000_000

  const LEDGER_WINDOW: nat := 20

  datatype PaymentRequest = PaymentRequest(destination: string, amountXrp: string, destinationTag: Option<string>)

  // What the command reads from the XRPL node: the balance and the fee are texts.
  datatype NodeAnswers = NodeAnswers(balance: string, sequence: U32, feeDrops: string, ledgerIndex: U32)

  datatype PaymentError =
    | InvalidDestination
    | InvalidAmount(amountError: AmountError)
    | InvalidTag(tagError: TagError)
    | InvalidBalanceText
    | InvalidFeeText
    | NotSpendable(balanceError: BalanceError)

  datatype Prepared = Prepared(intent: Intent, tx: Json)

  function SaturatingAddU32(a: U32, b: nat): (r: U32)
    ensures b > 0 ==> r > 0
  {
    if a + b > U32_MAX then U32_MAX else a + b
  }

  // The intent and the unsigned transaction of a checked request.
  function PaymentOf(destination: string, drops: nat, tag: Option<U32>, account: string, node: NodeAnswers): Prepared
  {
    Prepared(
      SendXrp(destination, ToDecimal(drops), tag),
      AddXrplSigningFields(
        BuildXrpPaymentTx(account, destination, ToDecimal(drops), tag),
        node.feeDrops, node.sequence, SaturatingAddU32(node.ledgerIndex, LEDGER_WINDOW)))
  }

  function CheckBalance(node: NodeAnswers, drops: nat): Result<Unit, PaymentError>
  {
    match ParseUnsigned(node.balance, U64_MAX)
    case None => Err(InvalidBalanceText)
    case Some(balance) =>
      match ParseUnsigned(node.feeDrops, U64_MAX)
      case None => Err(InvalidFeeText)
      case Some(fee) =>
        match ValidateSpendableBalance(balance, RESERVE_DROPS, fee, drops)
        case Err(e) => Err(NotSpendable(e))
        case Ok(_) => Ok(Unit)
  }

  // isClassicAddress is the base58 checksum test.
  function PrepareXrpPayment(request: PaymentRequest, isClassicAddress: string -> bool, account: string,
                             node: NodeAnswers): Result<Prepared, PaymentError>
  {
    var destination := Trim(request.destination);
    if !isClassicAddress(destination) then Err(InvalidDestination) else
      match ParseXrpAmountToDrops(request.amountXrp)
      case Err(e) => Err(InvalidAmount(e))
      case Ok(drops) =>
        match ParseDestinationTag(request.destinationTag)
        case Err(e) => Err(InvalidTag(e))
        case Ok(tag) =>
          var _ :- CheckBalance(node, drops);
          Ok(PaymentOf(destination, drops, tag, account, node))
  }

  predicate BalanceCovers(node: NodeAnswers, drops: nat)
  {
    && ParseUnsigned(node.balance, U64_MAX).Some? && ParseUnsigned(node.feeDrops, U64_MAX).Some?
    && ParseUnsigned(node.balance, U64_MAX).value >= 10_000_000 + ParseUnsigned(node.feeDrops, U64_MAX).value + drops
  }

  lemma BalanceCheckPassesIff(node: NodeAnswers, drops: nat)
    ensures CheckBalance(node, drops).Ok? <==> BalanceCovers(node, drops)
  {
    hide ParseUnsigned;
  }

  predicate Readable(request: PaymentRequest)
  {
    ParseXrpAmountToDrops(request.amountXrp).Ok? && ParseDestinationTag(request.destinationTag).Ok?
  }

  function DropsOf(request: PaymentRequest): nat
    requires Readable(request)
  {
    ParseXrpAmountToDrops(request.amountXrp).value
  }

  function TagOf(request: PaymentRequest): Option<U32>
    requires Readable(request)
  {
    ParseDestinationTag(request.destinationTag).value
  }

  // When a payment is prepared, and what then.
  lemma PreparedIff(request: PaymentRequest, isClassicAddress: string -> bool, account: string, node: NodeAnswers)
    ensures PrepareXrpPayment(request, isClassicAddress, account, node).Ok?
      <==> isClassicAddress(Trim(request.destination)) && Readable(request) && BalanceCovers(node, DropsOf(request))
    ensures PrepareXrpPayment(request, isClassicAddress, account, node).Ok? ==>
      PrepareXrpPayment(request, isClassicAddress, account, node).value
      == PaymentOf(Trim(request.destination), DropsOf(request), TagOf(request), account, node)
  {
    hide ParseXrpAmountToDrops, ParseDestinationTag, Trim, CheckBalance, BalanceCovers, PaymentOf;
    if Readable(request) {
      BalanceCheckPassesIff(node, DropsOf(request));
    }
  }

  // Why a payment is not prepared, in the order in which the command finds out: the
  // destination, the amount, the tag, the two texts of the node, the balance.
  lemma PreparationRefusals(request: PaymentRequest, isClassicAddress: string -> bool, account: string, node: NodeAnswers)
    ensures var r := PrepareXrpPayment(request, isClassicAddress, account, node);
            var toAddress := isClassicAddress(Trim(request.destination));
            && (r == Err(InvalidDestination) <==> !toAddress)
            && (r.Err? && r.error.InvalidAmount? <==> toAddress && ParseXrpAmountToDrops(request.amountXrp).Err?)
            && (r.Err? && r.error.InvalidTag? <==>
                  && toAddress && ParseXrpAmountToDrops(request.amountXrp).Ok?
                  && ParseDestinationTag(request.destinationTag).Err?)
            && (r == Err(InvalidBalanceText) <==> toAddress && Readable(request) && ParseUnsigned(node.balance, U64_MAX).None?)
            && (r == Err(InvalidFeeText) <==>
                  && toAddress && Readable(request) && ParseUnsigned(node.balance, U64_MAX).Some?
                  && ParseUnsigned(node.feeDrops, U64_MAX).None?)
            && (r == Err(NotSpendable(ReserveAndFeeNotCovered)) <==>
                  && toAddress && Readable(request)
                  && ParseUnsigned(node.balance, U64_MAX).Some? && ParseUnsigned(node.feeDrops, U64_MAX).Some?
                  && ParseUnsigned(node.balance, U64_MAX).value < 10_000_000 + ParseUnsigned(node.feeDrops, U64_MAX).value)
  {
    hide ParseXrpAmountToDrops, ParseDestinationTag, Trim, ParseUnsigned, PaymentOf;
  }

  // Reading a printed amount back gives the amount.
  lemma DropsRoundTrip(drops: nat, f: Field)
    requires drops <= U64_MAX
    ensures ParseDrops(ToDecimal(drops), f) == Ok(drops)
    ensures ParseUnsigned(ToDecimal(drops), U64_MAX) == Some(drops)
    ensures drops >= 1 ==> SpellsBetween(ToDecimal(drops), 1, U64_MAX)
  {
    hide ParseUnsigned, AllDigits, Numeral, ToDecimal;
    assert ToDecimal(drops) != "" && AllDigits(ToDecimal(drops)) && Numeral(ToDecimal(drops)) == drops;
  }

  // The signer, reading the Amount member, finds this many drops.
  predicate AmountReadsAs(tx: Json, drops: nat)
  {
    StringField(tx, Amount).Ok? && ParseDrops(StringField(tx, Amount).value, Amount) == Ok(drops)
  }

  lemma PaymentMembers(destination: string, drops: nat, tag: Option<U32>, account: string, node: NodeAnswers)
    ensures var p := PaymentOf(destination, drops, tag, account, node);
            && p.tx == AddXrplSigningFields(Build(p.intent, account), node.feeDrops, node.sequence, SaturatingAddU32(node.ledgerIndex, LEDGER_WINDOW))
            && HasStr(p.tx, Account, account) && HasStr(p.tx, Destination, destination) && HasStr(p.tx, Amount, ToDecimal(drops))
            && HasOptionalU32(p.tx, DestinationTag, tag)
  {
    hide ToDecimal, AddXrplSigningFields, Build, HasExactly;
    var p := PaymentOf(destination, drops, tag, account, node);
    var lastLedger := SaturatingAddU32(node.ledgerIndex, LEDGER_WINDOW);
    assert p.tx == AddXrplSigningFields(Build(p.intent, account), node.feeDrops, node.sequence, lastLedger) by {
      BuildOfPayment(p.intent, account);
    }
    BuiltMatches(p.intent, p.tx, account, node.feeDrops, node.sequence, lastLedger);
  }

  lemma BuildOfPayment(intent: Intent, account: string)
    requires intent.SendXrp?
    ensures Build(intent, account) == BuildXrpPaymentTx(account, intent.destination, intent.amountDrops, intent.destinationTag)
  {
    hide BuildXrpPaymentTx;
  }

  // The amount in the transaction, read the way the signer reads it, is exactly 10^6
  // times the decimal number the user typed, and the balance covers it together with
  // the reserve and the fee.
  lemma PreparedAmountIsExact(request: PaymentRequest, isClassicAddress: string -> bool, account: string,
                              node: NodeAnswers)
    requires PrepareXrpPayment(request, isClassicAddress, account, node).Ok?
    ensures exists whole, fractional, drops: nat ::
              && Denotes(request.amountXrp, whole, fractional, drops)
              && AmountReadsAs(PrepareXrpPayment(request, isClassicAddress, account, node).value.tx, drops)
              && BalanceCovers(node, drops)
  {
    hide ParseXrpAmountToDrops, ParseDestinationTag, ToDecimal, Denotes, ParseDrops, ParseUnsigned, PrepareXrpPayment;
    hide PaymentOf, BalanceCovers, Trim;
    PreparedIff(request, isClassicAddress, account, node);
    var drops := DropsOf(request);
    PaymentMembers(Trim(request.destination), drops, TagOf(request), account, node);
    ParserReadsExactlyDecimals(request.amountXrp, drops);
    var whole, fractional :| Denotes(request.amountXrp, whole, fractional, drops);
    DenotedIsU64(request.amountXrp, whole, fractional, drops);
    DropsRoundTrip(drops, Amount);
  }

  // The signing fields of a prepared payment: the node's fee and sequence as they are,
  // and a last ledger twenty past the node's current one, or the largest there is.
  lemma PreparedSigningFields(request: PaymentRequest, isClassicAddress: string -> bool, account: string, node: NodeAnswers)
    requires PrepareXrpPayment(request, isClassicAddress, account, node).Ok?
    ensures var tx := PrepareXrpPayment(request, isClassicAddress, account, node).value.tx;
            && HasStr(tx, Fee, node.feeDrops) && HasU32(tx, Sequence, node.sequence)
            && HasU32(tx, LastLedgerSequence, if node.ledgerIndex + 20 <= 0xFFFF_FFFF then node.ledgerIndex + 20 else 0xFFFF_FFFF)
  {
    hide PrepareXrpPayment, ParseXrpAmountToDrops, ParseDestinationTag, Trim, BalanceCovers, ToDecimal, AddXrplSigningFields;
    PreparedIff(request, isClassicAddress, account, node);
    AddedSigningFields(
      BuildXrpPaymentTx(account, Trim(request.destination), ToDecimal(DropsOf(request)), TagOf(request)),
      node.feeDrops, node.sequence, SaturatingAddU32(node.ledgerIndex, LEDGER_WINDOW));
    hide BuildXrpPaymentTx, HasStr, HasU32;
  }

  // The payment goes from this wallet to the trimmed destination, which passed the
  // address test, with the tag the user typed or none.
  lemma PreparedPaysTheRequest(request: PaymentRequest, isClassicAddress: string -> bool, account: string, node: NodeAnswers)
    requires PrepareXrpPayment(request, isClassicAddress, account, node).Ok?
    ensures var tx := PrepareXrpPayment(request, isClassicAddress, account, node).value.tx;
            && Readable(request) && isClassicAddress(Trim(request.destination))
            && HasStr(tx, Account, account) && HasStr(tx, Destination, Trim(request.destination))
            && HasOptionalU32(tx, DestinationTag, TagOf(request))
  {
    hide PrepareXrpPayment, ParseXrpAmountToDrops, ParseDestinationTag, Trim, Get, PaymentOf, BalanceCovers, ToDecimal;
    PreparedIff(request, isClassicAddress, account, node);
    PaymentMembers(Trim(request.destination), DropsOf(request), TagOf(request), account, node);
  }

  lemma DenotedIsU64(amountXrp: string, whole: string, fractional: string, drops: nat)
    requires Denotes(amountXrp, whole, fractional, drops)
    ensures 1 <= drops <= U64_MAX
  {
  }

  lemma PreparedInPolicy(request: PaymentRequest, isClassicAddress: string -> bool, account: string, node: NodeAnswers)
    requires PrepareXrpPayment(request, isClassicAddress, account, node).Ok?
    ensures IntentInPolicy(PrepareXrpPayment(request, isClassicAddress, account, node).value.intent)
  {
    hide PrepareXrpPayment, ParseXrpAmountToDrops, ParseDestinationTag, Trim, BalanceCovers, ToDecimal, SpellsBetween, Denotes;
    PreparedIff(request, isClassicAddress, account, node);
    var drops := DropsOf(request);
    ParserReadsExactlyDecimals(request.amountXrp, drops);
    var whole, fractional :| Denotes(request.amountXrp, whole, fractional, drops);
    DenotedIsU64(request.amountXrp, whole, fractional, drops);
    DropsRoundTrip(drops, Amount);
  }

  lemma PreparedIsBuilt(request: PaymentRequest, isClassicAddress: string -> bool, account: string, node: NodeAnswers)
    returns (lastLedger: U32)
    requires PrepareXrpPayment(request, isClassicAddress, account, node).Ok?
    ensures var p := PrepareXrpPayment(request, isClassicAddress, account, node).value;
            p.tx == AddXrplSigningFields(Build(p.intent, account), node.feeDrops, node.sequence, lastLedger)
    ensures lastLedger != 0
  {
    hide PrepareXrpPayment, ParseXrpAmountToDrops, ParseDestinationTag, Trim, BalanceCovers, PaymentOf, AddXrplSigningFields, Build;
    PreparedIff(request, isClassicAddress, account, node);
    PaymentMembers(Trim(request.destination), DropsOf(request), TagOf(request), account, node);
    lastLedger := SaturatingAddU32(node.ledgerIndex, LEDGER_WINDOW);
  }

  // A prepared payment is refused by the signing policy only for the two values the
  // node supplied and the command did not check: a fee text outside 1..100000 drops
  // (or one with a plus sign, which the command's own parser takes) and a sequence of
  // zero.
  lemma PreparedIsSignableIff(request: PaymentRequest, isClassicAddress: string -> bool, account: string,
                              node: NodeAnswers)
    requires PrepareXrpPayment(request, isClassicAddress, account, node).Ok?
    ensures var p := PrepareXrpPayment(request, isClassicAddress, account, node).value;
            ValidateForIntent(p.intent, p.tx, account).Ok?
            <==> SpellsBetween(node.feeDrops, 1, MAX_SIGNING_FEE_DROPS) && node.sequence != 0
  {
    hide PrepareXrpPayment, ValidateForIntent, AddXrplSigningFields, Build, SpellsBetween, IntentInPolicy;
    var lastLedger := PreparedIsBuilt(request, isClassicAddress, account, node);
    PreparedInPolicy(request, isClassicAddress, account, node);
    var p := PrepareXrpPayment(request, isClassicAddress, account, node).value;
    ValidatorAcceptsExactlyBuilderImage(p.intent, p.tx, account);
    if fee, sequence: U32, last: U32 :| IsImage(p.intent, p.tx, account, fee, sequence, last) {
      AddedSigningFields(Build(p.intent, account), node.feeDrops, node.sequence, lastLedger);
      AddedSigningFields(Build(p.intent, account), fee, sequence, last);
      assert fee == node.feeDrops && sequence == node.sequence;
    }
    if SpellsBetween(node.feeDrops, 1, MAX_SIGNING_FEE_DROPS) && node.sequence != 0 {
      assert IsImage(p.intent, p.tx, account, node.feeDrops, node.sequence, lastLedger);
    }
  }

  // A payment of one XRP from a wallet that holds twenty.
  function OneXrpTo(destination: string): PaymentRequest
  {
    PaymentRequest(destination, "1", None)
  }

  function TwentyXrp(fee: string, sequence: U32): NodeAnswers
  {
    NodeAnswers(ToDecimal(20_000_000), sequence, fee, 100)
  }

  lemma TwentyCoversOne(fee: string, sequence: U32)
    requires fee == "12" || fee == "+12"
    ensures BalanceCovers(TwentyXrp(fee, sequence), 1_000_000)
  {
    hide ToDecimal, ParseUnsigned, SpellsBetween, ParseDrops;
    FeeTwelve();
    DropsRoundTrip(20_000_000, Amount);
  }

  lemma OneXrpIsPrepared(isClassicAddress: string -> bool, account: string, destination: string, fee: string, sequence: U32)
    requires isClassicAddress(Trim(destination)) && (fee == "12" || fee == "+12")
    ensures PrepareXrpPayment(OneXrpTo(destination), isClassicAddress, account, TwentyXrp(fee, sequence)).Ok?
  {
    hide PrepareXrpPayment, PaymentOf, Trim, BalanceCovers, TwentyXrp, ParseXrpAmountToDrops;
    OneXrp();
    TwentyCoversOne(fee, sequence);
    PreparedIff(OneXrpTo(destination), isClassicAddress, account, TwentyXrp(fee, sequence));
  }

  // It is prepared whatever the sequence, and then refused when the node's fee text has
  // a plus sign, or when the sequence is zero.
  lemma PreparedThenRefused(isClassicAddress: string -> bool, account: string, destination: string, fee: string, sequence: U32)
    requires isClassicAddress(Trim(destination))
    requires fee == "+12" || (fee == "12" && sequence == 0)
    ensures var r := PrepareXrpPayment(OneXrpTo(destination), isClassicAddress, account, TwentyXrp(fee, sequence));
            r.Ok? && ValidateForIntent(r.value.intent, r.value.tx, account).Err?
  {
    hide ToDecimal, ParseUnsigned, PrepareXrpPayment, ValidateForIntent, SpellsBetween, Trim;
    OneXrpIsPrepared(isClassicAddress, account, destination, fee, sequence);
    FeeTwelve();
    PreparedIsSignableIff(OneXrpTo(destination), isClassicAddress, account, TwentyXrp(fee, sequence));
  }

  lemma OneXrp()
    ensures ParseXrpAmountToDrops("1") == Ok(1_000_000)
  {
    hide ParseXrpAmountToDrops;
    assert Trim("1") == "1";
    assert "1" + "" == "1" && "1"[..0] == "";
    assert Denotes("1", "1", "", 1_000_000);
    ParserReadsExactlyDecimals("1", 1_000_000);
  }

  lemma FeeTwelve()
    ensures ParseUnsigned("12", U64_MAX) == Some(12) == ParseUnsigned("+12", U64_MAX)
    ensures !SpellsBetween("+12", 1, MAX_SIGNING_FEE_DROPS)
  {
    assert "12"[..1] == "1" && "1"[..0] == "" && "+12"[1..] == "12";
    assert Numeral("1") == 1 && Numeral("12") == 12;
    assert !IsAsciiDigit("+12"[0]);
  }
}
