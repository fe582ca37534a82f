// Building, checking and signing the XRPL transactions of the wallet
// (crates/crypto-core/src/xrpl_wallet.rs).
module SigningPolicy {
  import opened Prelude
  import opened Decimal

  // ---------------------------------------------------------------- JSON values

  // Member names. The wallet builds the first group, forbids the second, and
  // Other stands for every name it does not mention. Hash is the member "hash".
  datatype Field =
    | TransactionType | Account | URI | NFTokenTaxon | Flags | TransferFee | Destination
    | Amount | DestinationTag | NFTokenID | NFTokenSellOffer
    | Fee | Sequence | LastLedgerSequence
    | SigningPubKey | TxnSignature | Hash | Memos | Memo | HookParameters | Delegate
    | Signers | SignerEntries | SignerQuorum | TicketSequence | SourceTag | AccountTxnID
    | NetworkID | Paths | SendMax | DeliverMin | DeliverMax | CredentialIDs | Authorize
    | Unauthorize | RegularKey | Domain | SetFlag | ClearFlag
    | Other(name: string)

  // Only a non-negative integer of at most 64 bits answers as_u64; negative and
  // fractional numbers are kept by their text.
  datatype Json =
    | Null
    | Bool(b: bool)
    | Unsigned(n: U64)
    | OtherNumber(text: string)
    | Str(s: string)
    | Arr(items: seq<Json>)
    | Obj(fields: map<Field, Json>)

  function Get(tx: Json, f: Field): Option<Json>
  {
    if tx.Obj? && f in tx.fields then Some(tx.fields[f]) else None
  }

  // ------------------------------------------------------------------- builders

  const TF_TRANSFERABLE: U32 := 8

  const TF_NFTOKEN_SELL_OFFER: U32 := 1

  const MAX_SIGNING_FEE_DROPS: nat := 100_000

  const MAX_TRANSFER_FEE_BPS: nat := 50_000

  function HexDigit(d: nat): (c: char)
    requires d < 16
  {
    if d < 10 then ('0' as int + d) as char else ('A' as int + d - 10) as char
  }

  // hex::encode_upper
  function HexUpper(bytes: seq<byte>): (s: string)
    ensures |s| == 2 * |bytes|
  {
    if bytes == [] then "" else
      [HexDigit(bytes[0] as nat / 16), HexDigit(bytes[0] as nat % 16)] + HexUpper(bytes[1..])
  }

  function BuildNftokenMintTx(account: string, metadataUri: seq<byte>, taxon: U32, flags: Option<U32>,
                              transferFee: Option<U16>): (tx: Json)
    ensures tx.Obj?
  {
    var fields := map[
      TransactionType := Str("NFTokenMint"),
      Account := Str(account),
      URI := Str(HexUpper(metadataUri)),
      NFTokenTaxon := Unsigned(taxon),
      Flags := Unsigned(if flags.Some? then flags.value else TF_TRANSFERABLE)
    ];
    Obj(if transferFee.Some? then fields[TransferFee := Unsigned(transferFee.value)] else fields)
  }

  function BuildXrpPaymentTx(account: string, destination: string, amountDrops: string,
                             destinationTag: Option<U32>): (tx: Json)
    ensures tx.Obj?
  {
    var fields := map[
      TransactionType := Str("Payment"),
      Account := Str(account),
      Destination := Str(destination),
      Amount := Str(amountDrops)
    ];
    Obj(if destinationTag.Some? then fields[DestinationTag := Unsigned(destinationTag.value)] else fields)
  }

  function BuildNftokenCreateOfferTx(account: string, nftokenId: string, destination: string,
                                     amountDrops: string): (tx: Json)
    ensures tx.Obj?
  {
    Obj(map[
      TransactionType := Str("NFTokenCreateOffer"),
      Account := Str(account),
      NFTokenID := Str(nftokenId),
      Amount := Str(amountDrops),
      Flags := Unsigned(TF_NFTOKEN_SELL_OFFER),
      Destination := Str(destination)
    ])
  }

  function BuildNftokenAcceptOfferTx(account: string, nftokenSellOffer: string): (tx: Json)
    ensures tx.Obj?
  {
    Obj(map[
      TransactionType := Str("NFTokenAcceptOffer"),
      Account := Str(account),
      NFTokenSellOffer := Str(nftokenSellOffer)
    ])
  }

  function BuildNftokenBurnTx(account: string, nftokenId: string): (tx: Json)
    ensures tx.Obj?
  {
    Obj(map[
      TransactionType := Str("NFTokenBurn"),
      Account := Str(account),
      NFTokenID := Str(nftokenId)
    ])
  }

  // Assigning a member of a JSON value panics unless the value is an object.
  function AddXrplSigningFields(tx: Json, feeDrops: string, sequence: U32, lastLedgerSequence: U32): (r: Json)
    requires tx.Obj?
    ensures r.Obj?
  {
    Obj(tx.fields[Fee := Str(feeDrops)][Sequence := Unsigned(sequence)][LastLedgerSequence := Unsigned(lastLedgerSequence)])
  }

  // ------------------------------------------------------------------ validator

  datatype Intent =
    | SendXrp(destination: string, amountDrops: string, destinationTag: Option<U32>)
    | MintVaultNft(metadataUri: seq<byte>, nftokenTaxon: U32, flags: U32, transferFee: Option<U16>)
    | CreateNftTransferOffer(nftokenId: string, recipient: string)
    | AcceptNftTransferOffer(offerIndex: string)
    | BurnVaultNft(burnedId: string)

  datatype PolicyError =
    | NotAnObject
    | ForbiddenField
    | UnexpectedField
    | MissingField
    | MissingOrInvalid(field: Field)
    | ExceedsU32(field: Field)
    | NotDrops(field: Field)
    | DropsOutsideRange(field: Field)
    | FeeExceedsPolicy
    | SequenceNotPopulated
    | LastLedgerSequenceRequired
    | AmountMustBePositive
    | FlagsNotAllowlisted
    | DoesNotMatchIntent(field: Field)
    | UnsupportedTransactionType

  type Check = Result<Unit, PolicyError>

  function Require(condition: bool, error: PolicyError): Check
  {
    if condition then Ok(Unit) else Err(error)
  }

  function StringField(tx: Json, f: Field): Result<string, PolicyError>
  {
    match Get(tx, f)
    case Some(Str(s)) => Ok(s)
    case _ => Err(MissingOrInvalid(f))
  }

  function U32Field(tx: Json, f: Field): Result<U32, PolicyError>
  {
    match Get(tx, f)
    case Some(Unsigned(n)) => if n > U32_MAX then Err(ExceedsU32(f)) else Ok(n)
    case _ => Err(MissingOrInvalid(f))
  }

  function ParseDrops(value: string, f: Field): Result<nat, PolicyError>
  {
    if value == "" || !AllDigits(value) then Err(NotDrops(f)) else
      match ParseUnsigned(value, U64_MAX)
      case None => Err(DropsOutsideRange(f))
      case Some(n) => Ok(n)
  }

  function RequireStringEquals(tx: Json, f: Field, expected: string): Check
  {
    var actual :- StringField(tx, f);
    Require(actual == expected, DoesNotMatchIntent(f))
  }

  function RequireU32Equals(tx: Json, f: Field, expected: U32): Check
  {
    var actual :- U32Field(tx, f);
    Require(actual == expected, DoesNotMatchIntent(f))
  }

  const OPTIONAL: set<Field> := {DestinationTag, TransferFee, SigningPubKey, TxnSignature, Hash}

  function RequireExactFields(tx: Json, allowed: set<Field>): Check
  {
    if !tx.Obj? then Err(NotAnObject)
    else if !(tx.fields.Keys <= allowed) then Err(UnexpectedField)
    else Require(allowed - OPTIONAL <= tx.fields.Keys, MissingField)
  }

  const FORBIDDEN: set<Field> := {
    SigningPubKey, TxnSignature, Hash, Memos, Memo, HookParameters, Delegate, Signers,
    SignerEntries, SignerQuorum, TicketSequence, SourceTag, AccountTxnID, NetworkID, Paths,
    SendMax, DeliverMin, DeliverMax, CredentialIDs, Authorize, Unauthorize, RegularKey, Domain,
    SetFlag, ClearFlag
  }

  function RejectForbiddenFields(tx: Json): Check
  {
    if !tx.Obj? then Err(NotAnObject)
    else Require(tx.fields.Keys !! FORBIDDEN, ForbiddenField)
  }

  function ValidateCommonSigningFields(tx: Json, wallet: string): (r: Check)
    ensures r.Ok? ==> tx.Obj?
  {
    var _ :- RejectForbiddenFields(tx);
    var _ :- RequireStringEquals(tx, Account, wallet);
    var feeText :- StringField(tx, Fee);
    var fee :- ParseDrops(feeText, Fee);
    var _ :- Require(0 < fee <= MAX_SIGNING_FEE_DROPS, FeeExceedsPolicy);
    var sequence :- U32Field(tx, Sequence);
    var _ :- Require(sequence != 0, SequenceNotPopulated);
    var lastLedger :- U32Field(tx, LastLedgerSequence);
    Require(lastLedger != 0, LastLedgerSequenceRequired)
  }

  const COMMON: set<Field> := {TransactionType, Account, Fee, Sequence, LastLedgerSequence}

  // Both a tag and its absence have to match the intent.
  function RequireOptionalU32(tx: Json, f: Field, expected: Option<U32>, max: nat): Check
  {
    match (expected, Get(tx, f))
    case (Some(e), Some(_)) =>
      var actual :- U32Field(tx, f);
      Require(actual == e && actual <= max, DoesNotMatchIntent(f))
    case (None, None) => Ok(Unit)
    case _ => Err(DoesNotMatchIntent(f))
  }

  function ValidateXrpPaymentPolicy(tx: Json, destination: string, amountDrops: string, tag: Option<U32>): Check
  {
    var _ :- RequireExactFields(tx, COMMON + {Destination, Amount, DestinationTag});
    var _ :- RequireStringEquals(tx, TransactionType, "Payment");
    var _ :- RequireStringEquals(tx, Destination, destination);
    var _ :- RequireStringEquals(tx, Amount, amountDrops);
    var drops :- ParseDrops(amountDrops, Amount);
    var _ :- Require(drops != 0, AmountMustBePositive);
    RequireOptionalU32(tx, DestinationTag, tag, U32_MAX)
  }

  function ValidateNftokenMintPolicy(tx: Json, metadataUri: seq<byte>, taxon: U32, flags: U32,
                                     transferFee: Option<U16>): Check
  {
    var _ :- RequireExactFields(tx, COMMON + {URI, NFTokenTaxon, Flags, TransferFee});
    var _ :- RequireStringEquals(tx, TransactionType, "NFTokenMint");
    var _ :- RequireStringEquals(tx, URI, HexUpper(metadataUri));
    var _ :- RequireU32Equals(tx, NFTokenTaxon, taxon);
    var _ :- RequireU32Equals(tx, Flags, flags);
    var _ :- Require(flags == TF_TRANSFERABLE, FlagsNotAllowlisted);
    RequireOptionalU32(tx, TransferFee, transferFee, MAX_TRANSFER_FEE_BPS)
  }

  function ValidateNftokenCreateOfferPolicy(tx: Json, nftokenId: string, destination: string): Check
  {
    var _ :- RequireExactFields(tx, COMMON + {NFTokenID, Amount, Flags, Destination});
    var _ :- RequireStringEquals(tx, TransactionType, "NFTokenCreateOffer");
    var _ :- RequireStringEquals(tx, NFTokenID, nftokenId);
    var _ :- RequireStringEquals(tx, Amount, "0");
    var _ :- RequireU32Equals(tx, Flags, TF_NFTOKEN_SELL_OFFER);
    RequireStringEquals(tx, Destination, destination)
  }

  function ValidateNftokenAcceptOfferPolicy(tx: Json, offerIndex: string): Check
  {
    var _ :- RequireExactFields(tx, COMMON + {NFTokenSellOffer});
    var _ :- RequireStringEquals(tx, TransactionType, "NFTokenAcceptOffer");
    RequireStringEquals(tx, NFTokenSellOffer, offerIndex)
  }

  function ValidateNftokenBurnPolicy(tx: Json, nftokenId: string): Check
  {
    var _ :- RequireExactFields(tx, COMMON + {NFTokenID});
    var _ :- RequireStringEquals(tx, TransactionType, "NFTokenBurn");
    RequireStringEquals(tx, NFTokenID, nftokenId)
  }

  function ValidateForIntent(intent: Intent, tx: Json, wallet: string): (r: Check)
    ensures r.Ok? ==> tx.Obj?
  {
    var _ :- ValidateCommonSigningFields(tx, wallet);
    match intent
    case SendXrp(destination, amountDrops, tag) => ValidateXrpPaymentPolicy(tx, destination, amountDrops, tag)
    case MintVaultNft(uri, taxon, flags, fee) => ValidateNftokenMintPolicy(tx, uri, taxon, flags, fee)
    case CreateNftTransferOffer(id, recipient) => ValidateNftokenCreateOfferPolicy(tx, id, recipient)
    case AcceptNftTransferOffer(offerIndex) => ValidateNftokenAcceptOfferPolicy(tx, offerIndex)
    case BurnVaultNft(id) => ValidateNftokenBurnPolicy(tx, id)
  }

  // -------------------------------------------------------- the builder's image

  // The transaction the wallet builds for an intent, before the signing fields.
  function Build(intent: Intent, wallet: string): (tx: Json)
    ensures tx.Obj?
  {
    match intent
    case SendXrp(destination, amountDrops, tag) => BuildXrpPaymentTx(wallet, destination, amountDrops, tag)
    case MintVaultNft(uri, taxon, flags, fee) => BuildNftokenMintTx(wallet, uri, taxon, Some(flags), fee)
    case CreateNftTransferOffer(id, recipient) => BuildNftokenCreateOfferTx(wallet, id, recipient, "0")
    case AcceptNftTransferOffer(offerIndex) => BuildNftokenAcceptOfferTx(wallet, offerIndex)
    case BurnVaultNft(id) => BuildNftokenBurnTx(wallet, id)
  }

  // A string of digits that spells a number in lo..hi, leading zeros allowed.
  predicate SpellsBetween(s: string, lo: nat, hi: nat)
  {
    s != "" && AllDigits(s) && lo <= Numeral(s) <= hi
  }

  predicate IntentInPolicy(intent: Intent)
  {
    match intent
    case SendXrp(_, amountDrops, _) => SpellsBetween(amountDrops, 1, 0xFFFF_FFFF_FFFF_FFFF)
    case MintVaultNft(_, _, flags, fee) => flags == 8 && (fee.Some? ==> fee.value <= 50_000)
    case _ => true
  }

  // tx is what the builder gives for this intent and wallet, plus signing fields
  // within policy.
  predicate IsImage(intent: Intent, tx: Json, wallet: string, fee: string, sequence: U32, lastLedger: U32)
  {
    && IntentInPolicy(intent)
    && SpellsBetween(fee, 1, 100_000)
    && sequence != 0 && lastLedger != 0
    && tx == AddXrplSigningFields(Build(intent, wallet), fee, sequence, lastLedger)
  }

  // ------------------------------------------------- what each check accepts

  predicate HasStr(tx: Json, f: Field, s: string)
  {
    Get(tx, f) == Some(Str(s))
  }

  predicate HasU32(tx: Json, f: Field, n: U32)
  {
    Get(tx, f) == Some(Unsigned(n))
  }

  predicate HasOptionalU32(tx: Json, f: Field, n: Option<U32>)
  {
    if n.Some? then HasU32(tx, f, n.value) else Get(tx, f) == None
  }

  // tx has these members and no others, apart from the optional one.
  predicate HasExactly(tx: Json, fields: set<Field>, optional: set<Field>)
  {
    tx.Obj? && fields <= tx.fields.Keys <= fields + optional
  }

  predicate HasSigningFields(tx: Json, wallet: string, fee: string, sequence: U32, lastLedger: U32)
  {
    && HasStr(tx, Account, wallet) && HasStr(tx, Fee, fee)
    && HasU32(tx, Sequence, sequence) && HasU32(tx, LastLedgerSequence, lastLedger)
  }

  lemma DropsAreSpelled(value: string, f: Field)
    ensures ParseDrops(value, f).Ok? <==> SpellsBetween(value, 0, U64_MAX)
    ensures ParseDrops(value, f).Ok? ==> ParseDrops(value, f).value == Numeral(value)
  {
  }

  lemma CommonAccepts(tx: Json, wallet: string)
    requires tx.Obj? && tx.fields.Keys !! FORBIDDEN
    ensures ValidateCommonSigningFields(tx, wallet).Ok? <==>
      exists fee, sequence: U32, lastLedger: U32 ::
        && HasSigningFields(tx, wallet, fee, sequence, lastLedger)
        && SpellsBetween(fee, 1, MAX_SIGNING_FEE_DROPS) && sequence != 0 && lastLedger != 0
  {
    hide FORBIDDEN, AllDigits, Numeral;
    if StringField(tx, Fee).Ok? {
      DropsAreSpelled(StringField(tx, Fee).value, Fee);
    }
    if ValidateCommonSigningFields(tx, wallet).Ok? {
      var fee, sequence, lastLedger := StringField(tx, Fee).value, U32Field(tx, Sequence).value, U32Field(tx, LastLedgerSequence).value;
      assert HasSigningFields(tx, wallet, fee, sequence, lastLedger);
    }
  }

  // The names every transaction of an intent has, and the ones it may have.
  function FieldsOf(intent: Intent): set<Field>
  {
    match intent
    case SendXrp(_, _, _) => COMMON + {Destination, Amount}
    case MintVaultNft(_, _, _, _) => COMMON + {URI, NFTokenTaxon, Flags}
    case CreateNftTransferOffer(_, _) => COMMON + {NFTokenID, Amount, Flags, Destination}
    case AcceptNftTransferOffer(_) => COMMON + {NFTokenSellOffer}
    case BurnVaultNft(_) => COMMON + {NFTokenID}
  }

  function OptionalOf(intent: Intent): set<Field>
  {
    match intent
    case SendXrp(_, _, _) => {DestinationTag}
    case MintVaultNft(_, _, _, _) => {TransferFee}
    case _ => {}
  }

  // The values the policy of each intent demands, common members aside.
  predicate MembersMatch(intent: Intent, tx: Json)
  {
    match intent
    case SendXrp(destination, amountDrops, tag) =>
      && HasStr(tx, TransactionType, "Payment")
      && HasStr(tx, Destination, destination) && HasStr(tx, Amount, amountDrops)
      && HasOptionalU32(tx, DestinationTag, tag)
    case MintVaultNft(uri, taxon, flags, fee) =>
      && HasStr(tx, TransactionType, "NFTokenMint")
      && HasStr(tx, URI, HexUpper(uri)) && HasU32(tx, NFTokenTaxon, taxon) && HasU32(tx, Flags, flags)
      && HasOptionalU32(tx, TransferFee, fee)
    case CreateNftTransferOffer(id, recipient) =>
      && HasStr(tx, TransactionType, "NFTokenCreateOffer")
      && HasStr(tx, NFTokenID, id) && HasStr(tx, Amount, "0")
      && HasU32(tx, Flags, 1) && HasStr(tx, Destination, recipient)
    case AcceptNftTransferOffer(offerIndex) =>
      HasStr(tx, TransactionType, "NFTokenAcceptOffer") && HasStr(tx, NFTokenSellOffer, offerIndex)
    case BurnVaultNft(id) =>
      HasStr(tx, TransactionType, "NFTokenBurn") && HasStr(tx, NFTokenID, id)
  }

  predicate MatchesIntent(intent: Intent, tx: Json)
  {
    HasExactly(tx, FieldsOf(intent), OptionalOf(intent)) && MembersMatch(intent, tx)
  }

  lemma ExactFieldsAccepts(tx: Json, fields: set<Field>, optional: set<Field>)
    requires optional <= OPTIONAL && fields !! OPTIONAL
    ensures RequireExactFields(tx, fields + optional).Ok? <==> HasExactly(tx, fields, optional)
  {
    assert fields + optional - OPTIONAL == fields;
  }

  lemma PaymentAccepts(intent: Intent, tx: Json)
    requires intent.SendXrp?
    ensures ValidateXrpPaymentPolicy(tx, intent.destination, intent.amountDrops, intent.destinationTag).Ok?
      <==> IntentInPolicy(intent) && MatchesIntent(intent, tx)
  {
    hide AllDigits, Numeral, HasExactly, RequireExactFields;
    var fields, optional := FieldsOf(intent), OptionalOf(intent);
    assert fields + optional == COMMON + {Destination, Amount, DestinationTag};
    ExactFieldsAccepts(tx, fields, optional);
    DropsAreSpelled(intent.amountDrops, Amount);
  }

  lemma MintAccepts(intent: Intent, tx: Json)
    requires intent.MintVaultNft?
    ensures ValidateNftokenMintPolicy(tx, intent.metadataUri, intent.nftokenTaxon, intent.flags, intent.transferFee).Ok?
      <==> IntentInPolicy(intent) && MatchesIntent(intent, tx)
  {
    hide HexUpper, HasExactly, RequireExactFields;
    var fields, optional := FieldsOf(intent), OptionalOf(intent);
    assert fields + optional == COMMON + {URI, NFTokenTaxon, Flags, TransferFee};
    ExactFieldsAccepts(tx, fields, optional);
  }

  lemma CreateOfferAccepts(intent: Intent, tx: Json)
    requires intent.CreateNftTransferOffer?
    ensures ValidateNftokenCreateOfferPolicy(tx, intent.nftokenId, intent.recipient).Ok? <==> MatchesIntent(intent, tx)
  {
    hide HasExactly, RequireExactFields;
    var fields := FieldsOf(intent);
    assert fields + {} == fields;
    ExactFieldsAccepts(tx, fields, {});
  }

  lemma AcceptOfferAccepts(intent: Intent, tx: Json)
    requires intent.AcceptNftTransferOffer?
    ensures ValidateNftokenAcceptOfferPolicy(tx, intent.offerIndex).Ok? <==> MatchesIntent(intent, tx)
  {
    hide HasExactly, RequireExactFields;
    var fields := FieldsOf(intent);
    assert fields + {} == fields;
    ExactFieldsAccepts(tx, fields, {});
  }

  lemma BurnAccepts(intent: Intent, tx: Json)
    requires intent.BurnVaultNft?
    ensures ValidateNftokenBurnPolicy(tx, intent.burnedId).Ok? <==> MatchesIntent(intent, tx)
  {
    hide HasExactly, RequireExactFields;
    var fields := FieldsOf(intent);
    assert fields + {} == fields;
    ExactFieldsAccepts(tx, fields, {});
  }

  // The names the builders use.
  const BUILDABLE: set<Field> := {
    TransactionType, Account, URI, NFTokenTaxon, Flags, TransferFee, Destination, Amount,
    DestinationTag, NFTokenID, NFTokenSellOffer, Fee, Sequence, LastLedgerSequence
  }

  lemma BuildableIsNotForbidden(f: Field)
    requires f in BUILDABLE
    ensures f !in FORBIDDEN
  {
  }

  lemma MatchingIsBuildable(intent: Intent, tx: Json)
    requires MatchesIntent(intent, tx)
    ensures tx.Obj? && tx.fields.Keys <= BUILDABLE
  {
    hide MembersMatch;
  }

  lemma MatchingHasNothingForbidden(intent: Intent, tx: Json)
    requires MatchesIntent(intent, tx)
    ensures tx.Obj? && tx.fields.Keys !! FORBIDDEN
  {
    hide FORBIDDEN, MatchesIntent, BUILDABLE;
    MatchingIsBuildable(intent, tx);
    forall f | f in tx.fields.Keys ensures f !in FORBIDDEN {
      BuildableIsNotForbidden(f);
    }
  }

  lemma AddedSigningFields(tx: Json, fee: string, sequence: U32, lastLedger: U32)
    requires tx.Obj?
    ensures var r := AddXrplSigningFields(tx, fee, sequence, lastLedger);
            && r.fields.Keys == tx.fields.Keys + {Fee, Sequence, LastLedgerSequence}
            && HasStr(r, Fee, fee) && HasU32(r, Sequence, sequence) && HasU32(r, LastLedgerSequence, lastLedger)
            && forall f | f !in {Fee, Sequence, LastLedgerSequence} :: Get(r, f) == Get(tx, f)
  {
  }

  // The built transaction has the members and values its intent asks for; adding the
  // signing fields completes it.
  lemma BuiltFields(intent: Intent, wallet: string)
    ensures var fields := Build(intent, wallet).fields.Keys + {Fee, Sequence, LastLedgerSequence};
            FieldsOf(intent) <= fields <= FieldsOf(intent) + OptionalOf(intent)
  {
    hide HexUpper;
  }

  lemma BuiltMembers(intent: Intent, wallet: string)
    ensures MembersMatch(intent, Build(intent, wallet)) && HasStr(Build(intent, wallet), Account, wallet)
  {
    hide HexUpper;
  }

  lemma SigningFieldsKeepMembers(intent: Intent, tx: Json, fee: string, sequence: U32, lastLedger: U32)
    requires tx.Obj? && MembersMatch(intent, tx)
    ensures MembersMatch(intent, AddXrplSigningFields(tx, fee, sequence, lastLedger))
  {
    hide HexUpper;
  }

  lemma BuiltMatches(intent: Intent, tx: Json, wallet: string, fee: string, sequence: U32, lastLedger: U32)
    requires tx == AddXrplSigningFields(Build(intent, wallet), fee, sequence, lastLedger)
    ensures MatchesIntent(intent, tx) && HasSigningFields(tx, wallet, fee, sequence, lastLedger)
  {
    hide AddXrplSigningFields, Build, MembersMatch, FieldsOf, OptionalOf;
    BuiltFields(intent, wallet);
    BuiltMembers(intent, wallet);
    SigningFieldsKeepMembers(intent, Build(intent, wallet), fee, sequence, lastLedger);
    AddedSigningFields(Build(intent, wallet), fee, sequence, lastLedger);
  }

  // Two transactions that match the same intent and carry the same signing fields
  // are equal: the members leave no freedom.
  lemma MatchingIsUnique(intent: Intent, tx: Json, other: Json, wallet: string, fee: string, sequence: U32, lastLedger: U32)
    requires MatchesIntent(intent, tx) && HasSigningFields(tx, wallet, fee, sequence, lastLedger)
    requires MatchesIntent(intent, other) && HasSigningFields(other, wallet, fee, sequence, lastLedger)
    ensures tx == other
  {
    hide HexUpper;
    forall f ensures Get(tx, f) == Get(other, f) {
    }
    SameMembers(tx, other);
  }

  lemma SameMembers(tx: Json, other: Json)
    requires tx.Obj? && other.Obj?
    requires forall f :: Get(tx, f) == Get(other, f)
    ensures tx == other
  {
    assert forall f :: Get(tx, f).Some? <==> f in tx.fields;
    assert forall f :: Get(other, f).Some? <==> f in other.fields;
    assert tx.fields == other.fields;
  }

  lemma MatchingIsBuilt(intent: Intent, tx: Json, wallet: string, fee: string, sequence: U32, lastLedger: U32)
    requires MatchesIntent(intent, tx) && HasSigningFields(tx, wallet, fee, sequence, lastLedger)
    ensures tx == AddXrplSigningFields(Build(intent, wallet), fee, sequence, lastLedger)
  {
    hide HexUpper, MatchesIntent, Build, AddXrplSigningFields;
    var built := AddXrplSigningFields(Build(intent, wallet), fee, sequence, lastLedger);
    BuiltMatches(intent, built, wallet, fee, sequence, lastLedger);
    MatchingIsUnique(intent, tx, built, wallet, fee, sequence, lastLedger);
  }

  // The policy of an intent, as the dispatch selects it.
  lemma PolicyAccepts(intent: Intent, tx: Json, wallet: string)
    ensures ValidateForIntent(intent, tx, wallet).Ok?
      <==> ValidateCommonSigningFields(tx, wallet).Ok? && IntentInPolicy(intent) && MatchesIntent(intent, tx)
  {
    match intent {
      case SendXrp(_, _, _) => PaymentAccepts(intent, tx);
      case MintVaultNft(_, _, _, _) => MintAccepts(intent, tx);
      case CreateNftTransferOffer(_, _) => CreateOfferAccepts(intent, tx);
      case AcceptNftTransferOffer(_) => AcceptOfferAccepts(intent, tx);
      case BurnVaultNft(_) => BurnAccepts(intent, tx);
    }
    hide MatchesIntent, SpellsBetween, ValidateXrpPaymentPolicy, ValidateNftokenMintPolicy;
    hide ValidateNftokenCreateOfferPolicy, ValidateNftokenAcceptOfferPolicy, ValidateNftokenBurnPolicy;
    hide ValidateCommonSigningFields;
  }

  // The validator accepts exactly the builder's image.
  lemma ValidatorAcceptsExactlyBuilderImage(intent: Intent, tx: Json, wallet: string)
    ensures ValidateForIntent(intent, tx, wallet).Ok? <==>
      exists fee, sequence: U32, lastLedger: U32 :: IsImage(intent, tx, wallet, fee, sequence, lastLedger)
  {
    hide MatchesIntent, Build, AddXrplSigningFields, FORBIDDEN, IntentInPolicy, SpellsBetween;
    hide ValidateForIntent, ValidateCommonSigningFields, HasSigningFields;
    PolicyAccepts(intent, tx, wallet);
    if ValidateForIntent(intent, tx, wallet).Ok? {
      MatchingHasNothingForbidden(intent, tx);
      CommonAccepts(tx, wallet);
      var fee, sequence: U32, lastLedger: U32 :|
        && HasSigningFields(tx, wallet, fee, sequence, lastLedger)
        && SpellsBetween(fee, 1, MAX_SIGNING_FEE_DROPS) && sequence != 0 && lastLedger != 0;
      MatchingIsBuilt(intent, tx, wallet, fee, sequence, lastLedger);
      assert IsImage(intent, tx, wallet, fee, sequence, lastLedger);
    }
    if fee, sequence: U32, lastLedger: U32 :| IsImage(intent, tx, wallet, fee, sequence, lastLedger) {
      BuiltMatches(intent, tx, wallet, fee, sequence, lastLedger);
      MatchingHasNothingForbidden(intent, tx);
      CommonAccepts(tx, wallet);
    }
  }

  // Before anything else is looked at, every known name the builders do not use refuses
  // the transaction as forbidden: signatures, memos, delegates, paths and the rest.
  lemma ForbiddenMemberRefusesFirst(intent: Intent, tx: Json, wallet: string, f: Field)
    requires tx.Obj? && f in tx.fields && f !in BUILDABLE && !f.Other?
    ensures ValidateForIntent(intent, tx, wallet) == Err(ForbiddenField)
  {
    KnownNames(f);
    hide FORBIDDEN, BUILDABLE;
    assert f in tx.fields.Keys * FORBIDDEN;
  }

  lemma KnownNames(f: Field)
    ensures f.Other? || f in BUILDABLE || f in FORBIDDEN
  {
    hide Get;
  }

  // ------------------------------------------------ one transaction, one intent

  predicate IsUpperHexDigit(c: char)
  {
    '0' <= c <= '9' || 'A' <= c <= 'F'
  }

  // What a hexadecimal digit is worth.
  function HexValue(c: char): nat
    requires IsUpperHexDigit(c)
  {
    if c <= '9' then c as int - '0' as int else 10 + (c as int - 'A' as int)
  }

  lemma HexDigitIsWorth(d: nat)
    requires d < 16
    ensures IsUpperHexDigit(HexDigit(d)) && HexValue(HexDigit(d)) == d
  {
  }

  // The text spells the bytes in order, two upper-case digits each, the high one first.
  lemma {:induction false} HexUpperSpellsBytes(bytes: seq<byte>, i: nat)
    requires i < |bytes|
    ensures var s := HexUpper(bytes);
      && IsUpperHexDigit(s[2 * i]) && IsUpperHexDigit(s[2 * i + 1])
      && 16 * HexValue(s[2 * i]) + HexValue(s[2 * i + 1]) == bytes[i] as nat
  {
    hide HexDigit, HexValue, IsUpperHexDigit;
    if i == 0 {
      HexDigitIsWorth(bytes[0] as nat / 16);
      HexDigitIsWorth(bytes[0] as nat % 16);
    } else {
      var rest := bytes[1..];
      HexUpperSpellsBytes(rest, i - 1);
      var j := 2 * (i - 1);
      assert HexUpper(bytes)[2..] == HexUpper(rest);
      assert HexUpper(bytes)[j + 2] == HexUpper(rest)[j] && HexUpper(bytes)[j + 3] == HexUpper(rest)[j + 1];
    }
  }

  lemma {:induction false} HexUpperIsInjective(a: seq<byte>, b: seq<byte>)
    requires HexUpper(a) == HexUpper(b)
    ensures a == b
  {
    assert |a| == |b| by { assert |HexUpper(a)| == |HexUpper(b)|; }
    if a == [] {
    } else {
      var s, t := HexUpper(a), HexUpper(b);
      assert s[0] == t[0] && s[1] == t[1];
      HexDigitIsInjective(a[0] as nat / 16, b[0] as nat / 16);
      HexDigitIsInjective(a[0] as nat % 16, b[0] as nat % 16);
      assert s[2..] == HexUpper(a[1..]) && t[2..] == HexUpper(b[1..]);
      HexUpperIsInjective(a[1..], b[1..]);
      assert a == [a[0]] + a[1..] && b == [b[0]] + b[1..];
    }
  }

  lemma HexDigitIsInjective(d: nat, e: nat)
    requires d < 16 && e < 16 && HexDigit(d) == HexDigit(e)
    ensures d == e
  {
  }

  lemma TransactionTypesDiffer()
    ensures "Payment" != "NFTokenMint" && "Payment" != "NFTokenCreateOffer"
    ensures "Payment" != "NFTokenAcceptOffer" && "Payment" != "NFTokenBurn"
    ensures "NFTokenMint" != "NFTokenCreateOffer" && "NFTokenMint" != "NFTokenAcceptOffer"
    ensures "NFTokenMint" != "NFTokenBurn" && "NFTokenCreateOffer" != "NFTokenAcceptOffer"
    ensures "NFTokenCreateOffer" != "NFTokenBurn" && "NFTokenAcceptOffer" != "NFTokenBurn"
  {
    assert "NFTokenMint"[7] == 'M' && "NFTokenBurn"[7] == 'B';
    assert "NFTokenCreateOffer"[7] == 'C' && "NFTokenAcceptOffer"[7] == 'A';
    assert "Payment"[0] == 'P';
  }

  lemma SameTransactionSameKind(i: Intent, j: Intent, tx: Json)
    requires MatchesIntent(i, tx) && MatchesIntent(j, tx)
    ensures i.SendXrp? == j.SendXrp? && i.MintVaultNft? == j.MintVaultNft?
    ensures i.CreateNftTransferOffer? == j.CreateNftTransferOffer?
    ensures i.AcceptNftTransferOffer? == j.AcceptNftTransferOffer? && i.BurnVaultNft? == j.BurnVaultNft?
  {
    hide HexUpper, HasExactly, HasU32, HasOptionalU32, FieldsOf, OptionalOf;
    TransactionTypesDiffer();
  }

  // An accepted transaction determines the intent and the wallet.
  lemma OneTransactionOneIntent(i: Intent, j: Intent, tx: Json, wallet: string, other: string)
    requires ValidateForIntent(i, tx, wallet).Ok? && ValidateForIntent(j, tx, other).Ok?
    ensures i == j && wallet == other
  {
    AcceptedAccount(i, tx, wallet);
    AcceptedAccount(j, tx, other);
    PolicyAccepts(i, tx, wallet);
    PolicyAccepts(j, tx, other);
    hide ValidateForIntent, ValidateCommonSigningFields, HexUpper, HasExactly, SpellsBetween;
    SameTransactionSameKind(i, j, tx);
    if i.MintVaultNft? {
      HexUpperIsInjective(i.metadataUri, j.metadataUri);
    }
  }

  lemma AcceptedAccount(intent: Intent, tx: Json, wallet: string)
    requires ValidateForIntent(intent, tx, wallet).Ok?
    ensures MatchesIntent(intent, tx) && tx.fields.Keys !! FORBIDDEN
    ensures exists fee, sequence: U32, lastLedger: U32 :: HasSigningFields(tx, wallet, fee, sequence, lastLedger)
    ensures HasStr(tx, Account, wallet)
  {
    hide ValidateForIntent, ValidateCommonSigningFields, FORBIDDEN, MatchesIntent;
    PolicyAccepts(intent, tx, wallet);
    MatchingHasNothingForbidden(intent, tx);
    CommonAccepts(tx, wallet);
  }

  // -------------------------------------------------------------------- signing

  function ValidateCommonShapeFields(tx: Json): Check
  {
    var _ :- StringField(tx, Account);
    var _ :- StringField(tx, Fee);
    var _ :- U32Field(tx, Sequence);
    var _ :- U32Field(tx, LastLedgerSequence);
    Ok(Unit)
  }

  function ValidateShapeForType(tx: Json, transactionType: string): Check
  {
    if transactionType == "NFTokenMint" then
      var _ :- StringField(tx, URI);
      var _ :- U32Field(tx, NFTokenTaxon);
      Ok(Unit)
    else if transactionType == "NFTokenCreateOffer" then
      var _ :- StringField(tx, NFTokenID);
      var _ :- StringField(tx, Amount);
      var _ :- U32Field(tx, Flags);
      if Get(tx, Destination).Some? then
        var _ :- StringField(tx, Destination);
        Ok(Unit)
      else
        Ok(Unit)
    else if transactionType == "NFTokenAcceptOffer" then
      var _ :- StringField(tx, NFTokenSellOffer);
      Ok(Unit)
    else if transactionType == "NFTokenBurn" then
      var _ :- StringField(tx, NFTokenID);
      Ok(Unit)
    else if transactionType == "Payment" then
      var _ :- StringField(tx, Destination);
      var _ :- StringField(tx, Amount);
      if Get(tx, DestinationTag).Some? then
        var _ :- U32Field(tx, DestinationTag);
        Ok(Unit)
      else
        Ok(Unit)
    else
      Err(UnsupportedTransactionType)
  }

  function ValidateSupportedSignableTx(tx: Json): Check
  {
    var transactionType :- StringField(tx, TransactionType);
    var _ :- ValidateShapeForType(tx, transactionType);
    ValidateCommonShapeFields(tx)
  }

  // The member is there and is a text, or a number that fits 32 bits.
  predicate IsText(tx: Json, f: Field)
  {
    Get(tx, f).Some? && Get(tx, f).value.Str?
  }

  predicate IsU32(tx: Json, f: Field)
  {
    Get(tx, f).Some? && Get(tx, f).value.Unsigned? && Get(tx, f).value.n <= 0xFFFF_FFFF
  }

  // What the guard demands of each transaction type.
  predicate HasShapeOf(tx: Json, transactionType: string)
  {
    if transactionType == "NFTokenMint" then IsText(tx, URI) && IsU32(tx, NFTokenTaxon)
    else if transactionType == "NFTokenCreateOffer" then
      && IsText(tx, NFTokenID) && IsText(tx, Amount) && IsU32(tx, Flags)
      && (Get(tx, Destination).None? || IsText(tx, Destination))
    else if transactionType == "NFTokenAcceptOffer" then IsText(tx, NFTokenSellOffer)
    else if transactionType == "NFTokenBurn" then IsText(tx, NFTokenID)
    else if transactionType == "Payment" then
      && IsText(tx, Destination) && IsText(tx, Amount)
      && (Get(tx, DestinationTag).None? || IsU32(tx, DestinationTag))
    else false
  }

  lemma FieldReaders(tx: Json, f: Field)
    ensures StringField(tx, f).Ok? <==> IsText(tx, f)
    ensures IsText(tx, f) ==> StringField(tx, f) == Ok(Get(tx, f).value.s)
    ensures U32Field(tx, f).Ok? <==> IsU32(tx, f)
    ensures IsU32(tx, f) ==> U32Field(tx, f) == Ok(Get(tx, f).value.n)
  {
  }

  lemma ShapeCheckIff(tx: Json, transactionType: string)
    ensures ValidateShapeForType(tx, transactionType).Ok? <==> HasShapeOf(tx, transactionType)
  {
    hide StringField, U32Field, IsText, IsU32, Get;
    FieldReaders(tx, URI);
    FieldReaders(tx, NFTokenTaxon);
    FieldReaders(tx, NFTokenID);
    FieldReaders(tx, Amount);
    FieldReaders(tx, Flags);
    FieldReaders(tx, Destination);
    FieldReaders(tx, NFTokenSellOffer);
    FieldReaders(tx, DestinationTag);
  }

  // The guard passes exactly the five known types in their shape, with the account and
  // the signing fields in theirs.
  lemma GuardAcceptsIff(tx: Json)
    ensures ValidateSupportedSignableTx(tx).Ok? <==>
      && IsText(tx, TransactionType) && HasShapeOf(tx, Get(tx, TransactionType).value.s)
      && IsText(tx, Account) && IsText(tx, Fee) && IsU32(tx, Sequence) && IsU32(tx, LastLedgerSequence)
  {
    hide StringField, U32Field, IsU32, ValidateShapeForType, HasShapeOf;
    FieldReaders(tx, TransactionType);
    FieldReaders(tx, Account);
    FieldReaders(tx, Fee);
    FieldReaders(tx, Sequence);
    FieldReaders(tx, LastLedgerSequence);
    if IsText(tx, TransactionType) {
      ShapeCheckIff(tx, Get(tx, TransactionType).value.s);
    }
  }

  // The digest, the ECDSA signature and its hex encoding are one function of the
  // members that are signed.
  function SignForIntent(intent: Intent, tx: Json, wallet: string, publicKey: string,
                         signature: map<Field, Json> -> string): Result<Json, PolicyError>
  {
    var _ :- ValidateForIntent(intent, tx, wallet);
    var withKey := tx.fields[SigningPubKey := Str(publicKey)] - {TxnSignature, Hash};
    var signed := Obj(withKey[TxnSignature := Str(signature(withKey))]);
    var _ :- ValidateSupportedSignableTx(signed);
    Ok(signed)
  }

  // tx with the two members signing adds.
  function WithSignature(tx: Json, publicKey: string, signature: string): (r: Json)
    requires tx.Obj?
    ensures r.Obj?
  {
    Obj(tx.fields[SigningPubKey := Str(publicKey)][TxnSignature := Str(signature)])
  }

  // The guard asks for less than the policy: presence and kind, not value.
  lemma MatchingPassesGuard(intent: Intent, tx: Json, wallet: string, fee: string, sequence: U32, lastLedger: U32)
    requires MembersMatch(intent, tx) && HasSigningFields(tx, wallet, fee, sequence, lastLedger)
    ensures ValidateSupportedSignableTx(tx).Ok?
  {
    hide HexUpper;
    TransactionTypesDiffer();
  }

  lemma SignatureKeepsMatch(intent: Intent, tx: Json, publicKey: string, signature: string)
    requires tx.Obj? && MembersMatch(intent, tx)
    ensures MembersMatch(intent, WithSignature(tx, publicKey, signature))
  {
    hide HexUpper;
  }

  lemma SignatureKeepsSigningFields(tx: Json, wallet: string, fee: string, sequence: U32, lastLedger: U32,
                                    publicKey: string, signature: string)
    requires tx.Obj? && HasSigningFields(tx, wallet, fee, sequence, lastLedger)
    ensures HasSigningFields(WithSignature(tx, publicKey, signature), wallet, fee, sequence, lastLedger)
  {
  }

  // The last guard never refuses what the policy accepted.
  lemma FinalGuardAlwaysPasses(intent: Intent, tx: Json, wallet: string, publicKey: string, signature: string)
    requires ValidateForIntent(intent, tx, wallet).Ok?
    ensures ValidateSupportedSignableTx(WithSignature(tx, publicKey, signature)).Ok?
  {
    hide ValidateForIntent, HasExactly, WithSignature, FORBIDDEN, MembersMatch, HasSigningFields, ValidateSupportedSignableTx;
    AcceptedAccount(intent, tx, wallet);
    var fee, sequence: U32, lastLedger: U32 :| HasSigningFields(tx, wallet, fee, sequence, lastLedger);
    SignatureKeepsMatch(intent, tx, publicKey, signature);
    SignatureKeepsSigningFields(tx, wallet, fee, sequence, lastLedger, publicKey, signature);
    MatchingPassesGuard(intent, WithSignature(tx, publicKey, signature), wallet, fee, sequence, lastLedger);
  }

  // Signing succeeds exactly when the policy accepts. It signs every member of the
  // transaction and the public key, adds the key and the signature and changes
  // nothing else, and its result cannot be signed a second time.
  lemma SigningAddsKeyAndSignatureOnly(intent: Intent, tx: Json, wallet: string, publicKey: string,
                                       signature: map<Field, Json> -> string)
    ensures var r := SignForIntent(intent, tx, wallet, publicKey, signature);
            && (r.Ok? <==> ValidateForIntent(intent, tx, wallet).Ok?)
            && (r.Ok? ==>
              && r.value.Obj?
              && r.value.fields - {SigningPubKey, TxnSignature} == tx.fields
              && HasStr(r.value, SigningPubKey, publicKey)
              && HasStr(r.value, TxnSignature, signature(r.value.fields - {TxnSignature}))
              && forall j, w :: ValidateForIntent(j, r.value, w).Err?)
  {
    hide ValidateSupportedSignableTx, ValidateShapeForType, MatchesIntent;
    if ValidateForIntent(intent, tx, wallet).Ok? {
      AcceptedAccount(intent, tx, wallet);
      var withKey := tx.fields[SigningPubKey := Str(publicKey)];
      assert SigningPubKey in FORBIDDEN && TxnSignature in FORBIDDEN && Hash in FORBIDDEN;
      assert withKey - {TxnSignature, Hash} == withKey;
      var sig := signature(withKey);
      FinalGuardAlwaysPasses(intent, tx, wallet, publicKey, sig);
      var signed := WithSignature(tx, publicKey, sig);
      assert signed.fields - {SigningPubKey, TxnSignature} == tx.fields;
      assert signed.fields - {TxnSignature} == withKey;
    }
  }
}
