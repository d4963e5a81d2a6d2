/** The four builders that hash, sign and render an invoke transaction, and reading a rendered transaction back. */
module Payloads {
  import opened Felts
  import opened Signing

  datatype BoundsJson = BoundsJson(
    l1GasAmount: string, l1GasPrice: string,
    l2GasAmount: string, l2GasPrice: string,
    l1DataGasAmount: string, l1DataGasPrice: string)

  /** The rendered JSON object, key by key; `None` is an absent key. */
  datatype TxJson = TxJson(
    kind: string,
    version: string,
    senderAddress: string,
    calldata: seq<string>,
    nonce: string,
    resourceBounds: BoundsJson,
    tip: string,
    paymasterData: seq<string>,
    accountDeploymentData: seq<string>,
    nonceDaMode: string,
    feeDaMode: string,
    signature: seq<string>,
    proof: Option<string>,
    proofFacts: Option<seq<string>>)

  datatype Output = Output(txHash: string, tx: TxJson)

  datatype BuildError = InvalidFeltHex | SigningFailed

  /** The inputs of the builders. Only payloads carry a proof, only signed ones a key. */
  datatype UnsignedTransactionInput = UnsignedTransactionInput(
    senderAddress: string, calldata: seq<string>, nonce: string, chainId: seq<Byte>,
    resourceBounds: Option<ResourceBounds>)

  datatype TransactionInput = TransactionInput(unsigned: UnsignedTransactionInput, privateKey: string)

  datatype UnsignedPayloadInput = UnsignedPayloadInput(
    base: UnsignedTransactionInput, proofBase64: string, proofFacts: seq<string>)

  datatype PayloadInput = PayloadInput(unsigned: UnsignedPayloadInput, privateKey: string)

  datatype Signature = Signature(r: Felt, s: Felt)

  /** Signing with a private key: a library call that may fail. */
  type Signer = (Felt, Felt) -> Option<Signature>

  const ZERO_FEE := ResourceBounds(ResourceBound(0, 0), ResourceBound(0x7000000, 0), ResourceBound(0x1b0, 0))

  const DEFAULT_BOUNDS := ResourceBounds(
    ResourceBound(0x10000, 0x38d7ea4c68000),
    ResourceBound(0x7000000, 0x1dcd65000),
    ResourceBound(0x1b0, 0x38d7ea4c68000))

  function GetOr<T>(o: Option<T>, default: T): T {
    if o.Some? then o.value else default
  }

  // ------------------------------------------------------------------------
  // Rendering
  // ------------------------------------------------------------------------

  function HexAll(felts: seq<Felt>): seq<string> {
    seq(|felts|, i requires 0 <= i < |felts| => ToHex(felts[i]))
  }

  function ParseAll(texts: seq<string>): Option<seq<Felt>> {
    if texts == [] then Some([])
    else
      match (ParseAll(texts[..|texts| - 1]), FeltFromHex(texts[|texts| - 1]))
      case (Some(front), Some(last)) => Some(front + [last])
      case _ => None
  }

  function ToRpcJson(b: ResourceBounds): BoundsJson {
    BoundsJson(
      ToHex(b.l1Gas.maxAmount), ToHex(b.l1Gas.maxPricePerUnit),
      ToHex(b.l2Gas.maxAmount), ToHex(b.l2Gas.maxPricePerUnit),
      ToHex(b.l1DataGas.maxAmount), ToHex(b.l1DataGas.maxPricePerUnit))
  }

  /** The hashed transaction: no tip, no paymaster or deployment data, both data availability modes L1. */
  function PlainTx(
    sender: Felt, calldata: seq<Felt>, chainId: Felt, nonce: Felt, bounds: ResourceBounds, proofFacts: seq<Felt>)
    : InvokeTx
  {
    InvokeTx(sender, calldata, chainId, nonce, ZERO, bounds, [], [], 0, 0, proofFacts)
  }

  function Render(
    senderText: string, calldata: seq<Felt>, nonce: Felt, bounds: ResourceBounds, signature: seq<Felt>,
    proof: Option<string>, proofFacts: Option<seq<Felt>>): TxJson
  {
    TxJson("INVOKE", "0x3", senderText, HexAll(calldata), ToHex(nonce), ToRpcJson(bounds), "0x0", [], [], "L1", "L1",
      HexAll(signature), proof, if proofFacts.Some? then Some(HexAll(proofFacts.value)) else None)
  }

  // ------------------------------------------------------------------------
  // The builders
  // ------------------------------------------------------------------------

  datatype ParsedTransaction = ParsedTransaction(
    sender: Felt, calldata: seq<Felt>, nonce: Felt, chainId: Felt)

  function ParseTransaction(input: UnsignedTransactionInput): Option<ParsedTransaction> {
    match (FeltFromHex(input.senderAddress), ParseAll(input.calldata), FeltFromHex(input.nonce))
    case (Some(sender), Some(calldata), Some(nonce)) =>
      Some(ParsedTransaction(sender, calldata, nonce, FeltFromBytes(input.chainId)))
    case _ => None
  }

  function BuildUnsignedTransaction(poseidon: HashMany, input: UnsignedTransactionInput): Result<Output, BuildError> {
    match ParseTransaction(input)
    case None => Err(InvalidFeltHex)
    case Some(p) =>
      var bounds := GetOr(input.resourceBounds, ZERO_FEE);
      var txHash := TxHash(poseidon, PlainTx(p.sender, p.calldata, p.chainId, p.nonce, bounds, []));
      Ok(Output(ToHex(txHash), Render(input.senderAddress, p.calldata, p.nonce, bounds, [], None, None)))
  }

  function BuildTransaction(poseidon: HashMany, sign: Signer, input: TransactionInput): Result<Output, BuildError> {
    match (ParseTransaction(input.unsigned), FeltFromHex(input.privateKey))
    case (Some(p), Some(privateKey)) =>
      var bounds := GetOr(input.unsigned.resourceBounds, ZERO_FEE);
      var txHash := TxHash(poseidon, PlainTx(p.sender, p.calldata, p.chainId, p.nonce, bounds, []));
      (match sign(privateKey, txHash)
       case None => Err(SigningFailed)
       case Some(sig) =>
         Ok(Output(ToHex(txHash),
           Render(input.unsigned.senderAddress, p.calldata, p.nonce, bounds, [sig.r, sig.s], None, None))))
    case _ => Err(InvalidFeltHex)
  }

  function BuildUnsignedPayload(poseidon: HashMany, input: UnsignedPayloadInput): Result<Output, BuildError> {
    match (ParseTransaction(input.base), ParseAll(input.proofFacts))
    case (Some(p), Some(facts)) =>
      var bounds := GetOr(input.base.resourceBounds, DEFAULT_BOUNDS);
      var txHash := TxHash(poseidon, PlainTx(p.sender, p.calldata, p.chainId, p.nonce, bounds, facts));
      Ok(Output(ToHex(txHash),
        Render(ToHex(p.sender), p.calldata, p.nonce, bounds, [], Some(input.proofBase64), Some(facts))))
    case _ => Err(InvalidFeltHex)
  }

  function BuildPayload(poseidon: HashMany, sign: Signer, input: PayloadInput): Result<Output, BuildError> {
    match (ParseTransaction(input.unsigned.base), ParseAll(input.unsigned.proofFacts), FeltFromHex(input.privateKey))
    case (Some(p), Some(facts), Some(privateKey)) =>
      var bounds := GetOr(input.unsigned.base.resourceBounds, DEFAULT_BOUNDS);
      var txHash := TxHash(poseidon, PlainTx(p.sender, p.calldata, p.chainId, p.nonce, bounds, facts));
      (match sign(privateKey, txHash)
       case None => Err(SigningFailed)
       case Some(sig) =>
         Ok(Output(ToHex(txHash),
           Render(ToHex(p.sender), p.calldata, p.nonce, bounds, [sig.r, sig.s],
             Some(input.unsigned.proofBase64), Some(facts)))))
    case _ => Err(InvalidFeltHex)
  }

  // ------------------------------------------------------------------------
  // Reading a rendered transaction back
  // ------------------------------------------------------------------------

  function ParseBound(amount: string, price: string): Option<ResourceBound> {
    match (NatFromHex(amount), NatFromHex(price))
    case (Some(a), Some(p)) => if a < TWO64 && p < TWO128 then Some(ResourceBound(a, p)) else None
    case _ => None
  }

  function ParseBounds(b: BoundsJson): Option<ResourceBounds> {
    match (ParseBound(b.l1GasAmount, b.l1GasPrice), ParseBound(b.l2GasAmount, b.l2GasPrice),
           ParseBound(b.l1DataGasAmount, b.l1DataGasPrice))
    case (Some(l1), Some(l2), Some(data)) => Some(ResourceBounds(l1, l2, data))
    case _ => None
  }

  function ParseDaMode(text: string): Option<U32> {
    if text == "L1" then Some(0) else if text == "L2" then Some(1) else None
  }

  /** Parses every field of a version-3 invoke object; absent proof facts mean none. */
  function ReadBack(tx: TxJson, chainId: Felt): Option<InvokeTx> {
    if tx.kind != "INVOKE" || tx.version != "0x3" then None
    else match (FeltFromHex(tx.senderAddress), ParseAll(tx.calldata), FeltFromHex(tx.nonce), FeltFromHex(tx.tip))
    case (Some(sender), Some(calldata), Some(nonce), Some(tip)) =>
      (match (ParseBounds(tx.resourceBounds), ParseAll(tx.paymasterData), ParseAll(tx.accountDeploymentData))
       case (Some(bounds), Some(paymaster), Some(deployment)) =>
         (match (ParseDaMode(tx.nonceDaMode), ParseDaMode(tx.feeDaMode), ParseAll(GetOr(tx.proofFacts, [])))
          case (Some(nonceMode), Some(feeMode), Some(facts)) =>
            Some(InvokeTx(sender, calldata, chainId, nonce, tip, bounds, paymaster, deployment, nonceMode, feeMode, facts))
          case _ => None)
       case _ => None)
    case _ => None
  }

  /** Parsing a list succeeds exactly when each text parses, and keeps positions. */
  lemma {:induction false} ParseAllPointwise(texts: seq<string>)
    ensures ParseAll(texts).Some? <==> forall i :: 0 <= i < |texts| ==> FeltFromHex(texts[i]).Some?
    ensures ParseAll(texts).Some? ==>
              && |ParseAll(texts).value| == |texts|
              && forall i :: 0 <= i < |texts| ==> FeltFromHex(texts[i]) == Some(ParseAll(texts).value[i])
  {
    hide FeltFromHex;
    if texts == [] {
    } else {
      ParseAllPointwise(texts[..|texts| - 1]);
    }
  }

  lemma ParseAllIs(texts: seq<string>, felts: seq<Felt>)
    requires |texts| == |felts|
    requires forall i :: 0 <= i < |texts| ==> FeltFromHex(texts[i]) == Some(felts[i])
    ensures ParseAll(texts) == Some(felts)
  {
    hide FeltFromHex;
    hide ParseAll;
    ParseAllPointwise(texts);
    assert ParseAll(texts).value == felts;
  }

  lemma ParseHexAll(felts: seq<Felt>)
    ensures ParseAll(HexAll(felts)) == Some(felts)
  {
    hide FeltFromHex;
    hide ToHex;
    hide ParseAll;
    forall i | 0 <= i < |felts|
      ensures FeltFromHex(HexAll(felts)[i]) == Some(felts[i])
    {
      FeltRoundTrip(felts[i]);
    }
    ParseAllIs(HexAll(felts), felts);
  }

  lemma ParseZero()
    ensures FeltFromHex("0x0") == Some(ZERO)
  {
    FeltRoundTrip(ZERO);
    assert ToHex(ZERO) == "0x0";
  }

  lemma ParseRpcJson(b: ResourceBounds)
    ensures ParseBounds(ToRpcJson(b)) == Some(b)
  {
    NatRoundTrip(b.l1Gas.maxAmount);
    NatRoundTrip(b.l1Gas.maxPricePerUnit);
    NatRoundTrip(b.l2Gas.maxAmount);
    NatRoundTrip(b.l2Gas.maxPricePerUnit);
    NatRoundTrip(b.l1DataGas.maxAmount);
    NatRoundTrip(b.l1DataGas.maxPricePerUnit);
  }

  lemma ReadBackRendered(
    sender: Felt, senderText: string, calldata: seq<Felt>, chainId: Felt, nonce: Felt, bounds: ResourceBounds,
    signature: seq<Felt>, proof: Option<string>, proofFacts: Option<seq<Felt>>)
    requires FeltFromHex(senderText) == Some(sender)
    ensures ReadBack(Render(senderText, calldata, nonce, bounds, signature, proof, proofFacts), chainId)
            == Some(PlainTx(sender, calldata, chainId, nonce, bounds, GetOr(proofFacts, [])))
  {
    hide FeltFromHex;
    hide HexAll;
    hide ToHex;
    hide ParseBounds;
    hide ToRpcJson;
    hide ParseAll;
    ParseHexAll(calldata);
    FeltRoundTrip(nonce);
    ParseRpcJson(bounds);
    ParseNothing();
    ParseZero();
    if proofFacts.Some? {
      ParseHexAll(proofFacts.value);
    }
  }

  lemma ParseNothing()
    ensures ParseAll([]) == Some([])
  {
  }

  /** The output carries the hash of what a reader gets back from it. */
  ghost predicate HashMatches(poseidon: HashMany, out: Output, chainId: Felt) {
    var tx := ReadBack(out.tx, chainId);
    tx.Some? && FeltFromHex(out.txHash) == Some(TxHash(poseidon, tx.value))
  }

  lemma RenderedHashMatches(
    poseidon: HashMany, sender: Felt, senderText: string, calldata: seq<Felt>, chainId: Felt, nonce: Felt,
    bounds: ResourceBounds, signature: seq<Felt>, proof: Option<string>, proofFacts: Option<seq<Felt>>)
    requires FeltFromHex(senderText) == Some(sender)
    ensures HashMatches(poseidon,
              Output(ToHex(TxHash(poseidon, PlainTx(sender, calldata, chainId, nonce, bounds, GetOr(proofFacts, [])))),
                Render(senderText, calldata, nonce, bounds, signature, proof, proofFacts)),
              chainId)
  {
    hide TxHash;
    hide ReadBack;
    hide Render;
    hide PlainTx;
    hide FeltFromHex;
    hide ToHex;
    ReadBackRendered(sender, senderText, calldata, chainId, nonce, bounds, signature, proof, proofFacts);
    FeltRoundTrip(TxHash(poseidon, PlainTx(sender, calldata, chainId, nonce, bounds, GetOr(proofFacts, []))));
  }

  /** For all four builders: parsing every field of the built object and hashing again gives the returned hash. */
  lemma BuildersHashWhatTheyRender(poseidon: HashMany, sign: Signer, input: PayloadInput)
    ensures var chainId := FeltFromBytes(input.unsigned.base.chainId);
            var base := TransactionInput(input.unsigned.base, input.privateKey);
            && (BuildUnsignedTransaction(poseidon, input.unsigned.base).Ok? ==>
                  HashMatches(poseidon, BuildUnsignedTransaction(poseidon, input.unsigned.base).value, chainId))
            && (BuildTransaction(poseidon, sign, base).Ok? ==>
                  HashMatches(poseidon, BuildTransaction(poseidon, sign, base).value, chainId))
            && (BuildUnsignedPayload(poseidon, input.unsigned).Ok? ==>
                  HashMatches(poseidon, BuildUnsignedPayload(poseidon, input.unsigned).value, chainId))
            && (BuildPayload(poseidon, sign, input).Ok? ==>
                  HashMatches(poseidon, BuildPayload(poseidon, sign, input).value, chainId))
  {
    hide TxHash;
    hide HashMatches;
    hide Render;
    hide PlainTx;
    hide FeltFromHex;
    hide ToHex;
    hide ParseAll;
    var base := input.unsigned.base;
    var proof := Some(input.unsigned.proofBase64);
    match ParseTransaction(base)
    case None =>
    case Some(p) =>
      var key := FeltFromHex(input.privateKey);
      FeltRoundTrip(p.sender);
      forall signature: seq<Felt>
        ensures var bounds := GetOr(base.resourceBounds, ZERO_FEE);
                HashMatches(poseidon,
                  Output(ToHex(TxHash(poseidon, PlainTx(p.sender, p.calldata, p.chainId, p.nonce, bounds, []))),
                    Render(base.senderAddress, p.calldata, p.nonce, bounds, signature, None, None)), p.chainId)
      {
        RenderedHashMatches(poseidon, p.sender, base.senderAddress, p.calldata, p.chainId, p.nonce,
          GetOr(base.resourceBounds, ZERO_FEE), signature, None, None);
      }
      match ParseAll(input.unsigned.proofFacts)
      case None =>
      case Some(facts) =>
        forall signature: seq<Felt>
          ensures var bounds := GetOr(base.resourceBounds, DEFAULT_BOUNDS);
                  HashMatches(poseidon,
                    Output(ToHex(TxHash(poseidon, PlainTx(p.sender, p.calldata, p.chainId, p.nonce, bounds, facts))),
                      Render(ToHex(p.sender), p.calldata, p.nonce, bounds, signature, proof, Some(facts))), p.chainId)
        {
          RenderedHashMatches(poseidon, p.sender, ToHex(p.sender), p.calldata, p.chainId, p.nonce,
            GetOr(base.resourceBounds, DEFAULT_BOUNDS), signature, proof, Some(facts));
        }
  }

  /** A signed builder that succeeds returns the unsigned builder's hash and object, with the two signature felts put
      in; it fails where the unsigned one succeeds only over the key or the signing. */
  lemma SignedAgreesWithUnsigned(poseidon: HashMany, sign: Signer, input: PayloadInput)
    ensures var base := TransactionInput(input.unsigned.base, input.privateKey);
            var signed, unsigned := BuildTransaction(poseidon, sign, base), BuildUnsignedTransaction(poseidon, base.unsigned);
            && (signed.Ok? ==>
                  && unsigned.Ok? && signed.value.txHash == unsigned.value.txHash
                  && |signed.value.tx.signature| == 2
                  && signed.value.tx.(signature := []) == unsigned.value.tx)
            && (unsigned.Ok? && FeltFromHex(base.privateKey).Some? && !signed.Ok? ==> signed == Err(SigningFailed))
    ensures var signed, unsigned := BuildPayload(poseidon, sign, input), BuildUnsignedPayload(poseidon, input.unsigned);
            && (signed.Ok? ==>
                  && unsigned.Ok? && signed.value.txHash == unsigned.value.txHash
                  && |signed.value.tx.signature| == 2
                  && signed.value.tx.(signature := []) == unsigned.value.tx)
            && (unsigned.Ok? && FeltFromHex(input.privateKey).Some? && !signed.Ok? ==> signed == Err(SigningFailed))
  {
    hide TxHash;
    hide PlainTx;
    hide FeltFromHex;
    hide ToHex;
    hide ParseAll;
    assert HexAll([]) == [];
  }

  // ------------------------------------------------------------------------
  // The builders use what they are given
  // ------------------------------------------------------------------------

  ghost predicate AllParse(texts: seq<string>) {
    forall i :: 0 <= i < |texts| ==> FeltFromHex(texts[i]).Some?
  }

  /** The felts are the texts parsed position by position. */
  ghost predicate Parsed(texts: seq<string>, felts: seq<Felt>) {
    |felts| == |texts| && forall i :: 0 <= i < |texts| ==> FeltFromHex(texts[i]) == Some(felts[i])
  }

  ghost predicate InputParses(input: UnsignedTransactionInput) {
    FeltFromHex(input.senderAddress).Some? && FeltFromHex(input.nonce).Some? && AllParse(input.calldata)
  }

  /** The object is the transaction that the caller asked for: sender, calldata, nonce and proof facts are the input
      texts, the bounds the caller's or else the default ones, everything else is empty or zero; and the returned hash is
      this transaction's. */
  ghost predicate BuiltFrom(
    poseidon: HashMany, input: UnsignedTransactionInput, facts: seq<string>, defaultBounds: ResourceBounds, out: Output)
  {
    var back := ReadBack(out.tx, FeltFromBytes(input.chainId));
    && back.Some?
    && var tx := back.value;
       && FeltFromHex(input.senderAddress) == Some(tx.senderAddress)
       && FeltFromHex(input.nonce) == Some(tx.nonce)
       && Parsed(input.calldata, tx.calldata)
       && Parsed(facts, tx.proofFacts)
       && tx.resourceBounds == (match input.resourceBounds case Some(bounds) => bounds case None => defaultBounds)
       && tx.chainId == FeltFromBytes(input.chainId)
       && tx.tip == 0 && tx.paymasterData == [] && tx.accountDeploymentData == []
       && tx.nonceDaMode == 0 && tx.feeDaMode == 0
       && FeltFromHex(out.txHash) == Some(TxHash(poseidon, tx))
  }

  /** The object carries the signer's answer on the parsed key and the returned hash. */
  ghost predicate SignedBy(sign: Signer, privateKey: string, out: Output) {
    && FeltFromHex(privateKey).Some? && FeltFromHex(out.txHash).Some?
    && var answer := sign(FeltFromHex(privateKey).value, FeltFromHex(out.txHash).value);
       answer.Some? && out.tx.signature == [ToHex(answer.value.r), ToHex(answer.value.s)]
  }

  lemma RenderedIsBuilt(
    poseidon: HashMany, input: UnsignedTransactionInput, facts: seq<string>, defaultBounds: ResourceBounds,
    p: ParsedTransaction, factFelts: seq<Felt>, senderText: string, signature: seq<Felt>, proof: Option<string>,
    proofFacts: Option<seq<Felt>>)
    requires ParseTransaction(input) == Some(p) && ParseAll(facts) == Some(factFelts)
    requires FeltFromHex(senderText) == Some(p.sender)
    requires factFelts == GetOr(proofFacts, [])
    ensures var bounds := GetOr(input.resourceBounds, defaultBounds);
            BuiltFrom(poseidon, input, facts, defaultBounds,
              Output(ToHex(TxHash(poseidon, PlainTx(p.sender, p.calldata, p.chainId, p.nonce, bounds, factFelts))),
                Render(senderText, p.calldata, p.nonce, bounds, signature, proof, proofFacts)))
  {
    var bounds := GetOr(input.resourceBounds, defaultBounds);
    var tx := PlainTx(p.sender, p.calldata, p.chainId, p.nonce, bounds, factFelts);
    ParseAllPointwise(input.calldata);
    ParseAllPointwise(facts);
    hide FeltFromHex;
    hide ToHex;
    hide ParseAll;
    hide ReadBack;
    hide Render;
    hide TxHash;
    ReadBackRendered(p.sender, senderText, p.calldata, p.chainId, p.nonce, bounds, signature, proof, proofFacts);
    FeltRoundTrip(TxHash(poseidon, tx));
  }

  lemma ParsesIs(input: UnsignedTransactionInput)
    ensures ParseTransaction(input).Some? <==> InputParses(input)
    ensures ParseTransaction(input).Some? ==> FeltFromHex(input.senderAddress) == Some(ParseTransaction(input).value.sender)
  {
    ParseAllPointwise(input.calldata);
    hide ParseAll;
    hide FeltFromHex;
  }

  /** Transactions without a proof: built exactly when everything parses, from exactly what the caller gave. */
  lemma UnsignedTransactionBuilt(poseidon: HashMany, input: UnsignedTransactionInput)
    ensures var r := BuildUnsignedTransaction(poseidon, input);
            var zeroFee := ResourceBounds(ResourceBound(0, 0), ResourceBound(0x7000000, 0), ResourceBound(0x1b0, 0));
            && (r.Ok? <==> InputParses(input))
            && (r.Ok? ==>
                  && BuiltFrom(poseidon, input, [], zeroFee, r.value)
                  && r.value.tx.senderAddress == input.senderAddress
                  && r.value.tx.signature == [] && r.value.tx.proof == None && r.value.tx.proofFacts == None)
  {
    hide ParseTransaction;
    hide FeltFromHex;
    hide ToHex;
    hide TxHash;
    hide BuiltFrom;
    hide InputParses;
    hide ParseAll;
    hide PlainTx;
    ParsesIs(input);
    ParseNothing();
    var parsed := ParseTransaction(input);
    if parsed.Some? {
      RenderedIsBuilt(poseidon, input, [], ZERO_FEE, parsed.value, [], input.senderAddress, [], None, None);
    }
    assert HexAll([]) == [];
  }

  lemma TransactionBuilt(poseidon: HashMany, sign: Signer, input: TransactionInput)
    ensures var r := BuildTransaction(poseidon, sign, input);
            var zeroFee := ResourceBounds(ResourceBound(0, 0), ResourceBound(0x7000000, 0), ResourceBound(0x1b0, 0));
            && (r == Err(InvalidFeltHex) <==> !(InputParses(input.unsigned) && FeltFromHex(input.privateKey).Some?))
            && (r.Ok? ==>
                  && BuiltFrom(poseidon, input.unsigned, [], zeroFee, r.value)
                  && SignedBy(sign, input.privateKey, r.value)
                  && r.value.tx.senderAddress == input.unsigned.senderAddress
                  && r.value.tx.proof == None && r.value.tx.proofFacts == None)
    ensures BuildTransaction(poseidon, sign, input) == Err(SigningFailed) ==>
              var unsigned := BuildUnsignedTransaction(poseidon, input.unsigned);
              && unsigned.Ok? && FeltFromHex(unsigned.value.txHash).Some?
              && sign(FeltFromHex(input.privateKey).value, FeltFromHex(unsigned.value.txHash).value) == None
  {
    hide ParseTransaction;
    hide FeltFromHex;
    hide ToHex;
    hide TxHash;
    hide BuiltFrom;
    hide InputParses;
    hide ParseAll;
    hide PlainTx;
    ParsesIs(input.unsigned);
    ParseNothing();
    var parsed := ParseTransaction(input.unsigned);
    if parsed.Some? && FeltFromHex(input.privateKey).Some? {
      var p := parsed.value;
      var bounds := GetOr(input.unsigned.resourceBounds, ZERO_FEE);
      var txHash := TxHash(poseidon, PlainTx(p.sender, p.calldata, p.chainId, p.nonce, bounds, []));
      FeltRoundTrip(txHash);
      match sign(FeltFromHex(input.privateKey).value, txHash)
      case None =>
      case Some(sig) =>
        RenderedIsBuilt(poseidon, input.unsigned, [], ZERO_FEE, p, [], input.unsigned.senderAddress, [sig.r, sig.s], None, None);
        assert HexAll([sig.r, sig.s]) == [ToHex(sig.r), ToHex(sig.s)];
    }
  }

  /** Payloads with a proof: built exactly when everything parses, from exactly what the caller gave. */
  lemma UnsignedPayloadBuilt(poseidon: HashMany, input: UnsignedPayloadInput)
    ensures var r := BuildUnsignedPayload(poseidon, input);
            var defaults := ResourceBounds(
              ResourceBound(0x10000, 0x38d7ea4c68000), ResourceBound(0x7000000, 0x1dcd65000),
              ResourceBound(0x1b0, 0x38d7ea4c68000));
            && (r.Ok? <==> InputParses(input.base) && AllParse(input.proofFacts))
            && (r.Ok? ==>
                  && BuiltFrom(poseidon, input.base, input.proofFacts, defaults, r.value)
                  && r.value.tx.signature == [] && r.value.tx.proof == Some(input.proofBase64)
                  && r.value.tx.proofFacts.Some?)
  {
    hide ParseTransaction;
    hide FeltFromHex;
    hide ToHex;
    hide TxHash;
    hide BuiltFrom;
    hide InputParses;
    hide ParseAll;
    hide PlainTx;
    ParsesIs(input.base);
    ParseAllPointwise(input.proofFacts);
    var parsed, facts := ParseTransaction(input.base), ParseAll(input.proofFacts);
    if parsed.Some? && facts.Some? {
      FeltRoundTrip(parsed.value.sender);
      RenderedIsBuilt(poseidon, input.base, input.proofFacts, DEFAULT_BOUNDS, parsed.value, facts.value,
        ToHex(parsed.value.sender), [], Some(input.proofBase64), facts);
    }
    assert HexAll([]) == [];
  }

  lemma PayloadBuilt(poseidon: HashMany, sign: Signer, input: PayloadInput)
    ensures var r := BuildPayload(poseidon, sign, input);
            var defaults := ResourceBounds(
              ResourceBound(0x10000, 0x38d7ea4c68000), ResourceBound(0x7000000, 0x1dcd65000),
              ResourceBound(0x1b0, 0x38d7ea4c68000));
            && (r == Err(InvalidFeltHex)
                <==> !(InputParses(input.unsigned.base) && AllParse(input.unsigned.proofFacts)
                       && FeltFromHex(input.privateKey).Some?))
            && (r.Ok? ==>
                  && BuiltFrom(poseidon, input.unsigned.base, input.unsigned.proofFacts, defaults, r.value)
                  && SignedBy(sign, input.privateKey, r.value)
                  && r.value.tx.proof == Some(input.unsigned.proofBase64) && r.value.tx.proofFacts.Some?)
    ensures BuildPayload(poseidon, sign, input) == Err(SigningFailed) ==>
              var unsigned := BuildUnsignedPayload(poseidon, input.unsigned);
              && unsigned.Ok? && FeltFromHex(unsigned.value.txHash).Some?
              && sign(FeltFromHex(input.privateKey).value, FeltFromHex(unsigned.value.txHash).value) == None
  {
    hide ParseTransaction;
    hide FeltFromHex;
    hide ToHex;
    hide TxHash;
    hide BuiltFrom;
    hide InputParses;
    hide ParseAll;
    hide PlainTx;
    var base := input.unsigned.base;
    ParsesIs(base);
    ParseAllPointwise(input.unsigned.proofFacts);
    var parsed, facts := ParseTransaction(base), ParseAll(input.unsigned.proofFacts);
    if parsed.Some? && facts.Some? && FeltFromHex(input.privateKey).Some? {
      var p := parsed.value;
      var bounds := GetOr(base.resourceBounds, DEFAULT_BOUNDS);
      var txHash := TxHash(poseidon, PlainTx(p.sender, p.calldata, p.chainId, p.nonce, bounds, facts.value));
      FeltRoundTrip(txHash);
      FeltRoundTrip(p.sender);
      match sign(FeltFromHex(input.privateKey).value, txHash)
      case None =>
      case Some(sig) =>
        RenderedIsBuilt(poseidon, base, input.unsigned.proofFacts, DEFAULT_BOUNDS, p, facts.value, ToHex(p.sender),
          [sig.r, sig.s], Some(input.unsigned.proofBase64), facts);
        assert HexAll([sig.r, sig.s]) == [ToHex(sig.r), ToHex(sig.s)];
    }
  }
}
