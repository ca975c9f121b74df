/**
 * The star notary behind the HTTP routes: a registry of pending address
 * validations and an append-only ledger of star claims, with one method per
 * handler. The clock reading is the parameter `now`; the signature check
 * of `bitcoinjs-message` is the parameter `verify`.
 */
module Notary {
  import opened Wrappers
  import opened Decimal
  import opened StoryCodec
  import opened Challenge

  /** A pending validation: when the challenge was issued, and whether a signature was accepted. */
  datatype Request = Request(requestTimestamp: string, requestValidated: bool)

  /** A star claim: its metadata fields, opaque here, and its story. */
  datatype Star = Star(meta: map<string, string>, story: string)

  datatype Body = Body(address: string, star: Star)

  datatype Block = Block(height: nat, body: Body)

  datatype Error =
    | NoAddress          // "No address provided"
    | MissingParameters  // "Missing required parameters"
    | StoryTooLong       // "Star story must be 250 words or less"
    | RequestNotFound    // the registry has no entry for the address
    | WindowExpired      // "Validation window expired"
    | InvalidBlock(height: int)

  /** The reply to a challenge request. */
  datatype Issued = Issued(address: string, requestTimestamp: string, message: string, validationWindow: int)

  /** The reply to a signature check made inside the window. */
  datatype Verdict = Verdict(
    registerStar: bool,
    address: string,
    requestTimestamp: int,
    message: string,
    validationWindow: int,
    messageSignature: string)

  /** `bitcoinMessage.verify(message, address, signature)`. */
  type Verifier = (string, string, string) -> bool

  /** The body the ledger stores for a claim: the story in its hex form. */
  function EncodeBody(address: string, star: Star): (body: Body)
    ensures body.address == address && body.star.meta == star.meta
    ensures |body.star.story| == 2 * |star.story|
  {
    Body(address, star.(story := EncodeStory(star.story)))
  }

  /** The body served to a reader: the stored story decoded. */
  function DecodeBody(body: Body): (served: Body)
    ensures served.address == body.address && served.star.meta == body.star.meta
    ensures |served.star.story| <= |body.star.story| / 2
  {
    body.(star := body.star.(story := DecodeStory(body.star.story)))
  }

  /** A claim with an ASCII story is served back exactly as it was submitted. */
  lemma StoredBodyReadsBack(address: string, star: Star)
    requires IsAscii(star.story)
    ensures DecodeBody(EncodeBody(address, star)) == Body(address, star)
  {
    StoryRoundTrip(star.story);
  }

  /** A star's stored story is lower-case hex, two digits per character of the submitted story. */
  lemma StoredStoryIsHex(address: string, star: Star)
    ensures var stored := EncodeBody(address, star).star.story;
            |stored| == 2 * |star.story| && forall i | 0 <= i < |stored| :: IsLowerHexDigit(stored[i])
  {
  }

  ghost predicate StampsWellFormed(registry: map<string, Request>) {
    forall a | a in registry :: IsTimestampText(registry[a].requestTimestamp)
  }

  /** Writing an entry whose timestamp is well formed keeps every timestamp well formed. */
  lemma StampsKept(registry: map<string, Request>, address: string, entry: Request)
    requires StampsWellFormed(registry) && IsTimestampText(entry.requestTimestamp)
    ensures StampsWellFormed(registry[address := entry])
  {
  }

  class StarNotary {
    /** Pending validations by address. */
    var registry: map<string, Request>
    /** The ledger's block bodies; the body at index h is the block at height h. */
    var ledger: seq<Body>

    /** No entry for the empty address, and every stored timestamp is the decimal text of an integer. */
    ghost predicate Valid()
      reads this
    {
      "" !in registry && StampsWellFormed(registry)
    }

    /** A notary over the blocks already in the ledger, with no pending validation. */
    constructor (blocks: seq<Body>)
      ensures Valid()
      ensures registry == map[] && ledger == blocks
    {
      registry := map[];
      ledger := blocks;
    }

    /** `getLastBlockHeight()`: -1 when the ledger holds no block. */
    function LastBlockHeight(): (h: int)
      reads this
      ensures -1 <= h
      ensures h == -1 <==> ledger == []
    {
      |ledger| - 1
    }

    /** POST /requestValidation: open (or reopen) the challenge for `address`. */
    method RequestValidation(address: string, now: int) returns (r: Result<Issued, Error>)
      requires Valid()
      modifies this
      ensures Valid() && ledger == old(ledger)
      ensures address == "" ==> r == Failure(NoAddress) && registry == old(registry)
      ensures address != "" ==>
        var stamp := TimestampText(now);
        && r == Success(Issued(address, stamp, ChallengeMessage(address, stamp), ValidationWindowSecs))
        && registry == old(registry)[address := Request(stamp, false)]
    {
      if address == "" {
        return Failure(NoAddress);
      }
      var requestTimestamp := TimestampText(now);
      var requestData := Request(requestTimestamp, false);
      registry := registry[address := requestData];
      r := Success(Issued(address, requestTimestamp, ChallengeMessage(address, requestTimestamp), ValidationWindowSecs));
    }

    /**
     * POST /message-signature/validate: check the signature against the
     * challenge while the window is open, and write the outcome back into
     * the entry whether or not the window is still open.
     */
    method Validate(address: string, signature: string, now: int, verify: Verifier)
      returns (r: Result<Verdict, Error>)
      requires Valid()
      modifies this
      ensures Valid() && ledger == old(ledger)
      ensures (address == "" || signature == "") ==> r == Failure(MissingParameters) && registry == old(registry)
      ensures address != "" && signature != "" && address !in old(registry) ==>
        r == Failure(RequestNotFound) && registry == old(registry)
      ensures address != "" && signature != "" && address in old(registry) ==>
        var req := old(registry)[address];
        var issuedAt := TimestampOf(req.requestTimestamp);
        var elapsed := now - issuedAt;
        var message := ChallengeMessage(address, req.requestTimestamp);
        var verified := verify(message, address, signature);
        && (WithinWindow(elapsed) ==>
              r == Success(Verdict(verified, address, issuedAt, message, TimeLeft(elapsed),
                                   if verified then "valid" else "invalid")))
        && (!WithinWindow(elapsed) ==> r == Failure(WindowExpired))
        && registry == old(registry)[address := Request(req.requestTimestamp, r.Success? && verified)]
    {
      if address == "" || signature == "" {
        return Failure(MissingParameters);
      }
      if address !in registry {
        return Failure(RequestNotFound);
      }
      var data := registry[address];
      var signatureVerified := false;
      var parsed := ParseInt(data.requestTimestamp);
      assert parsed == Some(TimestampOf(data.requestTimestamp));
      // A timestamp that does not parse is NaN, and `NaN <= 300` is false.
      if parsed.Some? && now - parsed.value <= ValidationWindowSecs {
        var requestTimestamp := parsed.value;
        var elapsed := now - requestTimestamp;
        var message := ChallengeMessage(address, IntToDecimal(requestTimestamp));
        assert message == ChallengeMessage(address, data.requestTimestamp);
        signatureVerified := verify(message, address, signature);
        var messageSignature := if signatureVerified then "valid" else "invalid";
        r := Success(Verdict(signatureVerified, address, requestTimestamp, message,
                             TimeLeft(elapsed), messageSignature));
      } else {
        r := Failure(WindowExpired);
      }
      StampsKept(registry, address, Request(data.requestTimestamp, signatureVerified));
      registry := registry[address := Request(data.requestTimestamp, signatureVerified)];
    }

    /**
     * POST /block: append the claim with its story hex-encoded and retire
     * the address's pending entry. Whether the entry was validated is not
     * looked at.
     */
    method RegisterStar(address: string, star: Option<Star>) returns (r: Result<Block, Error>)
      requires Valid()
      modifies this
      ensures Valid()
      ensures (address == "" || star.None?) ==>
        r == Failure(MissingParameters) && registry == old(registry) && ledger == old(ledger)
      ensures address != "" && star.Some? && !StoryFits(star.value.story) ==>
        r == Failure(StoryTooLong) && registry == old(registry) && ledger == old(ledger)
      ensures address != "" && star.Some? && StoryFits(star.value.story) && address !in old(registry) ==>
        r == Failure(RequestNotFound) && registry == old(registry) && ledger == old(ledger)
      ensures address != "" && star.Some? && StoryFits(star.value.story) && address in old(registry) ==>
        var body := EncodeBody(address, star.value);
        && r == Success(Block(|old(ledger)|, body))
        && ledger == old(ledger) + [body]
        && registry == old(registry) - {address}
    {
      if address == "" || star.None? {
        return Failure(MissingParameters);
      }
      if |star.value.story| > MaxStoryLength {
        return Failure(StoryTooLong);
      }
      if address !in registry {
        return Failure(RequestNotFound);
      }
      var encodedStory := EncodeStory(star.value.story);
      var body := Body(address, star.value.(story := encodedStory));
      var height := |ledger|;
      ledger := ledger + [body];
      r := Success(Block(height, body));
      registry := registry - {address};
    }

    /** GET /block/:height: the block at `height`, its story decoded, if the height is in range. */
    method GetBlock(height: int) returns (r: Result<Block, Error>)
      ensures r.Success? <==> 0 <= height <= LastBlockHeight()
      ensures r.Success? ==> r.value == Block(height, DecodeBody(ledger[height]))
      ensures r.Failure? ==> r.error == InvalidBlock(height)
    {
      var lastBlockHeight := LastBlockHeight();
      if !HeightInRange(height, lastBlockHeight) {
        return Failure(InvalidBlock(height));
      }
      var block := Block(height, ledger[height]);
      var decodedStory := DecodeStory(block.body.star.story);
      r := Success(block.(body := block.body.(star := block.body.star.(story := decodedStory))));
    }
  }

  /**
   * A challenge answered inside the window: the signature is checked
   * against the issued message and the outcome is recorded in the entry.
   */
  method IssueThenValidate(
    notary: StarNotary, address: string, signature: string, issuedAt: int, now: int, verify: Verifier)
    returns (verdict: Result<Verdict, Error>)
    requires notary.Valid()
    requires address != "" && signature != ""
    requires 0 <= now - issuedAt <= ValidationWindowSecs
    modifies notary
    ensures notary.Valid() && notary.ledger == old(notary.ledger)
    ensures var message := ChallengeMessage(address, TimestampText(issuedAt));
            verdict.Success? && verdict.value.message == message
            && verdict.value.registerStar == verify(message, address, signature)
            && verdict.value.validationWindow == ValidationWindowSecs - (now - issuedAt)
    ensures address in notary.registry
    ensures notary.registry[address] == Request(TimestampText(issuedAt), verdict.value.registerStar)
  {
    var issued := notary.RequestValidation(address, issuedAt);
    verdict := notary.Validate(address, signature, now, verify);
  }

  /**
   * A pending address registers an ASCII star of allowed length: the block
   * lands at the next height, reads back as submitted, and a second
   * registration without a new challenge finds no entry.
   */
  method RegisterThenRead(notary: StarNotary, address: string, star: Star)
    returns (registered: Result<Block, Error>, read: Result<Block, Error>, again: Result<Block, Error>)
    requires notary.Valid() && address in notary.registry
    requires IsAscii(star.story) && StoryFits(star.story)
    modifies notary
    ensures notary.Valid()
    ensures registered == Success(Block(old(|notary.ledger|), EncodeBody(address, star)))
    ensures notary.LastBlockHeight() == old(notary.LastBlockHeight()) + 1
    ensures read == Success(Block(old(|notary.ledger|), Body(address, star)))
    ensures again == Failure(RequestNotFound)
    ensures notary.ledger == old(notary.ledger) + [EncodeBody(address, star)]
  {
    registered := notary.RegisterStar(address, Some(star));
    read := notary.GetBlock(registered.value.height);
    StoredBodyReadsBack(address, star);
    again := notary.RegisterStar(address, Some(star));
  }

  /**
   * Requesting twice discards the first challenge: validation checks the
   * signature against the second message, which differs from the first.
   */
  method ReissueDiscardsFirst(
    notary: StarNotary, address: string, signature: string,
    first: int, second: int, now: int, verify: Verifier)
    returns (issued1: Result<Issued, Error>, issued2: Result<Issued, Error>, verdict: Result<Verdict, Error>)
    requires notary.Valid()
    requires address != "" && signature != "" && first != second
    requires 0 <= now - second <= ValidationWindowSecs
    modifies notary
    ensures issued1.Success? && issued2.Success? && verdict.Success?
    ensures verdict.value.message == issued2.value.message != issued1.value.message
    ensures verdict.value.requestTimestamp == second
    ensures verdict.value.registerStar == verify(issued2.value.message, address, signature)
  {
    issued1 := notary.RequestValidation(address, first);
    issued2 := notary.RequestValidation(address, second);
    verdict := notary.Validate(address, signature, now, verify);
    IssuedMessagesDiffer(address, first, second);
  }

  /**
   * The window boundary: a signature checked exactly 300 seconds after
   * issue is accepted; checked one second later it is rejected and the
   * entry is marked not validated.
   */
  method WindowBoundary(address: string, signature: string, issuedAt: int)
    returns (atLimit: Result<Verdict, Error>, pastLimit: Result<Verdict, Error>, validatedAfter: bool)
    requires address != "" && signature != ""
    ensures atLimit.Success? && atLimit.value.registerStar && atLimit.value.validationWindow == 0
    ensures pastLimit == Failure(WindowExpired)
    ensures !validatedAfter
  {
    var notary := new StarNotary([]);
    var issued := notary.RequestValidation(address, issuedAt);
    var accepting: Verifier := (m, a, s) => true;
    atLimit := notary.Validate(address, signature, issuedAt + ValidationWindowSecs, accepting);
    pastLimit := notary.Validate(address, signature, issuedAt + ValidationWindowSecs + 1, accepting);
    validatedAfter := notary.registry[address].requestValidated;
  }

  /**
   * Challenge, signature, registration and read-back for address "A1" and
   * story "hi". The ledger starts with no blocks, because genesis creation
   * is not modelled, so the star lands at height 0; in a running system the
   * genesis block holds height 0 and the first star comes after it.
   */
  method StoryScenario(signature: string, issuedAt: int, now: int, verify: Verifier)
    returns (verdict: Result<Verdict, Error>, block: Result<Block, Error>, read: Result<Block, Error>)
    requires signature != ""
    requires 0 <= now - issuedAt <= ValidationWindowSecs
    requires verify(ChallengeMessage("A1", TimestampText(issuedAt)), "A1", signature)
    ensures verdict.Success? && verdict.value.registerStar
    ensures block.Success? && block.value.height == 0 && block.value.body.address == "A1"
    ensures block.value.body.star.story == "6869"
    ensures read.Success? && read.value.body.star.story == "hi"
  {
    var notary := new StarNotary([]);
    verdict := IssueThenValidate(notary, "A1", signature, issuedAt, now, verify);
    var star := Star(map[], "hi");
    assert IsAscii(star.story) && StoryFits(star.story);
    var again;
    block, read, again := RegisterThenRead(notary, "A1", star);
    EncodeHi();
  }

  /**
   * The validated flag is not consulted: an address that asked for a
   * challenge and never answered it still registers a star, and its entry
   * is gone afterwards.
   */
  method RegisterWithoutValidation(notary: StarNotary, address: string, star: Star, now: int)
    returns (block: Result<Block, Error>)
    requires notary.Valid() && address != "" && StoryFits(star.story)
    modifies notary
    ensures notary.Valid()
    ensures block == Success(Block(old(|notary.ledger|), EncodeBody(address, star)))
    ensures address !in notary.registry
  {
    var issued := notary.RequestValidation(address, now);
    assert !notary.registry[address].requestValidated;
    block := notary.RegisterStar(address, Some(star));
  }

  /** A lookup five past the last height is out of range, whatever the ledger holds. */
  method LookupBeyondLast(notary: StarNotary) returns (beyond: Result<Block, Error>)
    ensures beyond == Failure(InvalidBlock(notary.LastBlockHeight() + 5))
  {
    beyond := notary.GetBlock(notary.LastBlockHeight() + 5);
  }
}
