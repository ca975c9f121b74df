# Star notary: pending validations and star registration

A model of the notary routes of a private star-registry blockchain
(`src/controllers/routes.js`). An address owner asks for a challenge, signs the
challenge message off-line, has the signature checked within a 300-second
window, and then registers a star claim, which is appended to the ledger with
its story hex-encoded; anyone can read a block back by height with its story
decoded.

Under the HTTP framing the routes hold:

- a **pending-validation registry**, a map from address to
  `{requestTimestamp, requestValidated}`, written by
  `POST /requestValidation`, `POST /message-signature/validate` and
  `POST /block`;
- an **append-only ledger** of `{address, star}` bodies, appended to by
  `POST /block` and read by `GET /block/:height`;
- pure rules: the canonical message `<address>:<timestamp>:starRegistry`, the
  window arithmetic, the 500-byte story bound, the hex story encoding and the
  height range check.

Modules:

- `Wrappers` (`wrappers.dfy`): `Option` and `Result`.
- `Decimal` (`decimal.dfy`): printing an integer in decimal, and `parseInt(s, 10)`
  (leading white space, optional sign, longest digit run, NaN as `None`), with
  the round trip between them.
- `StoryCodec` (`story_codec.dfy`): `Buffer.from(story, 'ascii')`, hex encoding,
  hex decoding and the UTF-8 decode of the bytes read back.
- `Challenge` (`challenge.dfy`): `MAX_STORY_LENGTH`, `VALIDATION_WINDOW_SECS`,
  the challenge message, the window and the story bound.
- `Notary` (`notary.dfy`): class `StarNotary` with fields `registry` and
  `ledger` and one method per route, plus client methods that exercise the
  routes in sequence.

The clock is the parameter `now` (seconds since the epoch). The signature check
`bitcoinMessage.verify(message, address, signature)` is the function parameter
`verify`. The store behind `starRequestData.js` is the map field `registry`; the
chain behind `blockchain.js` is the sequence field `ledger`, where the body at
index h is the block at height h, and `getLastBlockHeight()` is `|ledger| - 1`.
Neither file is part of this model. A missing registry entry is modelled as the
`RequestNotFound` error, with nothing written. For the signature check this holds
whatever `getStarRequest` does with an unknown address: if it rejects, the
request ends in the generic server error, and if it resolved with no data,
reading `data.requestTimestamp` (routes.js:62) would throw into the same error,
before the write at routes.js:88. For star registration it rests on an
assumption about `starRequestData.js`, which is not part of this model: the
handler (routes.js:110-126) never reads `data`, so only `getStarRequest`
rejecting an unknown address stops a registration that had no challenge. The
`RequestNotFound` branch of `Notary.StarNotary.RegisterStar`, and the failed
second registration in `Notary.RegisterThenRead`, depend on that assumption.

In these places the model follows the code as written:

- On an expired window the code still writes the entry back with
  `requestValidated = false` (routes.js:85-88). It does not leave it untouched.
- The validated flag is written with whatever `verify` returned, including `false`.
- `POST /block` never reads `requestValidated`; the check is commented out
  (routes.js:112-116).
- The timestamp is stored as the decimal text `moment().format('X')` prints,
  and it is parsed back with `parseInt` at validation time (routes.js:31, 62).

## Model

| member | source | states |
|---|---|---|
| `Notary.StarNotary.constructor` | src/controllers/routes.js:9 | a notary over the blocks already in the ledger, with an empty registry; the invariant holds |
| `Notary.StarNotary.RequestValidation` | src/controllers/routes.js:23-47 | an empty address fails with `NoAddress` and changes nothing; otherwise the entry for the address becomes `{decimal(now), false}`, replacing any earlier one, every other entry is unchanged, and the reply carries the timestamp text, the message `address:timestamp:starRegistry` and the window 300 |
| `Notary.StarNotary.Validate` | src/controllers/routes.js:49-94 | a missing address or signature fails; an address with no entry fails with `RequestNotFound`; both leave the registry alone; otherwise elapsed = now - stored timestamp, and the call succeeds iff elapsed <= 300, checking `verify` against the issued message and reporting 300 - elapsed left; else `WindowExpired`. Either way the entry keeps its timestamp, its flag becomes the verify outcome (`false` on expiry), and no other entry changes |
| `Notary.StarNotary.RegisterStar` | src/controllers/routes.js:96-132 | a missing address or star fails; a story over 500 characters fails with `StoryTooLong` before any lookup; an address with no entry fails with `RequestNotFound`; none of these changes anything. Otherwise exactly one body `{address, star with hex story}` is appended at height old length, it is returned, and the address leaves the registry, whatever its validated flag |
| `Notary.StarNotary.LastBlockHeight` | src/controllers/routes.js:137 | `getLastBlockHeight()`: at least -1, and -1 exactly when the ledger holds no block |
| `Notary.EncodeBody` | src/controllers/routes.js:118-120 | the appended body keeps the address and the star's metadata, and its story is the hex story, twice as long; read back by `Notary.StoredBodyReadsBack` |
| `Notary.DecodeBody` | src/controllers/routes.js:147-150 | the served body keeps the address and metadata, with the story decoded to at most half the stored length; inverse of `Notary.EncodeBody` for ASCII stories by `Notary.StoredBodyReadsBack` |
| `Notary.StarNotary.GetBlock` | src/controllers/routes.js:134-159 | succeeds iff 0 <= height <= last height, with the block at that height and its story decoded; otherwise `InvalidBlock(height)`; the ledger is not changed |
| `Notary.IssueThenValidate` | src/controllers/routes.js:31-88 | a challenge answered within the window yields a verdict on exactly the issued message, with 300 - elapsed left, and the entry records that verdict under the issued timestamp |
| `Notary.ReissueDiscardsFirst` | src/controllers/routes.js:31-68 | after two challenges for one address at different seconds, validation checks the second message, which differs from the first |
| `Notary.WindowBoundary` | src/controllers/routes.js:13-88 | validation 300 seconds after issue is accepted with 0 seconds left; at 301 it fails with `WindowExpired` and the entry is left not validated |
| `Notary.RegisterThenRead` | src/controllers/routes.js:110-150 | registering an ASCII story of allowed length appends one block at the next height, the last height grows by one, the block reads back exactly as submitted, and a second registration without a new challenge fails with `RequestNotFound` |
| `Notary.RegisterWithoutValidation` | src/controllers/routes.js:110-127 | an address that asked for a challenge and never validated still registers, and its entry is removed |
| `Notary.StoryScenario` | src/controllers/routes.js:23-152 | challenge, valid signature, registration of story "hi" for "A1" at height 0 (stored as "6869") and read-back of "hi" |
| `Notary.LookupBeyondLast` | src/controllers/routes.js:139-143 | a lookup five past the last height fails with `InvalidBlock` |
| `Notary.StoredBodyReadsBack` | src/controllers/routes.js:118-150 | a body stored with an ASCII story decodes back to the submitted body |
| `Notary.StoredStoryIsHex` | src/controllers/routes.js:118-119 | the stored story is lower-case hex, two digits per character submitted |
| `Challenge.TimestampText` | src/controllers/routes.js:31 | the stored timestamp text parses back to `now` and is the canonical text of that number |
| `Challenge.MessageParts` | src/controllers/routes.js:39 | the message splits back into address, ':', timestamp and ':starRegistry' |
| `Challenge.MessageDeterminesTimestamp` | src/controllers/routes.js:39 | for one address, equal messages come from equal timestamps |
| `Challenge.IssuedMessagesDiffer` | src/controllers/routes.js:31-39 | challenges issued at different seconds for one address have different messages |
| `Challenge.RebuiltMessageMatchesIssued` | src/controllers/routes.js:31-66 | the message rebuilt from the parsed stored timestamp equals the message handed out at issue |
| `Challenge.ChallengeMessage` | src/controllers/routes.js:39 | the template `address:timestamp:starRegistry`, also rebuilt at routes.js:66; its parts are recovered by `Challenge.MessageParts` and it determines its timestamp by `Challenge.MessageDeterminesTimestamp` |
| `Challenge.WithinWindow` | src/controllers/routes.js:65 | the window test `elapsed <= 300`; its edges and monotonicity are stated by `Challenge.WindowEdges` |
| `Challenge.WindowEdges` | src/controllers/routes.js:65 | elapsed 300 is inside the window, 301 is outside, and a smaller elapsed time is inside whenever a larger one is |
| `Challenge.StoryFits` | src/controllers/routes.js:104 | the story bound, with `Buffer.byteLength(story, 'ascii')` as the character count; its edges are stated by `Challenge.StoryBoundEdges` |
| `Challenge.StoryBoundEdges` | src/controllers/routes.js:104 | a story of exactly 500 characters fits and one of 501 does not |
| `Challenge.HeightInRange` | src/controllers/routes.js:139 | the range test of the block lookup; `Challenge.HeightInRangeIndexes` ties it to the heights that index a block |
| `Challenge.HeightInRangeIndexes` | src/controllers/routes.js:137-139 | with last height `count - 1`, a height passes the test exactly when `0 <= height < count` |
| `Challenge.TimeLeft` | src/controllers/routes.js:63-77 | inside the window the time left is non-negative, at most 300 when elapsed >= 0, and 0 exactly at elapsed 300 |
| `Decimal.NatToDecimal` | src/controllers/routes.js:31 | the decimal text is non-empty, all digits, and has no leading zero |
| `Decimal.IntToDecimal` | src/controllers/routes.js:66 | the text is non-empty and starts with '-' exactly for negative numbers |
| `Decimal.DigitPrefixLength` | src/controllers/routes.js:62 | the digit run `parseInt` reads is all digits and maximal |
| `Decimal.ParseInt` | src/controllers/routes.js:62 | `parseInt(s, 10)`, also used at routes.js:19: a number exactly when a digit follows the leading white space and an optional sign, negative only after a '-'; partners `Decimal.ParseIntRoundTrip` and `Decimal.DigitsParse` |
| `Decimal.ValueOfDecimal` | src/controllers/routes.js:62 | the digits printed for n denote n |
| `Decimal.DigitsParse` | src/controllers/routes.js:18-21 | a route height of digits parses to the value of those digits |
| `Decimal.ParseIntRoundTrip` | src/controllers/routes.js:62-66 | `parseInt` of the decimal text of any integer gives that integer |
| `Decimal.IntToDecimalInjective` | src/controllers/routes.js:66 | distinct integers print differently |
| `StoryCodec.AsciiBytes` | src/controllers/routes.js:118 | `Buffer.from(story, 'ascii')`: one byte per character, equal to the character for ASCII text; undone by `StoryCodec.AsciiTextRoundTrip` |
| `StoryCodec.ByteToChar` | src/controllers/routes.js:148 | a byte below 0x80 reads as itself, and anything else reads as U+FFFD |
| `StoryCodec.BytesToText` | src/controllers/routes.js:148 | `toString()` of the decoded bytes: one character per byte, each ASCII or U+FFFD; inverse of `StoryCodec.AsciiBytes` on ASCII text by `StoryCodec.AsciiTextRoundTrip` |
| `StoryCodec.HexEncode` | src/controllers/routes.js:118 | two lower-case hex digits per byte |
| `StoryCodec.HexDecode` | src/controllers/routes.js:147 | at most one byte per two characters |
| `StoryCodec.EncodeStory` | src/controllers/routes.js:118 | the stored story has twice the length of the story and is lower-case hex |
| `StoryCodec.DecodeStory` | src/controllers/routes.js:147-148 | the served story has at most half the length of the stored text; inverse of `StoryCodec.EncodeStory` on ASCII stories by `StoryCodec.StoryRoundTrip` |
| `StoryCodec.HexRoundTrip` | src/controllers/routes.js:118-148 | hex decoding undoes hex encoding for every byte sequence |
| `StoryCodec.AsciiTextRoundTrip` | src/controllers/routes.js:118-148 | ASCII text survives the conversion to bytes and back |
| `StoryCodec.StoryRoundTrip` | src/controllers/routes.js:118-148 | an ASCII story decodes back to itself |
| `StoryCodec.EncodeHi` | src/controllers/routes.js:118 | "hi" is stored as "6869" |
| `StoryCodec.NonAsciiStoryIsReplaced` | src/controllers/routes.js:118-148 | a story "é" reads back as the replacement character |

## Left out

- HTTP plumbing: routing, status codes, the JSON envelopes `getBlockResponse`/`getErrorResponse`, the error texts and `next(...)` logging. Outcomes are the `Result` and `Error` values.
- `bitcoinjs-message` signature verification: a foreign cryptographic call, passed in as the parameter `verify`, a total function. An exception thrown by `bitcoinMessage.verify` (routes.js:67) is not modelled; in the source it goes to the `.catch` at routes.js:90-92, answers with the server error and skips the write at routes.js:88, leaving the entry untouched, whereas `Notary.StarNotary.Validate` always writes the flag.
- `moment` clock reads: passed in as `now`.
- Persistence in `starRequestData.js` and block hashing, linking, timestamps and genesis creation in `blockchain.js`: neither file is part of this model. Store failures, and the generic server error they cause, are not modelled.
- Asynchronous ordering: `addBlock` at routes.js:120 is not awaited, so the delete at routes.js:127 runs whether or not the append succeeds. The model runs each handler as sequential steps that both succeed.
- Concurrent requests: each request runs to completion before the next one starts. In the source, handlers interleave at every promise step, and two such interleavings are not modelled. First, two `POST /block` calls for one address can both pass `getStarRequest` (routes.js:110) before either delete at routes.js:127 runs, so one challenge registers two stars. `Notary.RegisterThenRead` proves that a second registration fails only for calls made one after the other. Second, a signature check writes back the `data` it read at routes.js:59 at routes.js:88. If a new challenge is stored at routes.js:34 in between, that write restores the old timestamp. `Notary.ReissueDiscardsFirst` describes only challenges and checks that do not overlap.
- Request fields of other JSON types (numbers, objects, `null`) are not modelled: address and signature are strings, with "" standing for a missing field, and a missing star is `None`. A star without a `story` field, which makes `Buffer.byteLength` throw, is not modelled either.
- Number precision: integers are unbounded, so `parseInt` of more than 2^53 and the exponent form JavaScript prints for numbers of 10^21 and more are not modelled. `-0` is not modelled.
- `Notary.StarNotary.GetBlock`: takes the height already converted by `convertHeightToInt`; the route admits only digit strings (see `Decimal.DigitsParse`).
- `StoryCodec.ByteToChar`: the UTF-8 decode of `toString()` is modelled only for bytes read back one by one: bytes below 0x80 are themselves and every other byte is U+FFFD. Well-formed multi-byte UTF-8 sequences, which arise only from non-ASCII stories, are not decoded.
- `StoryCodec.AsciiBytes`: takes the low eight bits of each Unicode scalar value. Node works on UTF-16 code units, which differ for characters beyond U+FFFF.
- `Challenge.StoryFits`: counts Unicode characters, whereas `Buffer.byteLength(s, 'ascii')` counts UTF-16 code units. The two counts differ for characters beyond U+FFFF.
- The in-place rewrite of `star.story` on the request object (routes.js:119) and of the fetched block (routes.js:150) is modelled by new values. The rewritten objects are only passed on: `addBlock` stores the rewritten star (routes.js:120) and the response serialises the decoded block (routes.js:152). The model passes the same values on. Aliasing between the fetched block and a copy that `blockchain.js` might keep is not modelled; if that file returned its own stored object, a second read would hex-decode a story that was already decoded.
