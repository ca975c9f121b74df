/**
 * The pure rules of the notary routes: the constants, the canonical
 * challenge message, the validation window, the story bound and the
 * block-height range check used by the block lookup.
 */
module Challenge {
  import opened Wrappers
  import opened Decimal

  /** Largest story, in bytes as `Buffer.byteLength(story, 'ascii')` counts them. */
  const MaxStoryLength: nat := 500

  /** Seconds after issue during which a signature is accepted. */
  const ValidationWindowSecs: nat := 300

  const MessageSuffix: string := ":starRegistry"

  /** The text an address owner must sign: `<address>:<timestamp>:starRegistry`. */
  function ChallengeMessage(address: string, timestamp: string): string
  {
    address + ":" + timestamp + MessageSuffix
  }

  /** The message splits back into the address, the separator, the timestamp and the suffix. */
  lemma MessageParts(address: string, timestamp: string)
    ensures var m := ChallengeMessage(address, timestamp);
            && |m| == |address| + 1 + |timestamp| + |MessageSuffix|
            && m[..|address|] == address && m[|address|] == ':'
            && m[|address| + 1..|m| - |MessageSuffix|] == timestamp
            && m[|m| - |MessageSuffix|..] == MessageSuffix
  {
  }

  /** A stored request timestamp as the issuing handler writes it: the decimal text of an integer. */
  predicate IsTimestampText(s: string) {
    ParseInt(s).Some? && IntToDecimal(ParseInt(s).value) == s
  }

  function TimestampOf(s: string): int
    requires IsTimestampText(s)
  {
    ParseInt(s).value
  }

  /** The timestamp the issuing handler stores for clock reading `now`. */
  function TimestampText(now: int): (s: string)
    ensures IsTimestampText(s) && TimestampOf(s) == now
  {
    ParseIntRoundTrip(now);
    IntToDecimal(now)
  }

  /** The message fixes the timestamp it was built from. */
  lemma MessageDeterminesTimestamp(address: string, t1: string, t2: string)
    requires ChallengeMessage(address, t1) == ChallengeMessage(address, t2)
    ensures t1 == t2
  {
    MessageParts(address, t1);
    MessageParts(address, t2);
  }

  /** Challenges issued at different seconds for one address have different messages. */
  lemma IssuedMessagesDiffer(address: string, t1: int, t2: int)
    requires t1 != t2
    ensures ChallengeMessage(address, TimestampText(t1)) != ChallengeMessage(address, TimestampText(t2))
  {
    if ChallengeMessage(address, TimestampText(t1)) == ChallengeMessage(address, TimestampText(t2)) {
      MessageDeterminesTimestamp(address, TimestampText(t1), TimestampText(t2));
      IntToDecimalInjective(t1, t2);
    }
  }

  /**
   * The message rebuilt at validation time, from the parsed stored
   * timestamp printed again, is the message handed out at issue time.
   */
  lemma RebuiltMessageMatchesIssued(address: string, issuedAt: int)
    ensures var stored := IntToDecimal(issuedAt);
            ParseInt(stored) == Some(issuedAt)
            && ChallengeMessage(address, IntToDecimal(ParseInt(stored).value)) == ChallengeMessage(address, stored)
  {
    ParseIntRoundTrip(issuedAt);
  }

  /** A signature is still accepted when no more than the window has elapsed. */
  predicate WithinWindow(elapsed: int) {
    elapsed <= ValidationWindowSecs
  }

  /** Seconds of the window left, as reported after a check inside the window. */
  function TimeLeft(elapsed: int): (left: int)
    requires WithinWindow(elapsed)
    ensures 0 <= left
    ensures 0 <= elapsed ==> left <= ValidationWindowSecs
    ensures left == 0 <==> elapsed == ValidationWindowSecs
  {
    ValidationWindowSecs - elapsed
  }

  /** `Buffer.byteLength(story, 'ascii')` is the number of characters. */
  predicate StoryFits(story: string) {
    |story| <= MaxStoryLength
  }

  /** Accepted at exactly the window, rejected one second later, and earlier is always accepted. */
  lemma WindowEdges(earlier: int, later: int)
    requires earlier <= later
    ensures WithinWindow(ValidationWindowSecs) && !WithinWindow(ValidationWindowSecs + 1)
    ensures WithinWindow(later) ==> WithinWindow(earlier)
  {
  }

  /** A story of exactly 500 characters fits; one more does not fit. */
  lemma StoryBoundEdges(story: string, c: char)
    requires |story| == MaxStoryLength
    ensures StoryFits(story) && !StoryFits(story + [c])
  {
  }

  /** The range check of the block lookup; `lastHeight` is -1 for an empty ledger. */
  predicate HeightInRange(height: int, lastHeight: int) {
    !(height < 0 || height > lastHeight)
  }

  /** A height is in range exactly when it indexes one of the `lastHeight + 1` blocks. */
  lemma HeightInRangeIndexes(height: int, count: nat)
    ensures HeightInRange(height, count - 1) <==> 0 <= height < count
  {
  }
}
