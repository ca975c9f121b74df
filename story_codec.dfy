/**
 * The persisted form of a star's story. On write the story becomes bytes the
 * way `Buffer.from(story, 'ascii')` makes them (each character keeps its low
 * eight bits) and the bytes become lower-case hex; on read the hex becomes
 * bytes again and the bytes become text through a UTF-8 decode.
 */
module StoryCodec {

  type byte = b: int | 0 <= b < 256

  predicate IsAscii(s: string) {
    forall i | 0 <= i < |s| :: s[i] as int < 128
  }

  predicate IsHexDigit(c: char) {
    '0' <= c <= '9' || 'a' <= c <= 'f' || 'A' <= c <= 'F'
  }

  predicate IsLowerHexDigit(c: char) {
    '0' <= c <= '9' || 'a' <= c <= 'f'
  }

  function HexDigitValue(c: char): (v: nat)
    requires IsHexDigit(c)
    ensures v < 16
  {
    if c <= '9' then c as int - '0' as int
    else if c >= 'a' then c as int - 'a' as int + 10
    else c as int - 'A' as int + 10
  }

  /** The lower-case hex digit for a value below sixteen. */
  function HexChar(d: nat): (c: char)
    requires d < 16
    ensures IsLowerHexDigit(c) && IsHexDigit(c) && HexDigitValue(c) == d
  {
    if d < 10 then ('0' as int + d) as char else ('a' as int + d - 10) as char
  }

  /** `Buffer.from(s, 'ascii')`: one byte per character, its low eight bits. */
  function AsciiBytes(s: string): (bytes: seq<byte>)
    ensures |bytes| == |s|
    ensures IsAscii(s) ==> forall i | 0 <= i < |s| :: bytes[i] == s[i] as int
  {
    seq(|s|, i requires 0 <= i < |s| => s[i] as int % 256)
  }

  /**
   * `buffer.toString()` on bytes read back one at a time: a byte below 0x80
   * is its own character, any other byte the replacement character.
   * Well-formed multi-byte UTF-8 sequences are not decoded.
   */
  function ByteToChar(b: byte): (c: char)
    ensures c as int < 128 || c == '\U{FFFD}'
    ensures b < 128 ==> c as int == b
  {
    if b < 128 then b as char else '\U{FFFD}'
  }

  function BytesToText(bytes: seq<byte>): (text: string)
    ensures |text| == |bytes|
    ensures forall i | 0 <= i < |text| :: text[i] as int < 128 || text[i] == '\U{FFFD}'
  {
    seq(|bytes|, i requires 0 <= i < |bytes| => ByteToChar(bytes[i]))
  }

  /** `buffer.toString('hex')`: two lower-case hex digits per byte, high nibble first. */
  function HexEncode(bytes: seq<byte>): (h: string)
    ensures |h| == 2 * |bytes|
    ensures forall i | 0 <= i < |h| :: IsLowerHexDigit(h[i])
  {
    if bytes == [] then ""
    else [HexChar(bytes[0] / 16), HexChar(bytes[0] % 16)] + HexEncode(bytes[1..])
  }

  /**
   * `Buffer.from(h, 'hex')`: one byte per pair of hex digits (either case),
   * stopping at the first pair that is not two hex digits; an odd last
   * character is dropped.
   */
  function HexDecode(h: string): (bytes: seq<byte>)
    ensures |bytes| <= |h| / 2
  {
    if |h| >= 2 && IsHexDigit(h[0]) && IsHexDigit(h[1]) then
      [HexDigitValue(h[0]) * 16 + HexDigitValue(h[1])] + HexDecode(h[2..])
    else []
  }

  /** The story as it is written to the ledger. */
  function EncodeStory(story: string): (h: string)
    ensures |h| == 2 * |story|
    ensures forall i | 0 <= i < |h| :: IsLowerHexDigit(h[i])
  {
    HexEncode(AsciiBytes(story))
  }

  /** The story as it is served back to a reader. */
  function DecodeStory(h: string): (story: string)
    ensures |story| <= |h| / 2
  {
    BytesToText(HexDecode(h))
  }

  lemma {:induction false} HexRoundTrip(bytes: seq<byte>)
    ensures HexDecode(HexEncode(bytes)) == bytes
  {
    if bytes != [] {
      var b := bytes[0];
      var h := HexEncode(bytes);
      assert h[2..] == HexEncode(bytes[1..]);
      assert HexDigitValue(h[0]) * 16 + HexDigitValue(h[1]) == b;
      HexRoundTrip(bytes[1..]);
    }
  }

  /** ASCII text survives the trip through bytes. */
  lemma AsciiTextRoundTrip(s: string)
    requires IsAscii(s)
    ensures BytesToText(AsciiBytes(s)) == s
  {
  }

  /** An ASCII story reads back exactly as it was written. */
  lemma StoryRoundTrip(story: string)
    requires IsAscii(story)
    ensures DecodeStory(EncodeStory(story)) == story
  {
    HexRoundTrip(AsciiBytes(story));
    AsciiTextRoundTrip(story);
  }

  /** The story "hi" is stored as "6869". */
  lemma EncodeHi()
    ensures EncodeStory("hi") == "6869"
  {
  }

  /** A character outside ASCII does not survive: U+00E9 reads back as U+FFFD. */
  lemma NonAsciiStoryIsReplaced()
    ensures DecodeStory(EncodeStory("\U{00E9}")) == "\U{FFFD}"
  {
  }
}
