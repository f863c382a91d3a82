/** The text the acceptance hash is computed over:
    `JSON.stringify({ token, timestamp, notificationId })`. Strings are
    written the way section 25.5.2 of ECMA-262 (QuoteJSONString) writes them,
    and a reader for that text shows that the three values can be read back,
    so two different acceptances never hash the same text. */
module AcceptancePayload {
  import opened Text
  import opened Notices

  const Backspace: char := '\U{0008}'
  const FormFeed: char := '\U{000C}'

  /** How one character is written inside a JSON string: quote and backslash
      escaped, the five control characters with a short escape written so,
      the other control characters as \u00XX in lower-case hex, everything
      else as itself. */
  function JsonEscapeChar(c: char): (r: string)
    ensures |r| >= 1
  {
    if c == '"' then "\\\""
    else if c == '\\' then "\\\\"
    else if c == Backspace then "\\b"
    else if c == '\t' then "\\t"
    else if c == '\n' then "\\n"
    else if c == FormFeed then "\\f"
    else if c == '\r' then "\\r"
    else if (c as int) < 0x20 then "\\u00" + [HexDigit(c as int / 16), HexDigit(c as int % 16)]
    else [c]
  }

  function JsonEscape(s: string): string {
    if s == [] then [] else JsonEscapeChar(s[0]) + JsonEscape(s[1..])
  }

  /** `JSON.stringify` of a string. */
  function JsonQuote(s: string): (r: string)
    ensures |r| >= 2 && r[0] == '"'
  {
    "\"" + JsonEscape(s) + "\""
  }

  const TokenKey: string := "{\"token\":"
  const TimestampKey: string := ",\"timestamp\":"
  const IdKey: string := ",\"notificationId\":"

  /** The serialised `acceptanceData`, keys in insertion order, no spaces. */
  function Payload(token: string, timestamp: string, notificationId: string): (r: string)
    ensures TokenKey <= r && r[|r| - 1] == '}'
  {
    var r := TokenKey + (JsonQuote(token) + (TimestampKey + (JsonQuote(timestamp) + (IdKey + (JsonQuote(notificationId) + "}")))));
    assert r[..|TokenKey|] == TokenKey;
    r
  }

  // ---------------------------------------------------------------------------
  // Reading JSON strings back

  /** Reads the escape after a backslash: the character it stands for and how
      many characters it takes. A \u escape for a surrogate is refused. */
  function ReadEscape(s: string): (r: Option<(char, nat)>)
    ensures r.Some? ==> 1 <= r.value.1 <= |s|
  {
    if s == [] then None
    else if s[0] == '"' then Some(('"', 1))
    else if s[0] == '\\' then Some(('\\', 1))
    else if s[0] == '/' then Some(('/', 1))
    else if s[0] == 'b' then Some((Backspace, 1))
    else if s[0] == 't' then Some(('\t', 1))
    else if s[0] == 'n' then Some(('\n', 1))
    else if s[0] == 'f' then Some((FormFeed, 1))
    else if s[0] == 'r' then Some(('\r', 1))
    else if s[0] == 'u' && |s| >= 5 && IsHexDigit(s[1]) && IsHexDigit(s[2]) && IsHexDigit(s[3]) && IsHexDigit(s[4]) then
      var v := 4096 * HexValue(s[1]) + 256 * HexValue(s[2]) + 16 * HexValue(s[3]) + HexValue(s[4]);
      if 0xD800 <= v <= 0xDFFF then None else Some((v as char, 5))
    else None
  }

  /** Reads the characters of a JSON string after its opening quote, up to
      the closing quote: the text it stands for and what follows the quote. */
  function ReadJsonChars(s: string): (r: Option<(string, string)>)
    ensures r.Some? ==> |r.value.1| < |s|
    decreases |s|
  {
    if s == [] then None
    else if s[0] == '"' then Some(([], s[1..]))
    else if s[0] == '\\' then
      match ReadEscape(s[1..])
      case None => None
      case Some(e) =>
        match ReadJsonChars(s[1 + e.1..])
        case None => None
        case Some(p) => Some(([e.0] + p.0, p.1))
    else if (s[0] as int) < 0x20 then None
    else
      match ReadJsonChars(s[1..])
      case None => None
      case Some(p) => Some(([s[0]] + p.0, p.1))
  }

  /** Reading the text after one written character reads that character
      first. */
  lemma ReadEscapedChar(c: char, tail: string)
    ensures ReadJsonChars(JsonEscapeChar(c) + tail) ==
              match ReadJsonChars(tail)
              case None => None
              case Some(p) => Some(([c] + p.0, p.1))
  {
    var s := JsonEscapeChar(c) + tail;
    if c == '"' || c == '\\' || c == Backspace || c == '\t' || c == '\n' || c == FormFeed || c == '\r' {
      assert s[0] == '\\' && s[1] == JsonEscapeChar(c)[1];
      assert ReadEscape(s[1..]) == Some((c, 1));
      assert s[2..] == tail;
    } else if (c as int) < 0x20 {
      var hi, lo := HexDigit(c as int / 16), HexDigit(c as int % 16);
      assert s == ['\\', 'u', '0', '0', hi, lo] + tail;
      HexDigitRoundTrip(c as int / 16);
      HexDigitRoundTrip(c as int % 16);
      assert s[1..][1] == '0' && s[1..][2] == '0' && s[1..][3] == hi && s[1..][4] == lo;
      assert ReadEscape(s[1..]) == Some((c, 5));
      assert s[6..] == tail;
    } else {
      assert s == [c] + tail;
      assert s[1..] == tail;
    }
  }

  /** Reading written characters followed by the closing quote gives them
      back, and stops right after the quote. */
  lemma {:induction false} ReadJsonCharsRoundTrip(x: string, rest: string)
    ensures ReadJsonChars(JsonEscape(x) + "\"" + rest) == Some((x, rest))
  {
    if x == [] {
      assert JsonEscape(x) + "\"" + rest == "\"" + rest;
    } else {
      var tail := JsonEscape(x[1..]) + "\"" + rest;
      assert JsonEscape(x) + "\"" + rest == JsonEscapeChar(x[0]) + tail;
      ReadJsonCharsRoundTrip(x[1..], rest);
      ReadEscapedChar(x[0], tail);
      assert [x[0]] + x[1..] == x;
    }
  }

  /** Reads the key text, then a JSON string. */
  function ReadField(s: string, key: string): (r: Option<(string, string)>)
  {
    if key <= s && |s| > |key| && s[|key|] == '"' then ReadJsonChars(s[|key| + 1..]) else None
  }

  lemma ReadFieldRoundTrip(key: string, x: string, rest: string)
    ensures ReadField(key + (JsonQuote(x) + rest), key) == Some((x, rest))
  {
    var s := key + (JsonQuote(x) + rest);
    assert s[..|key|] == key;
    assert s[|key|] == '"';
    assert s[|key| + 1..] == JsonEscape(x) + "\"" + rest;
    ReadJsonCharsRoundTrip(x, rest);
  }

  /** Reads a serialised `acceptanceData` back into its three values. */
  function ReadPayload(s: string): Option<(string, string, string)> {
    match ReadField(s, TokenKey)
    case None => None
    case Some(a) =>
      match ReadField(a.1, TimestampKey)
      case None => None
      case Some(b) =>
        match ReadField(b.1, IdKey)
        case None => None
        case Some(c) => if c.1 == "}" then Some((a.0, b.0, c.0)) else None
  }

  /** The hashed text gives back the token, the timestamp and the id it was
      made from. */
  lemma PayloadRoundTrip(token: string, timestamp: string, notificationId: string)
    ensures ReadPayload(Payload(token, timestamp, notificationId)) == Some((token, timestamp, notificationId))
  {
    var r3 := "}";
    var r2 := IdKey + (JsonQuote(notificationId) + r3);
    var r1 := TimestampKey + (JsonQuote(timestamp) + r2);
    ReadFieldRoundTrip(TokenKey, token, r1);
    ReadFieldRoundTrip(TimestampKey, timestamp, r2);
    ReadFieldRoundTrip(IdKey, notificationId, r3);
  }

  /** Different acceptances (token, clock reading or id) are serialised
      differently, so the digest is taken over different texts. */
  lemma PayloadInjective(t1: string, ts1: string, id1: string, t2: string, ts2: string, id2: string)
    requires Payload(t1, ts1, id1) == Payload(t2, ts2, id2)
    ensures t1 == t2 && ts1 == ts2 && id1 == id2
  {
    PayloadRoundTrip(t1, ts1, id1);
    PayloadRoundTrip(t2, ts2, id2);
  }
}
