// JSON tokens and what a character sequence reads as, token by token
// (tinfra/json.cpp, class json_lexer). Characters are single bytes.
module JsonSpec {

  datatype Token =
    | ObjectBegin
    | ObjectEnd
    | ArrayBegin
    | ArrayEnd
    | Comma
    | Colon
    | Str(s: string)
    | IntTok(text: string)
    | DoubleTok(text: string)
    | TrueTok
    | FalseTok
    | NullTok

  predicate Space(c: char) { c == ' ' || c == '\t' || c == '\r' || c == '\n' }

  predicate Digit(c: char) { '0' <= c <= '9' }

  predicate NumberChar(c: char) {
    Digit(c) || c == '-' || c == '+' || c == '.' || c == 'e' || c == 'E'
  }

  // The scanned text of one token and the characters after it.
  datatype Scan = Scanned(text: string, rest: string) | ScanError

  predicate HexDigit(c: char) { Digit(c) || 'a' <= c <= 'f' || 'A' <= c <= 'F' }

  function HexValue(c: char): (n: nat)
    ensures n < 16
  {
    if Digit(c) then c as int - '0' as int
    else if 'a' <= c <= 'f' then c as int - 'a' as int + 10
    else if 'A' <= c <= 'F' then c as int - 'A' as int + 10
    else 0
  }

  // Four hexadecimal digits, each shifted in by eight bits.
  function CodeOf(h: string): nat
  {
    if h == "" then 0 else CodeOf(h[..|h| - 1]) * 256 + HexValue(h[|h| - 1])
  }

  // The character an escape letter stands for.
  function Escaped(c: char): (r: string)
    ensures |r| <= 1
  {
    match c
    case '"' => "\""
    case '\\' => "\\"
    case '/' => "/"
    case 'b' => [8 as char]
    case 'f' => [12 as char]
    case 'n' => "\n"
    case 'r' => "\r"
    case 't' => "\t"
    case _ => ""
  }

  // A scan whose text has these characters in front.
  function Prefix(text: string, s: Scan): Scan {
    if s.Scanned? then Scanned(text + s.text, s.rest) else s
  }

  predicate SmallCode(h: string) {
    |h| == 4 && (forall i | 0 <= i < 4 :: HexDigit(h[i])) && CodeOf(h) <= 127
  }

  // The contents of a string and what follows its closing quote.
  function ScanString(cs: string): (r: Scan)
    ensures r.Scanned? ==> |r.rest| < |cs|
  {
    if cs == "" then ScanError
    else if cs[0] == '"' then Scanned("", cs[1..])
    else if cs[0] == '\\' then
      if |cs| == 1 then ScanError
      else if cs[1] == 'u' then
        if |cs| >= 6 && SmallCode(cs[2..6]) then Prefix([CodeOf(cs[2..6]) as char], ScanString(cs[6..])) else ScanError
      else if Escaped(cs[1]) != "" then Prefix(Escaped(cs[1]), ScanString(cs[2..]))
      else ScanError
    else Prefix([cs[0]], ScanString(cs[1..]))
  }

  function ScanNumber(cs: string): (r: Scan)
    ensures r.Scanned? && |r.rest| <= |cs|
    ensures cs != "" && NumberChar(cs[0]) ==> |r.rest| < |cs|
  {
    if cs == "" || !NumberChar(cs[0]) then Scanned("", cs) else Prefix([cs[0]], ScanNumber(cs[1..]))
  }

  predicate FractionChar(c: char) { c == 'e' || c == 'E' || c == '.' }

  predicate HasFraction(text: string) { exists c <- text :: FractionChar(c) }

  function NumberToken(text: string): Token {
    if HasFraction(text) then DoubleTok(text) else IntTok(text)
  }

  datatype Lexed = Tok(t: Token, rest: string) | End | LexError

  function Keyword(cs: string, word: string, t: Token): Lexed {
    if word <= cs then Tok(t, cs[|word|..]) else LexError
  }

  // The next token.
  function NextToken(cs: string): (r: Lexed)
    ensures r.Tok? ==> |r.rest| < |cs|
  {
    if cs == "" then End
    else if Space(cs[0]) then NextToken(cs[1..])
    else
      match cs[0]
      case '{' => Tok(ObjectBegin, cs[1..])
      case '}' => Tok(ObjectEnd, cs[1..])
      case '[' => Tok(ArrayBegin, cs[1..])
      case ']' => Tok(ArrayEnd, cs[1..])
      case ':' => Tok(Colon, cs[1..])
      case ',' => Tok(Comma, cs[1..])
      case '"' =>
        (match ScanString(cs[1..])
         case Scanned(text, rest) => Tok(Str(text), rest)
         case ScanError => LexError)
      case 't' => Keyword(cs, "true", TrueTok)
      case 'f' => Keyword(cs, "false", FalseTok)
      case 'n' => Keyword(cs, "null", NullTok)
      case c =>
        if c == '-' || Digit(c) then
          var s := ScanNumber(cs);
          Tok(NumberToken(s.text), s.rest)
        else LexError
  }

  // All tokens up to the end or the first character that starts none.
  datatype Tokens = Tokens(ts: seq<Token>, ok: bool)

  function Tokenize(cs: string): Tokens
    decreases |cs|
  {
    match NextToken(cs)
    case End => Tokens([], true)
    case LexError => Tokens([], false)
    case Tok(t, rest) =>
      var more := Tokenize(rest);
      Tokens([t] + more.ts, more.ok)
  }

  // ---- encoding detection ----

  datatype Encoding = UTF8 | UTF16_BE | UTF16_LE | UTF32_BE | UTF32_LE

  // From the first bytes, at most four; of no bytes the lexer knows nothing
  // and keeps whatever its field held.
  function Detect(b: string, unset: Encoding): Encoding {
    if |b| == 0 then unset
    else if |b| == 1 then UTF8
    else if |b| < 4 then
      if b[0] == '\0' || b[1] == '\0' then UTF16_BE else UTF8
    else if b[0] == '\0' then
      if b[1] == '\0' then UTF32_BE else UTF16_BE
    else if b[1] == '\0' then
      if b[2] == '\0' then UTF32_LE else UTF16_LE
    else UTF8
  }
}
