// The JSON lexer: a ten-byte buffer refilled from a stream, one current
// character, and the token scanner (tinfra/json.cpp, class json_lexer).
module JsonLexer {
  import opened Common
  import opened JsonSpec
  import opened Streams

  const BUFFER_LEN := 10

  datatype Fetched = Fetched(t: Token) | NoMore | Failed

  lemma {:induction false} PrefixTwice(a: string, b: string, s: Scan)
    ensures Prefix(a, Prefix(b, s)) == Prefix(a + b, s)
  {
    if s.Scanned? {
      assert a + (b + s.text) == (a + b) + s.text;
    }
  }

  lemma {:induction false} FractionAppend(text: string, c: char)
    ensures HasFraction(text + [c]) == (HasFraction(text) || FractionChar(c))
  {
    assert forall d :: d in text + [c] <==> d in text || d == c;
  }

  // The token of a single punctuation character; NullTok for any other.
  function Punctuation(c: char): Token {
    match c
    case '{' => ObjectBegin
    case '}' => ObjectEnd
    case '[' => ArrayBegin
    case ']' => ArrayEnd
    case ':' => Colon
    case ',' => Comma
    case _ => NullTok
  }

  class Lexer {
    const input: InputStream
    const buffer: array<char>
    var bufferStart: nat
    var bufferEnd: nat
    var current: char
    var finished: bool
    var inputEncoding: Encoding
    var lastToken: string

    ghost predicate Buffered()
      reads this`bufferStart, this`bufferEnd, input
    {
      && buffer.Length == BUFFER_LEN
      && bufferStart <= bufferEnd <= BUFFER_LEN
      && input.Valid()
    }

    // The bytes not yet taken as the current character.
    ghost function Behind(): string
      reads this`bufferStart, this`bufferEnd, buffer, input
      requires Buffered()
    {
      buffer[bufferStart..bufferEnd] + input.Unread()
    }

    ghost predicate Valid()
      reads this`bufferStart, this`bufferEnd, this`finished, this`inputEncoding, buffer, input
    {
      && Buffered()
      && inputEncoding.UTF8?
      && (finished ==> Behind() == "")
    }

    // The characters the scanner still sees, the current one first.
    ghost function Ahead(): (cs: string)
      reads this`bufferStart, this`bufferEnd, this`current, this`finished, this`inputEncoding, buffer, input
      requires Valid()
      ensures finished <==> cs == ""
      ensures !finished ==> cs[0] == current
    {
      if finished then "" else [current] + Behind()
    }

    // The unset encoding field is left as found in memory.
    constructor (source: InputStream, garbage: Encoding)
      requires source.Valid()
      ensures Buffered() && input == source && fresh(buffer) && !finished
      ensures Behind() == source.Unread() && bufferStart == bufferEnd == 0 && inputEncoding == garbage
    {
      input := source;
      buffer := new char[BUFFER_LEN];
      bufferStart, bufferEnd := 0, 0;
      current := '\0';
      finished := false;
      inputEncoding := garbage;
      lastToken := "";
    }

    method ReadForSure(at: nat, len: nat) returns (readed: nat)
      requires Buffered() && at + len <= BUFFER_LEN
      modifies buffer, input
      ensures Buffered() && readed <= len
      ensures readed <= |old(input.Unread())| && input.Unread() == old(input.Unread())[readed..]
      ensures readed < len ==> input.Unread() == ""
      ensures forall i | at <= i < at + readed :: buffer[i] == old(input.Unread())[i - at]
      ensures forall i | 0 <= i < at :: buffer[i] == old(buffer[i])
    {
      readed := 0;
      ghost var all := input.Unread();
      while readed < len
        invariant Buffered() && readed <= len
        invariant readed <= |all| && input.Unread() == all[readed..]
        invariant forall i | at <= i < at + readed :: buffer[i] == all[i - at]
        invariant forall i | 0 <= i < at :: buffer[i] == old(buffer[i])
        decreases len - readed
      {
        var r := input.Read(buffer, at + readed, len - readed);
        if r == 0 {
          return;
        }
        readed := readed + r;
      }
    }

    // At least `required` bytes in the buffer, unless the input is used up.
    method FillBuffer(required: nat) returns (ok: bool)
      requires Buffered() && required < BUFFER_LEN
      requires finished ==> Behind() == ""
      modifies this`bufferStart, this`bufferEnd, this`finished, buffer, input
      ensures Buffered() && Behind() == old(Behind())
      ensures ok <==> |Behind()| >= required
      ensures ok ==> bufferEnd - bufferStart >= required
      ensures required > 0 ==> (finished <==> Behind() == "")
      ensures required == 0 ==> finished == old(finished)
    {
      var currentLen := bufferEnd - bufferStart;
      if currentLen >= required {
        return true;
      }
      if finished {
        return false;
      }
      if bufferStart > 0 {
        Compact();
      }
      ghost var kept, unread := buffer[..bufferEnd], input.Unread();
      assert Behind() == kept + unread;
      var r := ReadForSure(bufferEnd, required - currentLen);
      assert buffer[..bufferEnd + r] == kept + unread[..r];
      Rejoin(kept, unread, r);
      bufferEnd := bufferEnd + r;
      if r == 0 && bufferEnd == bufferStart {
        finished := true;
      }
      ok := bufferEnd - bufferStart >= required;
    }

    // Move the buffered bytes to the front of the buffer.
    method Compact()
      requires Buffered()
      modifies this`bufferStart, this`bufferEnd, buffer
      ensures Buffered() && bufferStart == 0 && bufferEnd == old(bufferEnd) - old(bufferStart)
      ensures buffer[..bufferEnd] == old(buffer[bufferStart..bufferEnd])
    {
      var n := bufferEnd - bufferStart;
      forall i | 0 <= i < n {
        buffer[i] := buffer[bufferStart + i];
      }
      bufferStart := 0;
      bufferEnd := n;
    }

    // Take the next byte as the current character; at the end of the input the
    // current character stays and the lexer is finished.
    method Next() returns (ok: bool)
      requires Valid()
      modifies this`current, this`bufferStart, this`bufferEnd, this`finished, buffer, input
      ensures Valid()
      ensures ok <==> old(Behind()) != ""
      ensures ok ==> !finished && [current] + Behind() == old(Behind())
      ensures !ok ==> finished && current == old(current)
      ensures Ahead() == old(Behind())
      ensures !old(finished) ==> Ahead() == old(Ahead())[1..]
    {
      ok := FillBuffer(1);
      if !ok {
        return;
      }
      current := buffer[bufferStart];
      assert buffer[bufferStart..bufferEnd] == [current] + buffer[bufferStart + 1..bufferEnd];
      bufferStart := bufferStart + 1;
    }

    // The constructor's reading: look at the first four bytes, then take the
    // first character; an encoding other than UTF-8 is refused.
    method Start() returns (ok: bool)
      requires Buffered() && bufferStart == bufferEnd == 0 && !finished
      modifies this, buffer, input
      ensures var first := old(Behind());
        ok <==> Detect(if |first| < 4 then first else first[..4], old(inputEncoding)).UTF8?
      ensures ok ==> Valid() && Ahead() == old(Behind())
    {
      var r := ReadForSure(0, 4);
      bufferStart, bufferEnd := 0, r;
      ghost var first := old(Behind());
      assert first == buffer[..r] + input.Unread();
      assert buffer[..r] == if |first| < 4 then first else first[..4];
      if r == 0 {
        finished := true;
      } else if r == 1 {
        inputEncoding := UTF8;
      } else if r < 4 {
        if buffer[0] == '\0' {
          inputEncoding := UTF16_BE;
        } else if buffer[1] == '\0' {
          inputEncoding := UTF16_BE;
        } else {
          inputEncoding := UTF8;
        }
      } else if buffer[0] == '\0' {
        if buffer[1] == '\0' {
          inputEncoding := UTF32_BE;
        } else {
          inputEncoding := UTF16_BE;
        }
      } else if buffer[1] == '\0' {
        if buffer[2] == '\0' {
          inputEncoding := UTF32_LE;
        } else {
          inputEncoding := UTF16_LE;
        }
      } else {
        inputEncoding := UTF8;
      }
      if !inputEncoding.UTF8? {
        return false;
      }
      var _ := Next();
      ok := true;
    }

    // The four digits of a \u escape; the current character is the letter u.
    method ConsumeHex() returns (ok: bool, code: nat)
      requires Valid() && !finished
      modifies this`current, this`bufferStart, this`bufferEnd, this`finished, buffer, input
      ensures Valid()
      ensures var cs := old(Ahead());
        && (ok <==> |cs| >= 5 && forall i | 0 <= i < 4 :: HexDigit(cs[1..5][i]))
        && (ok ==> code == CodeOf(cs[1..5]) && Ahead() == cs[4..] && !finished)
    {
      hide Buffered, Behind, Valid, Ahead;
      ghost var cs := Ahead();
      code := 0;
      for i := 0 to 4
        invariant Valid() && !finished && i < |cs| && Ahead() == cs[i..]
        invariant forall j | 1 <= j <= i :: HexDigit(cs[j])
        invariant code == CodeOf(cs[1..i + 1])
      {
        ok := Next();
        if !ok || !HexDigit(current) {
          assert |cs| >= 5 ==> cs[1..5][i] == cs[i + 1];
          return false, 0;
        }
        assert cs[1..i + 2] == cs[1..i + 1] + [cs[i + 1]];
        code := code * 256 + HexValue(current);
      }
      ok := true;
    }

    // One escape, from the backslash to the character after it.
    method ConsumeEscape() returns (ok: bool)
      requires Valid() && !finished && current == '\\'
      modifies this`current, this`bufferStart, this`bufferEnd, this`finished, this`lastToken, buffer, input
      ensures Valid()
      ensures ok ==> |Ahead()| < |old(Ahead())|
      ensures ok ==> old(lastToken) <= lastToken
      ensures ok ==> ScanString(old(Ahead())) == Prefix(lastToken[|old(lastToken)|..], ScanString(Ahead()))
      ensures !ok ==> ScanString(old(Ahead())) == ScanError
    {
      hide Buffered, Behind, Valid, Ahead;
      ghost var cs := Ahead();
      ok := Next();
      if !ok {
        return;
      }
      ghost var scan := ScanString(cs);
      assert scan == if cs[1] == 'u' then
          if |cs| >= 6 && SmallCode(cs[2..6]) then Prefix([CodeOf(cs[2..6]) as char], ScanString(cs[6..]))
          else ScanError
        else if Escaped(cs[1]) != "" then Prefix(Escaped(cs[1]), ScanString(cs[2..])) else ScanError;
      if current == 'u' {
        var code;
        ok, code := ConsumeHex();
        assert |cs| >= 6 ==> cs[1..][1..5] == cs[2..6];
        if !ok || code > 127 {
          return false;
        }
        assert cs[1..][4..][1..] == cs[6..];
        lastToken := lastToken + [code as char];
      } else if Escaped(current) != "" {
        assert cs[1..][1..] == cs[2..];
        lastToken := lastToken + Escaped(current);
      } else {
        return false;
      }
      var _ := Next();
      ok := true;
    }

    // From the opening quote of a string to the character after its closing one.
    method ConsumeString() returns (ok: bool)
      requires Valid() && !finished && current == '"'
      modifies this`current, this`bufferStart, this`bufferEnd, this`finished, this`lastToken, buffer, input
      ensures Valid()
      ensures ok ==> ScanString(old(Ahead())[1..]) == Scanned(lastToken, Ahead())
      ensures !ok ==> ScanString(old(Ahead())[1..]) == ScanError
    {
      hide Buffered, Behind, Valid, Ahead;
      lastToken := "";
      ghost var cs := Ahead()[1..];
      var _ := Next();
      while !finished
        invariant Valid() && ScanString(cs) == Prefix(lastToken, ScanString(Ahead()))
        decreases |Ahead()|
      {
        if current == '"' {
          assert lastToken + "" == lastToken;
          var _ := Next();
          return true;
        } else if current == '\\' {
          ghost var before := lastToken;
          ghost var was := Ahead();
          ok := ConsumeEscape();
          if !ok {
            return;
          }
          PrefixTwice(before, lastToken[|before|..], ScanString(Ahead()));
          assert before + lastToken[|before|..] == lastToken;
        } else {
          PrefixTwice(lastToken, [current], ScanString(Ahead()[1..]));
          lastToken := lastToken + [current];
          var _ := Next();
        }
      }
      ok := false;
    }

    method ConsumeNumber() returns (t: Token)
      requires Valid()
      modifies this`current, this`bufferStart, this`bufferEnd, this`finished, this`lastToken, buffer, input
      ensures Valid()
      ensures ScanNumber(old(Ahead())) == Scanned(lastToken, Ahead()) && t == NumberToken(lastToken)
    {
      hide Buffered, Behind, Valid, Ahead, FractionChar;
      var fraction := false;
      lastToken := "";
      ghost var cs := Ahead();
      while !finished && NumberChar(current)
        invariant Valid() && ScanNumber(cs) == Prefix(lastToken, ScanNumber(Ahead()))
        invariant fraction == HasFraction(lastToken)
        decreases |Ahead()|
      {
        if FractionChar(current) {
          fraction := true;
        }
        PrefixTwice(lastToken, [current], ScanNumber(Ahead()[1..]));
        FractionAppend(lastToken, current);
        assert ScanNumber(Ahead()) == Prefix([current], ScanNumber(Ahead()[1..]));
        lastToken := lastToken + [current];
        var _ := Next();
      }
      assert lastToken + "" == lastToken;
      assert ScanNumber(Ahead()) == Scanned("", Ahead());
      t := if fraction then DoubleTok(lastToken) else IntTok(lastToken);
    }

    method ConsumeKeyword(word: string) returns (ok: bool)
      requires Valid() && !finished && |word| > 0 && current == word[0]
      modifies this`current, this`bufferStart, this`bufferEnd, this`finished, buffer, input
      ensures Valid()
      ensures ok <==> word <= old(Ahead())
      ensures ok ==> Ahead() == old(Ahead())[|word|..]
    {
      hide Buffered, Behind, Valid, Ahead;
      ghost var cs := Ahead();
      var i := 1;
      while i < |word|
        invariant Valid() && !finished && 1 <= i <= |word| && i <= |cs|
        invariant word[..i] == cs[..i] && Ahead() == cs[i - 1..]
      {
        ok := Next();
        assert Ahead() == cs[i..];
        if !ok || current != word[i] {
          assert i == |cs| || cs[i] != word[i];
          return false;
        }
        assert word[..i + 1] == word[..i] + [word[i]] && cs[..i + 1] == cs[..i] + [cs[i]];
        i := i + 1;
      }
      assert word[..i] == word;
      var _ := Next();
      ok := true;
    }

    // The next token of the input.
    method FetchNext() returns (r: Fetched)
      requires Valid()
      modifies this`current, this`bufferStart, this`bufferEnd, this`finished, this`lastToken, buffer, input
      ensures Valid()
      ensures r.Fetched? ==> NextToken(old(Ahead())) == Tok(r.t, Ahead())
      ensures r.NoMore? ==> NextToken(old(Ahead())) == End && Ahead() == ""
      ensures r.Failed? ==> NextToken(old(Ahead())) == LexError
    {
      hide Buffered, Behind, Valid, Ahead;
      while !finished && Space(current)
        invariant Valid() && NextToken(Ahead()) == NextToken(old(Ahead()))
        decreases |Ahead()|
      {
        var _ := Next();
      }
      if finished {
        return NoMore;
      }
      ghost var cs := Ahead();
      match current {
        case '"' =>
          var ok := ConsumeString();
          r := if ok then Fetched(Str(lastToken)) else Failed;
        case 't' =>
          var ok := ConsumeKeyword("true");
          r := if ok then Fetched(TrueTok) else Failed;
        case 'f' =>
          var ok := ConsumeKeyword("false");
          r := if ok then Fetched(FalseTok) else Failed;
        case 'n' =>
          var ok := ConsumeKeyword("null");
          r := if ok then Fetched(NullTok) else Failed;
        case c =>
          if Punctuation(c) != NullTok {
            r := Fetched(Punctuation(c));
            var _ := Next();
          } else if c == '-' || Digit(c) {
            var t := ConsumeNumber();
            r := Fetched(t);
          } else {
            r := Failed;
          }
      }
    }
  }
}
