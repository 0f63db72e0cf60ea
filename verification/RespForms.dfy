/** Exactly the streams that are read as arrays, in terms of their bytes alone, and what the printers write. */
module RespForms {
  import opened Wrappers
  import opened Bytes
  import opened TextForms
  import opened Resp

  /** One string as it may stand in the stream: `end` is the line break after its first line. */
  datatype Token =
    | Bulk(number: bytes, end: bytes, payload: bytes)
    | Nil(number: bytes, end: bytes)
    | Simple(prefix: bytes, text: bytes, end: bytes)

  /** A line without line feed, ended by LF or CR LF: a carriage return before the line feed belongs to the ending. */
  ghost predicate IsLine(text: bytes, end: bytes) {
    && LF !in text
    && (end == Ascii("\r\n") || (end == Ascii("\n") && (text == [] || text[|text| - 1] != CR)))
  }

  /** Lengths are decimal integers, with or without a sign and leading zeros; any negative one stands for nil. */
  ghost predicate IsToken(t: Token) {
    match t
    case Bulk(number, end, payload) => IsLine(number, end) && IsInteger(number, 10, |payload|) && |payload| + 2 <= MAX_INT64
    case Nil(number, end) => IsLine(number, end) && exists n :: n < 0 && IsInteger(number, 10, n)
    case Simple(prefix, text, end) => (prefix == Ascii("+") || prefix == Ascii(":")) && IsLine(text, end)
  }

  function TokenBytes(t: Token): bytes {
    match t
    case Bulk(number, end, payload) => Ascii("$") + number + end + payload + Ascii("\r\n")
    case Nil(number, end) => Ascii("$") + number + end
    case Simple(prefix, text, end) => prefix + text + end
  }

  function TokenValue(t: Token): bytes {
    match t
    case Bulk(_, _, payload) => payload
    case Nil(_, _) => []
    case Simple(_, text, _) => text
  }

  ghost predicate AreTokens(tokens: seq<Token>) {
    forall t :: t in tokens ==> IsToken(t)
  }

  function TokensBytes(tokens: seq<Token>): bytes {
    if tokens == [] then [] else TokenBytes(tokens[0]) + TokensBytes(tokens[1..])
  }

  function TokenValues(tokens: seq<Token>): seq<bytes> {
    seq(|tokens|, i requires 0 <= i < |tokens| => TokenValue(tokens[i]))
  }

  lemma Signs()
    ensures Ascii("\r\n") == [CR, LF] == CRLF && Ascii("\n") == [LF]
    ensures Ascii("$") == [DOLLAR] && Ascii("+") == [PLUS] && Ascii(":") == [COLON] && Ascii("*") == [STAR]
  {}

  // ---- Lines ----

  lemma LineRead(text: bytes, end: bytes, rest: bytes)
    requires IsLine(text, end)
    ensures ParseLine(text + end + rest) == Ok(text, rest)
  {
    Signs();
    if end == CRLF {
      var line := text + [CR];
      FirstLine(line, rest);
      assert text + end + rest == line + [LF] + rest;
      assert StripCR(line) == text;
    } else {
      FirstLine(text, rest);
    }
  }

  lemma LineIs(s: bytes) returns (end: bytes)
    requires ParseLine(s).Ok?
    ensures IsLine(ParseLine(s).value, end) && s == ParseLine(s).value + end + ParseLine(s).rest
  {
    Signs();
    var i := IndexByte(s, LF).value;
    var line, rest := s[..i], s[i + 1..];
    assert s == line + [LF] + rest;
    FirstLine(line, rest);
    hide ParseLine;
    var text := StripCR(line);
    end := if s == text + CRLF + rest then CRLF else [LF];
  }

  // ---- Single strings ----

  lemma BulkRead(number: bytes, end: bytes, payload: bytes, rest: bytes)
    requires IsToken(Bulk(number, end, payload))
    ensures ParseBulk(number + end + (payload + CRLF + rest)) == Ok(payload, rest)
  {
    hide ParseLine, ParseInt, IsInteger, IsLine;
    var body := payload + CRLF + rest;
    LineRead(number, end, body);
    ParseIntIs(number, 10, |payload|);
    assert body[|payload|] == CR && body[|payload| + 1] == LF;
    assert body[..|payload|] == payload && body[|payload| + 2..] == rest;
  }

  lemma NilRead(number: bytes, end: bytes, rest: bytes)
    requires IsToken(Nil(number, end))
    ensures ParseBulk(number + end + rest) == Ok([], rest)
  {
    hide ParseLine, ParseInt, IsInteger, IsLine;
    var n :| n < 0 && IsInteger(number, 10, n);
    LineRead(number, end, rest);
    ParseIntIs(number, 10, n);
  }

  lemma StringStarts(b: byte, tail: bytes)
    ensures ParseString([b] + tail)
         == if b == DOLLAR then ParseBulk(tail) else if b == PLUS || b == COLON then ParseLine(tail) else Err(Protocol)
  {
    hide ParseLine, ParseBulk;
    assert ([b] + tail)[0] == b && ([b] + tail)[1..] == tail;
  }

  lemma Regroup(a: bytes, b: bytes, c: bytes, d: bytes, rest: bytes)
    ensures a + b + c + d + CRLF + rest == a + (b + c + (d + CRLF + rest))
    ensures a + b + c + rest == a + (b + c + rest)
  {
    assert a + b + c + d + CRLF + rest == a + (b + c + d + CRLF + rest);
    assert b + c + d + CRLF + rest == b + c + (d + CRLF + rest);
  }

  lemma TokenRead(t: Token, rest: bytes)
    requires IsToken(t)
    ensures ParseString(TokenBytes(t) + rest) == Ok(TokenValue(t), rest)
  {
    hide ParseString, ParseLine, ParseBulk, IsInteger, IsLine;
    Signs();
    match t
    case Bulk(number, end, payload) =>
      Regroup([DOLLAR], number, end, payload, rest);
      StringStarts(DOLLAR, number + end + (payload + CRLF + rest));
      BulkRead(number, end, payload, rest);
    case Nil(number, end) =>
      Regroup([DOLLAR], number, end, [], rest);
      StringStarts(DOLLAR, number + end + rest);
      NilRead(number, end, rest);
    case Simple(prefix, text, end) =>
      Regroup(prefix, text, end, [], rest);
      StringStarts(prefix[0], text + end + rest);
      LineRead(text, end, rest);
  }

  lemma BulkIs(s: bytes) returns (t: Token)
    requires ParseBulk(s).Ok?
    ensures IsToken(t) && TokenValue(t) == ParseBulk(s).value && [DOLLAR] + s == TokenBytes(t) + ParseBulk(s).rest
  {
    hide ParseLine, ParseInt, IsInteger, IsLine;
    Signs();
    var end := LineIs(s);
    var number, body := ParseLine(s).value, ParseLine(s).rest;
    var n := ParseInt(number, 10).value;
    ParseIntIs(number, 10, n);
    if n < 0 {
      t := Nil(number, end);
      assert [DOLLAR] + s == [DOLLAR] + number + end + body;
    } else {
      t := Bulk(number, end, body[..n]);
      assert body == body[..n] + CRLF + body[n + 2..];
      assert [DOLLAR] + s == [DOLLAR] + number + end + body[..n] + CRLF + body[n + 2..];
    }
  }

  lemma TokenIs(s: bytes) returns (t: Token)
    requires ParseString(s).Ok?
    ensures IsToken(t) && TokenValue(t) == ParseString(s).value && s == TokenBytes(t) + ParseString(s).rest
  {
    hide ParseLine, ParseBulk, IsInteger, IsLine;
    Signs();
    assert s == [s[0]] + s[1..];
    if s[0] == DOLLAR {
      t := BulkIs(s[1..]);
    } else {
      var end := LineIs(s[1..]);
      t := Simple([s[0]], ParseLine(s[1..]).value, end);
      assert s == [s[0]] + t.text + end + ParseLine(s[1..]).rest;
    }
  }

  // ---- Arrays ----

  lemma {:induction false} TokensRead(tokens: seq<Token>, rest: bytes)
    requires AreTokens(tokens)
    ensures ParseStrings(TokensBytes(tokens) + rest, |tokens|) == Ok(TokenValues(tokens), rest)
    decreases |tokens|
  {
    hide ParseString, TokenBytes, IsToken, TokenValue;
    if tokens == [] {
      assert TokensBytes(tokens) + rest == rest;
    } else {
      var others := TokensBytes(tokens[1..]) + rest;
      assert TokensBytes(tokens) + rest == TokenBytes(tokens[0]) + others;
      TokenRead(tokens[0], others);
      TokensRead(tokens[1..], rest);
      assert TokenValues(tokens) == [TokenValue(tokens[0])] + TokenValues(tokens[1..]);
    }
  }

  lemma {:induction false} TokensAre(s: bytes, count: nat) returns (tokens: seq<Token>)
    requires ParseStrings(s, count).Ok?
    ensures AreTokens(tokens) && |tokens| == count && TokenValues(tokens) == ParseStrings(s, count).value
    ensures s == TokensBytes(tokens) + ParseStrings(s, count).rest
    decreases count
  {
    hide ParseString, TokenBytes, IsToken, TokenValue;
    if count == 0 {
      tokens := [];
    } else {
      var t := TokenIs(s);
      var others := TokensAre(ParseString(s).rest, count - 1);
      tokens := [t] + others;
      assert tokens[1..] == others;
      assert TokenValues(tokens) == [TokenValue(t)] + TokenValues(others);
    }
  }

  /** The bytes of an array of these strings: the count has the same forms as the lengths. */
  ghost predicate IsArray(s: bytes, tokens: seq<Token>) {
    exists number, end :: IsLine(number, end) && IsInteger(number, 10, |tokens|) && s == Ascii("*") + number + end + TokensBytes(tokens)
  }

  lemma ArrayRead(s: bytes, tokens: seq<Token>, rest: bytes)
    requires IsArray(s, tokens) && AreTokens(tokens)
    ensures ParseArray(s + rest) == Ok(TokenValues(tokens), rest)
  {
    hide ParseLine, ParseInt, ParseStrings, TokensBytes, IsInteger, IsLine, AreTokens;
    Signs();
    var number, end :| IsLine(number, end) && IsInteger(number, 10, |tokens|) && s == Ascii("*") + number + end + TokensBytes(tokens);
    var body := TokensBytes(tokens) + rest;
    assert (s + rest)[0] == STAR && (s + rest)[1..] == number + end + body;
    LineRead(number, end, body);
    ParseIntIs(number, 10, |tokens|);
    TokensRead(tokens, rest);
  }

  lemma ArrayIs(s: bytes) returns (tokens: seq<Token>, used: bytes)
    requires ParseArray(s).Ok?
    ensures AreTokens(tokens) && TokenValues(tokens) == ParseArray(s).value
    ensures IsArray(used, tokens) && s == used + ParseArray(s).rest
  {
    hide ParseLine, ParseInt, ParseStrings, TokensBytes, IsInteger, IsLine, AreTokens;
    Signs();
    var end := LineIs(s[1..]);
    var number, body := ParseLine(s[1..]).value, ParseLine(s[1..]).rest;
    var n := ParseInt(number, 10).value;
    ParseIntIs(number, 10, n);
    tokens := TokensAre(body, n);
    used := [STAR] + number + end + TokensBytes(tokens);
    assert s == [STAR] + s[1..];
  }

  /** A stream is read as an array of strings exactly when it starts with the bytes of one. */
  lemma ReadIff(s: bytes, value: seq<bytes>, rest: bytes)
    ensures ParseArray(s) == Ok(value, rest)
       <==> exists tokens, used :: IsArray(used, tokens) && AreTokens(tokens) && TokenValues(tokens) == value && s == used + rest
  {
    hide ParseArray, IsArray, AreTokens, TokenValues;
    if ParseArray(s) == Ok(value, rest) {
      var tokens, used := ArrayIs(s);
    }
    if tokens, used :| IsArray(used, tokens) && AreTokens(tokens) && TokenValues(tokens) == value && s == used + rest {
      ArrayRead(used, tokens, rest);
    }
  }

  // ---- Printing ----

  /** The strict form: CR LF everywhere, the length printed without sign and leading zeros, nil as -1. */
  function Strict(item: Option<bytes>): Token {
    match item
    case None => Nil(Ascii("-1"), Ascii("\r\n"))
    case Some(payload) => Bulk(Itoa(|payload|), Ascii("\r\n"), payload)
  }

  function StrictAll(items: seq<Option<bytes>>): seq<Token> {
    seq(|items|, i requires 0 <= i < |items| => Strict(items[i]))
  }

  lemma {:induction false} PrintedBulks(items: seq<Option<bytes>>)
    ensures PrintBulks(items) == TokensBytes(StrictAll(items))
  {
    if items != [] {
      Signs();
      assert Ascii("-1") == [45, 49];
      assert PrintBulk(items[0]) == TokenBytes(Strict(items[0]));
      PrintedBulks(items[1..]);
      assert StrictAll(items)[1..] == StrictAll(items[1..]);
    }
  }

  /** The printers write the strict form only. */
  lemma PrintedIsStrict(items: seq<Option<bytes>>)
    ensures PrintArray(items) == Ascii("*") + Itoa(|items|) + Ascii("\r\n") + TokensBytes(StrictAll(items))
  {
    hide PrintBulks, TokensBytes, StrictAll;
    Signs();
    PrintedBulks(items);
  }
}
