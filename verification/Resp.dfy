/** RESP2 arrays of strings: the reader of the Redis queue protocol, and the two printers that write for it. */
module Resp {
  import opened Wrappers
  import opened Bytes

  datatype RespError = EndOfStream | Protocol | Oversized

  /** A value read from the front of a stream, and what follows it. */
  datatype Parsed<+T> = Ok(value: T, rest: bytes) | Err(error: RespError)

  const STAR: byte := 42
  const DOLLAR: byte := 36
  const PLUS: byte := 43
  const COLON: byte := 58

  // ---- Reading ----

  /** readRESPLine: up to the first line feed, less one carriage return. */
  function ParseLine(s: bytes): Parsed<bytes> {
    match IndexByte(s, LF)
    case None => Err(EndOfStream)
    case Some(i) => Ok(if i > 0 && s[i - 1] == CR then s[..i - 1] else s[..i], s[i + 1..])
  }

  /** readRESPBulkString, after the dollar sign: a negative length reads as the empty string. A length whose buffer size
      overflows makes the allocation panic. */
  function ParseBulk(s: bytes): Parsed<bytes> {
    match ParseLine(s)
    case Err(e) => Err(e)
    case Ok(line, rest) =>
      match ParseInt(line, 10)
      case None => Err(Protocol)
      case Some(length) =>
        if length < 0 then Ok([], rest)
        else if length + 2 > MAX_INT64 then Err(Oversized)
        else if |rest| < length + 2 then Err(EndOfStream)
        else if rest[length] != CR || rest[length + 1] != LF then Err(Protocol)
        else Ok(rest[..length], rest[length + 2..])
  }

  /** readRESPString. */
  function ParseString(s: bytes): Parsed<bytes> {
    if s == [] then Err(EndOfStream)
    else if s[0] == DOLLAR then ParseBulk(s[1..])
    else if s[0] == PLUS || s[0] == COLON then ParseLine(s[1..])
    else Err(Protocol)
  }

  function ParseStrings(s: bytes, count: nat): Parsed<seq<bytes>>
    decreases count
  {
    if count == 0 then Ok([], s)
    else match ParseString(s)
      case Err(e) => Err(e)
      case Ok(first, rest) =>
        match ParseStrings(rest, count - 1)
        case Err(e) => Err(e)
        case Ok(others, end) => Ok([first] + others, end)
  }

  function Prefixed(args: seq<bytes>, p: Parsed<seq<bytes>>): Parsed<seq<bytes>> {
    if p.Ok? then Ok(args + p.value, p.rest) else p
  }

  /** One round of the reading loop. */
  lemma ParseNext(s: bytes, count: nat, args: seq<bytes>)
    requires count > 0
    ensures Prefixed(args, ParseStrings(s, count))
         == var first := ParseString(s);
            if first.Err? then Err(first.error) else Prefixed(args + [first.value], ParseStrings(first.rest, count - 1))
  {
    hide ParseString;
    var first := ParseString(s);
    if first.Ok? {
      var others := ParseStrings(first.rest, count - 1);
      if others.Ok? {
        assert args + ([first.value] + others.value) == (args + [first.value]) + others.value;
      }
    }
  }

  lemma PrefixedByNone(p: Parsed<seq<bytes>>)
    ensures Prefixed([], p) == p
  {
    if p.Ok? {
      assert [] + p.value == p.value;
    }
  }

  /** readRESPArray. */
  function ParseArray(s: bytes): Parsed<seq<bytes>> {
    if s == [] then Err(EndOfStream)
    else if s[0] != STAR then Err(Protocol)
    else match ParseLine(s[1..])
      case Err(e) => Err(e)
      case Ok(line, rest) =>
        match ParseInt(line, 10)
        case None => Err(Protocol)
        case Some(count) => if count < 0 then Err(Protocol) else ParseStrings(rest, count)
  }

  // ---- Printing ----

  /** writeRedisBulkString: None stands for a nil payload. */
  function PrintBulk(item: Option<bytes>): bytes {
    match item
    case None => [DOLLAR, 45, 49] + CRLF
    case Some(payload) => [DOLLAR] + Itoa(|payload|) + CRLF + payload + CRLF
  }

  function PrintBulks(items: seq<Option<bytes>>): bytes {
    if items == [] then [] else PrintBulk(items[0]) + PrintBulks(items[1..])
  }

  /** writeRedisArrayOfBulkStrings, and encodeRESPArray when no item is nil. */
  function PrintArray(items: seq<Option<bytes>>): bytes {
    [STAR] + Itoa(|items|) + CRLF + PrintBulks(items)
  }

  // ---- Round trip ----

  /** What an item reads back as. */
  function ReadBack(items: seq<Option<bytes>>): seq<bytes> {
    seq(|items|, i requires 0 <= i < |items| => if items[i].Some? then items[i].value else [])
  }

  /** Lengths that a Go slice can have, with room for the line break that the reader allocates. */
  ghost predicate Representable(items: seq<Option<bytes>>) {
    |items| <= MAX_INT64 && forall i :: 0 <= i < |items| && items[i].Some? ==> |items[i].value| + 2 <= MAX_INT64
  }

  lemma LineBack(text: bytes, rest: bytes)
    requires LF !in text && (text == [] || text[|text| - 1] != CR)
    ensures ParseLine(text + CRLF + rest) == Ok(text, rest)
  {
    var s := text + CRLF + rest;
    var n := |text|;
    assert s[n] == CR && s[n + 1] == LF;
    assert LF !in s[..n + 1];
    assert s[n + 1] in s;
    var i := IndexByte(s, LF).value;
    assert forall j :: 0 <= j < n + 1 ==> s[j] in s[..n + 1];
    assert forall j :: 0 <= j < i ==> s[j] in s[..i];
    assert i == n + 1;
    assert s[..n] == text && s[n + 2..] == rest;
  }

  lemma NumberLineBack(n: nat, rest: bytes)
    requires n <= MAX_INT64
    ensures ParseLine(Itoa(n) + CRLF + rest) == Ok(Itoa(n), rest) && ParseInt(Itoa(n), 10) == Some(n)
  {
    LineBack(Itoa(n), rest);
    ParseOfItoa(n);
  }

  lemma BulkBack(item: Option<bytes>, rest: bytes)
    requires item.Some? ==> |item.value| + 2 <= MAX_INT64
    ensures ParseString(PrintBulk(item) + rest) == Ok(if item.Some? then item.value else [], rest)
  {
    hide ParseLine;
    match item
    case None =>
      var line: bytes := [45, 49];
      assert (PrintBulk(item) + rest)[1..] == line + CRLF + rest;
      LineBack(line, rest);
      assert DigitsValue(line[1..], 10) == Some(1);
    case Some(payload) =>
      var body := payload + CRLF + rest;
      assert (PrintBulk(item) + rest)[1..] == Itoa(|payload|) + CRLF + body;
      NumberLineBack(|payload|, body);
      assert body[|payload|] == CR && body[|payload| + 1] == LF;
      assert body[..|payload|] == payload && body[|payload| + 2..] == rest;
  }

  lemma {:induction false} BulksBack(items: seq<Option<bytes>>, rest: bytes)
    requires Representable(items)
    ensures ParseStrings(PrintBulks(items) + rest, |items|) == Ok(ReadBack(items), rest)
    decreases |items|
  {
    hide ParseString, PrintBulk;
    if items == [] {
      assert PrintBulks(items) + rest == rest;
    } else {
      var others := PrintBulks(items[1..]) + rest;
      assert PrintBulks(items) + rest == PrintBulk(items[0]) + others;
      BulkBack(items[0], others);
      BulksBack(items[1..], rest);
      assert ReadBack(items) == [if items[0].Some? then items[0].value else []] + ReadBack(items[1..]);
    }
  }

  /** Reading what either printer wrote gives the items back, a nil one as the empty string, and leaves exactly the bytes
      that follow. */
  lemma ArrayBack(items: seq<Option<bytes>>, rest: bytes)
    requires Representable(items)
    ensures ParseArray(PrintArray(items) + rest) == Ok(ReadBack(items), rest)
  {
    hide ParseLine, ParseStrings, PrintBulks;
    var body := PrintBulks(items) + rest;
    assert (PrintArray(items) + rest)[1..] == Itoa(|items|) + CRLF + body;
    NumberLineBack(|items|, body);
    BulksBack(items, rest);
  }

  // ---- Prefixes ----

  /** What is read does not depend on the bytes after it. */
  lemma LineExtends(s: bytes, t: bytes)
    ensures ParseLine(s).Ok? ==> ParseLine(s + t) == Ok(ParseLine(s).value, ParseLine(s).rest + t)
  {
    if LF in s {
      var i, j := IndexByte(s, LF).value, IndexByte(s + t, LF);
      assert (s + t)[i] == LF;
      assert (s + t)[i] in s + t;
      assert forall k :: 0 <= k < i ==> (s + t)[k] == s[k] && s[k] in s[..i];
      assert forall k :: 0 <= k < j.value ==> (s + t)[k] in (s + t)[..j.value];
      assert j.value == i;
      assert (s + t)[..i] == s[..i] && (i > 0 ==> (s + t)[..i - 1] == s[..i - 1]);
      assert (s + t)[i + 1..] == s[i + 1..] + t;
    }
  }

  lemma BulkExtends(s: bytes, t: bytes)
    ensures ParseBulk(s).Ok? ==> ParseBulk(s + t) == Ok(ParseBulk(s).value, ParseBulk(s).rest + t)
  {
    hide ParseLine;
    LineExtends(s, t);
    if ParseBulk(s).Ok? {
      var rest, length := ParseLine(s).rest, ParseInt(ParseLine(s).value, 10).value;
      if length >= 0 {
        assert (rest + t)[length] == rest[length] && (rest + t)[length + 1] == rest[length + 1];
        assert (rest + t)[..length] == rest[..length] && (rest + t)[length + 2..] == rest[length + 2..] + t;
      }
    }
  }

  lemma StringExtends(s: bytes, t: bytes)
    ensures ParseString(s).Ok? ==> ParseString(s + t) == Ok(ParseString(s).value, ParseString(s).rest + t)
  {
    hide ParseLine, ParseBulk;
    if s != [] {
      assert (s + t)[0] == s[0] && (s + t)[1..] == s[1..] + t;
      LineExtends(s[1..], t);
      BulkExtends(s[1..], t);
    }
  }

  lemma {:induction false} StringsExtend(s: bytes, count: nat, t: bytes)
    ensures ParseStrings(s, count).Ok? ==> ParseStrings(s + t, count) == Ok(ParseStrings(s, count).value, ParseStrings(s, count).rest + t)
    decreases count
  {
    hide ParseString;
    if count > 0 {
      StringExtends(s, t);
      if ParseString(s).Ok? {
        StringsExtend(ParseString(s).rest, count - 1, t);
      }
    }
  }

  lemma ArrayExtends(s: bytes, t: bytes)
    ensures ParseArray(s).Ok? ==> ParseArray(s + t) == Ok(ParseArray(s).value, ParseArray(s).rest + t)
  {
    hide ParseLine, ParseStrings;
    if s != [] {
      assert (s + t)[0] == s[0] && (s + t)[1..] == s[1..] + t;
      LineExtends(s[1..], t);
      var line := ParseLine(s[1..]);
      if line.Ok? && ParseInt(line.value, 10).Some? && ParseInt(line.value, 10).value >= 0 {
        StringsExtend(line.rest, ParseInt(line.value, 10).value, t);
      }
    }
  }

  /** A strict prefix of an encoding is never taken for an array. */
  lemma PrefixFails(items: seq<Option<bytes>>, j: nat)
    requires Representable(items) && j < |PrintArray(items)|
    ensures ParseArray(PrintArray(items)[..j]).Err?
  {
    hide ParseArray, PrintArray;
    var s := PrintArray(items);
    assert s == s[..j] + s[j..] && s == s + [];
    ArrayExtends(s[..j], s[j..]);
    ArrayBack(items, []);
  }

  // ---- The operations ----

  function StripCR(line: bytes): bytes {
    if line != [] && line[|line| - 1] == CR then line[..|line| - 1] else line
  }

  lemma FirstFeed(line: bytes, rest: bytes)
    requires LF !in line
    ensures IndexByte(line + [LF] + rest, LF) == Some(|line|)
  {
    var s := line + [LF] + rest;
    assert forall j :: 0 <= j < |line| ==> s[j] == line[j] && line[j] in line;
    forall k | |line| < k <= |s| ensures LF in s[..k] {
      assert s[..k][|line|] == LF;
    }
    assert s[|line|] in s;
  }

  /** A line read up to its line feed is the line that parsing finds, with or without a carriage return. */
  lemma FirstLine(line: bytes, rest: bytes)
    requires LF !in line
    ensures ParseLine(line + [LF] + rest) == Ok(StripCR(line), rest)
    ensures var value := StripCR(line);
            && LF !in value
            && (line + [LF] + rest == value + CRLF + rest
                || (line + [LF] + rest == value + [LF] + rest && (value == [] || value[|value| - 1] != CR)))
  {
    var s := line + [LF] + rest;
    FirstFeed(line, rest);
    hide IndexByte;
    assert s[..|line|] == line && s[|line| + 1..] == rest;
    if line != [] && line[|line| - 1] == CR {
      var value := line[..|line| - 1];
      assert line == value + [CR];
      assert s[..|line| - 1] == value;
      assert s == value + CRLF + rest;
      assert forall j :: 0 <= j < |value| ==> value[j] in line;
    }
  }

  /** The buffered stream, as the bytes not read yet. After an error it is left somewhere inside the value. */
  class Reader {
    var rest: bytes

    method ReadByte() returns (b: Option<byte>)
      modifies this
      ensures if old(rest) == [] then b == None && rest == [] else b == Some(old(rest)[0]) && rest == old(rest)[1..]
    {
      if rest == [] {
        return None;
      }
      b, rest := Some(rest[0]), rest[1..];
    }

    /** The bytes up to the first line feed, which is taken too; all of them when there is none. */
    method ReadUntilFeed() returns (line: bytes, found: bool)
      modifies this
      ensures LF !in line && old(rest) == (if found then line + [LF] + rest else line)
      ensures !found ==> rest == []
    {
      line := [];
      while true
        invariant old(rest) == line + rest && LF !in line
        decreases |rest|
      {
        var b := ReadByte();
        if b == None {
          assert old(rest) == line;
          return line, false;
        }
        if b.value == LF {
          return line, true;
        }
        line := line + [b.value];
      }
    }

    /** readRESPLine: the bytes up to the first line feed, without it and without one carriage return before it. */
    method ReadLine() returns (r: Parsed<bytes>)
      modifies this
      ensures r == ParseLine(old(rest)) && (r.Ok? ==> rest == r.rest)
      ensures r.Ok? <==> LF in old(rest)
      ensures r.Ok? ==>
        && LF !in r.value
        && (old(rest) == r.value + CRLF + rest
            || (old(rest) == r.value + [LF] + rest && (r.value == [] || r.value[|r.value| - 1] != CR)))
      ensures r.Err? ==> rest == []
    {
      hide IndexByte;
      var line, found := ReadUntilFeed();
      if !found {
        return Err(EndOfStream);
      }
      hide ParseLine;
      FirstLine(line, rest);
      r := Ok(StripCR(line), rest);
    }

    method ReadBulkString() returns (r: Parsed<bytes>)
      modifies this
      ensures r == ParseBulk(old(rest)) && (r.Ok? ==> rest == r.rest)
    {
      hide ParseLine, ParseInt;
      var line := ReadLine();
      if line.Err? {
        return Err(line.error);
      }
      var length := ParseInt(line.value, 10);
      if length == None {
        return Err(Protocol);
      }
      if length.value < 0 {
        return Ok([], rest);
      }
      if length.value + 2 > MAX_INT64 {
        return Err(Oversized);
      }
      if |rest| < length.value + 2 {
        return Err(EndOfStream);
      }
      var buf := rest[..length.value + 2];
      rest := rest[length.value + 2..];
      if buf[length.value] != CR || buf[length.value + 1] != LF {
        return Err(Protocol);
      }
      assert buf[..length.value] == line.rest[..length.value];
      r := Ok(buf[..length.value], rest);
    }

    method ReadString() returns (r: Parsed<bytes>)
      modifies this
      ensures r == ParseString(old(rest)) && (r.Ok? ==> rest == r.rest)
    {
      var prefix := ReadByte();
      if prefix == None {
        return Err(EndOfStream);
      }
      if prefix.value == DOLLAR {
        r := ReadBulkString();
      } else if prefix.value == PLUS || prefix.value == COLON {
        r := ReadLine();
      } else {
        r := Err(Protocol);
      }
    }

    method ReadArray() returns (r: Parsed<seq<bytes>>)
      modifies this
      ensures r == ParseArray(old(rest)) && (r.Ok? ==> rest == r.rest)
    {
      hide ParseLine, ParseStrings;
      var prefix := ReadByte();
      if prefix == None {
        return Err(EndOfStream);
      }
      if prefix.value != STAR {
        return Err(Protocol);
      }
      var line := ReadLine();
      if line.Err? {
        return Err(line.error);
      }
      var count := ParseInt(line.value, 10);
      if count == None || count.value < 0 {
        return Err(Protocol);
      }
      r := ReadStrings(count.value);
    }

    /** The loop of readRESPArray. */
    method ReadStrings(count: nat) returns (r: Parsed<seq<bytes>>)
      modifies this
      ensures r == ParseStrings(old(rest), count) && (r.Ok? ==> rest == r.rest)
    {
      var args: seq<bytes> := [];
      ghost var all := ParseStrings(rest, count);
      PrefixedByNone(all);
      for i := 0 to count
        invariant all == Prefixed(args, ParseStrings(rest, count - i))
      {
        hide ParseString, ParseStrings;
        ParseNext(rest, count - i, args);
        var value := ReadString();
        if value.Err? {
          return Err(value.error);
        }
        args := args + [value.value];
      }
      assert args + [] == args;
      r := Ok(args, rest);
    }
  }

  /** The buffer that the printers append to. */
  class Writer {
    var written: bytes

    method WriteBulkString(payload: Option<bytes>)
      modifies this
      ensures written == old(written) + PrintBulk(payload)
    {
      match payload {
        case None =>
          written := written + ([DOLLAR, 45, 49] + CRLF);
        case Some(data) =>
          ghost var start := written;
          written := written + ([DOLLAR] + Itoa(|data|) + CRLF);
          written := written + data;
          written := written + CRLF;
          assert written == start + PrintBulk(payload);
      }
    }

    method WriteArrayOfBulkStrings(items: seq<Option<bytes>>)
      modifies this
      ensures written == old(written) + PrintArray(items)
    {
      hide PrintBulk, PrintBulks;
      ghost var start := written;
      written := written + ([STAR] + Itoa(|items|) + CRLF);
      for i := 0 to |items|
        invariant written + PrintBulks(items[i..]) == start + PrintArray(items)
      {
        PrintBulksNext(written, items, i);
        WriteBulkString(items[i]);
      }
      assert items[|items|..] == [];
      PrintNoBulks(written);
    }
  }

  lemma PrintBulksNext(buf: bytes, items: seq<Option<bytes>>, i: nat)
    requires i < |items|
    ensures buf + PrintBulks(items[i..]) == (buf + PrintBulk(items[i])) + PrintBulks(items[i + 1..])
  {
    hide PrintBulk;
    assert items[i..][1..] == items[i + 1..];
    assert buf + (PrintBulk(items[i]) + PrintBulks(items[i + 1..])) == (buf + PrintBulk(items[i])) + PrintBulks(items[i + 1..]);
  }

  function Payloads(args: seq<bytes>): seq<Option<bytes>> {
    seq(|args|, i requires 0 <= i < |args| => Some(args[i]))
  }

  /** encodeRESPArray. */
  method EncodeArray(args: seq<bytes>) returns (buf: bytes)
    ensures buf == PrintArray(Payloads(args))
  {
    hide PrintBulk, PrintBulks;
    ghost var items := Payloads(args);
    buf := [STAR] + Itoa(|args|) + CRLF;
    for i := 0 to |args|
      invariant buf + PrintBulks(items[i..]) == PrintArray(items)
    {
      PrintBulksNext(buf, items, i);
      buf := AppendBulk(buf, args[i]);
    }
    assert items[|args|..] == [];
    PrintNoBulks(buf);
  }

  lemma PrintNoBulks(buf: bytes)
    ensures buf + PrintBulks([]) == buf
  {}

  method AppendBulk(start: bytes, arg: bytes) returns (buf: bytes)
    ensures buf == start + PrintBulk(Some(arg))
  {
    buf := start + ([DOLLAR] + Itoa(|arg|) + CRLF);
    buf := buf + arg;
    buf := buf + CRLF;
  }
}
