// Chunked transfer (section 4.1 of RFC 7230): ChunkedResponse writes the chunks and the trailer,
// ResponseParser reads them (src/fitnesse/http/ChunkedResponse.java,
// src/fitnesse/http/ResponseParser.java).
module ChunkedTransfer {
  import opened Wrappers
  import opened Sequences
  import opened StreamReading
  import opened HttpHeaders

  // ---------- sizes in hexadecimal ----------

  function HexDigit(d: nat): char
    requires d < 16
  {
    if d < 10 then '0' + d as char else 'a' + (d - 10) as char
  }

  function AsHex(n: nat): string {
    if n < 16 then [HexDigit(n)] else AsHex(n / 16) + [HexDigit(n % 16)]
  }

  function DigitValue(c: char): Option<nat> {
    if '0' <= c <= '9' then Some(c as nat - '0' as nat)
    else if 'a' <= c <= 'f' then Some(c as nat - 'a' as nat + 10)
    else if 'A' <= c <= 'F' then Some(c as nat - 'A' as nat + 10)
    else None
  }

  function DigitsValue(s: string, soFar: nat): Option<nat> {
    if s == "" then Some(soFar)
    else match DigitValue(s[0])
      case None => None
      case Some(d) => DigitsValue(s[1..], 16 * soFar + d)
  }

  // Integer.parseInt(s, 16): None stands for its exception.
  function ParseHex(s: string): Option<int> {
    if s == "" then None
    else if s[0] == '-' || s[0] == '+' then
      if |s| == 1 then None
      else match DigitsValue(s[1..], 0)
        case None => None
        case Some(n) => if s[0] == '+' then InRange(n) else InRange(0 - n as int)
    else match DigitsValue(s, 0)
      case None => None
      case Some(n) => InRange(n)
  }

  function InRange(n: int): Option<int> {
    if -0x8000_0000 <= n < 0x8000_0000 then Some(n) else None
  }

  lemma HexDigitRoundTrip(d: nat)
    requires d < 16
    ensures DigitValue(HexDigit(d)) == Some(d) && HexDigit(d) != '-' && HexDigit(d) != '+'
    ensures HexDigit(d) != '\r' && HexDigit(d) != '\n'
  {
  }

  lemma {:induction false} HexDigits(n: nat, rest: string)
    ensures DigitsValue(AsHex(n) + rest, 0) == DigitsValue(rest, n)
    ensures AsHex(n) != "" && AsHex(n)[0] != '-' && AsHex(n)[0] != '+' && Plain(AsHex(n))
    decreases n
  {
    HexDigitRoundTrip(n % 16);
    var last := [HexDigit(n % 16)] + rest;
    assert last[1..] == rest;
    if n >= 16 {
      HexDigits(n / 16, last);
      assert AsHex(n) + rest == AsHex(n / 16) + last;
    }
  }

  lemma HexRoundTrip(n: nat)
    requires n < 0x8000_0000
    ensures ParseHex(AsHex(n)) == Some(n) && Plain(AsHex(n)) && AsHex(n) != ""
  {
    HexDigits(n, "");
    assert AsHex(n) + "" == AsHex(n);
  }

  // ---------- what is written ----------

  // An empty piece is not written: its size would end the chunks.
  function Chunk(bytes: string): string {
    if bytes == "" then "" else AsHex(|bytes|) + CRLF + bytes + CRLF
  }

  function Chunks(pieces: seq<string>): string {
    if pieces == [] then "" else Chunk(pieces[0]) + Chunks(pieces[1..])
  }

  lemma {:induction false} ChunksAppend(pieces: seq<string>, p: string)
    ensures Chunks(pieces + [p]) == Chunks(pieces) + Chunk(p)
  {
    hide Chunk;
    if pieces == [] {
      assert pieces + [p] == [p] && [p][1..] == [];
      assert Chunk(p) + "" == Chunk(p) == "" + Chunk(p);
    } else {
      ChunksAppend(pieces[1..], p);
      assert (pieces + [p])[1..] == pieces[1..] + [p];
      Assoc(Chunk(pieces[0]), Chunks(pieces[1..]), Chunk(p));
    }
  }

  class ChunkedResponse {
    var sent: string
    var bytesSent: int
    var dontChunk: bool

    constructor (dontChunk: bool)
      ensures sent == "" && bytesSent == 0 && this.dontChunk == dontChunk
    {
      sent, bytesSent, this.dontChunk := "", 0, dontChunk;
    }

    method Add(bytes: string)
      modifies this`sent, this`bytesSent
      ensures sent == old(sent) + if dontChunk then bytes else Chunk(bytes)
      ensures bytesSent == old(bytesSent) + |bytes|
    {
      if bytes == "" {
        return;
      }
      if dontChunk {
        sent := sent + bytes;
      } else {
        var sizeLine := AsHex(|bytes|) + CRLF;
        sent := sent + (sizeLine + bytes + CRLF);
      }
      bytesSent := bytesSent + |bytes|;
    }

    method AddTrailingHeader(key: string, value: string)
      modifies this`sent
      ensures sent == old(sent) + if dontChunk then "" else HeaderLine(key, value) + CRLF
    {
      if !dontChunk {
        sent := sent + (HeaderLine(key, value) + CRLF);
      }
    }

    method CloseChunks()
      modifies this`sent
      ensures sent == old(sent) + if dontChunk then "" else "0" + CRLF
    {
      if !dontChunk {
        sent := sent + ("0" + CRLF);
      }
    }

    method CloseTrailer()
      modifies this`sent
      ensures sent == old(sent) + if dontChunk then "" else CRLF
    {
      if !dontChunk {
        sent := sent + CRLF;
      }
    }
  }

  // ---------- what is read ----------

  datatype ChunkError = BadChunkSize

  function Taken(s: string, n: int): (t: string)
    ensures t <= s
  {
    if n < 0 then "" else if n <= |s| then s[..n] else s
  }

  // The bodies of the chunks up to one of size zero, and what follows its size line.
  function ChunksOf(s: string): Result<(string, string), ChunkError>
    decreases |s|
  {
    var (line, s1) := LineOf(s);
    match ParseHex(line)
    case None => Failure(BadChunkSize)
    case Some(size) =>
      if size == 0 then Success(("", s1))
      else if s == "" then Failure(BadChunkSize)
      else
        var bytes := Taken(s1, size);
        var s2 := s1[|bytes|..];
        var s3 := s2[|Taken(s2, 2)|..];
        match ChunksOf(s3)
        case Failure(e) => Failure(e)
        case Success((body, rest)) => Success((bytes + body, rest))
  }

  class ResponseParser {
    const input: StreamReader
    var body: string
    var headers: map<string, string>

    constructor (reader: StreamReader)
      ensures input == reader && headers == map[]
    {
      input, body, headers := reader, "", map[];
    }

    method ReadChunkSize() returns (size: Option<int>)
      modifies input
      ensures size == ParseHex(LineOf(old(input.input)).0) && input.input == LineOf(old(input.input)).1
    {
      var sizeLine := input.ReadLine();
      size := ParseHex(sizeLine);
    }

    method ParseChunks() returns (error: Option<ChunkError>)
      modifies this`body, input
      ensures match ChunksOf(old(input.input))
              case Failure(e) => error == Some(e)
              case Success((b, rest)) => error == None && body == b && input.input == rest
    {
      hide ChunksOf, ParseHex, LineOf;
      var bodyBuffer := "";
      ghost var s := input.input;
      ghost var whole := ChunksOf(s);
      var chunkSize := ReadChunkSize();
      WithNothing(whole);
      while chunkSize.Some? && chunkSize.value != 0
        invariant chunkSize == ParseHex(LineOf(s).0) && input.input == LineOf(s).1
        invariant whole == With(bodyBuffer, ChunksOf(s))
        decreases |s|
      {
        OneChunk(s, bodyBuffer);
        ghost var s1 := input.input;
        var bytes := input.ReadBytes(chunkSize.value);
        ghost var s2 := input.input;
        assert bytes == Taken(s1, chunkSize.value) && s2 == s1[|bytes|..];
        bodyBuffer := bodyBuffer + bytes;
        var crlf := input.ReadBytes(2);
        assert crlf == Taken(s2, 2) && input.input == s2[|crlf|..];
        s := input.input;
        chunkSize := ReadChunkSize();
      }
      LastChunk(s, bodyBuffer);
      if chunkSize.None? {
        return Some(BadChunkSize);
      }
      body := bodyBuffer;
      return None;
    }

    // The chunks, and then the trailer, whose headers join those that were read before.
    method ParseChunkedBody() returns (error: Option<ChunkError>)
      modifies this, input
      ensures match ChunksOf(old(input.input))
              case Failure(e) => error == Some(e)
              case Success((b, rest)) => error == None && body == b
                                         && headers == old(headers) + HeadersOf(rest, false).0
                                         && input.input == HeadersOf(rest, false).1
    {
      hide ChunksOf, HeadersOf;
      error := ParseChunks();
      if error.None? {
        headers := ReadHeaders(input, false, headers);
      }
    }
  }

  function With(before: string, r: Result<(string, string), ChunkError>): Result<(string, string), ChunkError> {
    match r
    case Failure(e) => r
    case Success((body, rest)) => Success((before + body, rest))
  }

  lemma WithNothing(r: Result<(string, string), ChunkError>)
    ensures With("", r) == r
  {
    if r.Success? {
      assert "" + r.value.0 == r.value.0;
    }
  }

  lemma OneChunk(s: string, before: string)
    requires ParseHex(LineOf(s).0).Some? && ParseHex(LineOf(s).0).value != 0
    ensures s != ""
    ensures var s1 := LineOf(s).1;
            var bytes := Taken(s1, ParseHex(LineOf(s).0).value);
            var s2 := s1[|bytes|..];
            With(before, ChunksOf(s)) == With(before + bytes, ChunksOf(s2[|Taken(s2, 2)|..]))
  {
    var s1 := LineOf(s).1;
    var bytes := Taken(s1, ParseHex(LineOf(s).0).value);
    var s2 := s1[|bytes|..];
    var r := ChunksOf(s2[|Taken(s2, 2)|..]);
    if r.Success? {
      Assoc(before, bytes, r.value.0);
    }
  }

  lemma LastChunk(s: string, before: string)
    requires ParseHex(LineOf(s).0).Some? ==> ParseHex(LineOf(s).0).value == 0
    ensures With(before, ChunksOf(s)) ==
            if ParseHex(LineOf(s).0).None? then Failure(BadChunkSize) else Success((before, LineOf(s).1))
  {
    assert before + "" == before;
  }

  // ---------- the round trip ----------

  predicate Sendable(bytes: string) {
    |bytes| < 0x8000_0000
  }

  lemma {:induction false} ChunksRoundTrip(pieces: seq<string>, rest: string)
    requires forall i :: 0 <= i < |pieces| ==> Sendable(pieces[i])
    ensures ChunksOf(Chunks(pieces) + ("0" + CRLF + rest)) == Success((Concat(pieces), rest))
  {
    hide ParseHex, LineOf, AsHex;
    var last := "0" + CRLF + rest;
    if pieces == [] {
      AssertZero();
      LineRoundTrip("0", rest);
      assert "" + last == last;
    } else if pieces[0] == "" {
      ChunksRoundTrip(pieces[1..], rest);
      assert "" + Chunks(pieces[1..]) == Chunks(pieces[1..]) && "" + Concat(pieces[1..]) == Concat(pieces[1..]);
    } else {
      assert Sendable(pieces[0]);
      ChunksRoundTrip(pieces[1..], rest);
      ChunkRoundTrip(pieces[0], Chunks(pieces[1..]) + last);
      Assoc(Chunk(pieces[0]), Chunks(pieces[1..]), last);
    }
  }

  lemma AssertZero()
    ensures ParseHex("0") == Some(0) && Plain("0")
  {
  }

  lemma ChunkRoundTrip(bytes: string, rest: string)
    requires bytes != "" && Sendable(bytes)
    ensures ChunksOf(Chunk(bytes) + rest) == With(bytes, ChunksOf(rest))
  {
    hide ParseHex, LineOf, AsHex;
    var s := Chunk(bytes) + rest;
    var s1 := bytes + (CRLF + rest);
    HexRoundTrip(|bytes|);
    LineRoundTrip(AsHex(|bytes|), s1);
    assert s == AsHex(|bytes|) + CRLF + s1;
    AroundMiddle(bytes, CRLF, rest);
    assert (CRLF + rest)[2..] == rest;
    assert s1[|bytes|..] == CRLF + rest;
  }

  // Whatever pieces and trailing headers are sent, the parser has them as one body and as headers.
  method SendAndParse(pieces: seq<string>, trailer: seq<(string, string)>)
    returns (response: ChunkedResponse, parser: ResponseParser, error: Option<ChunkError>)
    requires forall i :: 0 <= i < |pieces| ==> Sendable(pieces[i])
    requires forall i :: 0 <= i < |trailer| ==> WritableHeader(trailer[i])
    ensures error == None && parser.body == Concat(pieces) && parser.headers == AsMap(trailer, false)
    ensures parser.input.input == "" && response.bytesSent == |Concat(pieces)|
  {
    hide Chunks, Chunk, WritableHeader, HeaderBlock, ChunksOf, HeadersOf, AsMap, Concat;
    response := new ChunkedResponse(false);
    NothingSent();
    for i := 0 to |pieces|
      invariant fresh(response) && !response.dontChunk
      invariant response.sent == Chunks(pieces[..i]) && response.bytesSent == |Concat(pieces[..i])|
    {
      response.Add(pieces[i]);
      ChunksAppend(pieces[..i], pieces[i]);
      ConcatAppend(pieces[..i], pieces[i]);
      assert pieces[..i + 1] == pieces[..i] + [pieces[i]];
    }
    assert pieces[..|pieces|] == pieces;
    response.CloseChunks();
    ghost var front := response.sent;
    for i := 0 to |trailer|
      invariant fresh(response) && !response.dontChunk && response.bytesSent == |Concat(pieces)|
      invariant response.sent + HeaderBlock(trailer[i..]) == front + HeaderBlock(trailer)
    {
      OneHeader(response.sent, trailer, i);
      response.AddTrailingHeader(trailer[i].0, trailer[i].1);
    }
    OneHeader(response.sent, trailer, |trailer|);
    response.CloseTrailer();
    Assoc(Chunks(pieces), "0" + CRLF, HeaderBlock(trailer));
    ChunksRoundTrip(pieces, HeaderBlock(trailer));
    HeadersRoundTrip(trailer, false, "");
    assert HeaderBlock(trailer) + "" == HeaderBlock(trailer);
    assert map[] + AsMap(trailer, false) == AsMap(trailer, false);
    var reader := new StreamReader(response.sent);
    parser := new ResponseParser(reader);
    error := parser.ParseChunkedBody();
  }

  lemma NothingSent()
    ensures Chunks([]) == "" == Concat([])
  {
  }

  lemma OneHeader(sent: string, trailer: seq<(string, string)>, i: nat)
    requires i <= |trailer|
    ensures sent + HeaderBlock(trailer[i..]) ==
            if i == |trailer| then sent + CRLF
            else sent + (HeaderLine(trailer[i].0, trailer[i].1) + CRLF) + HeaderBlock(trailer[i + 1..])
  {
    if i < |trailer| {
      assert trailer[i..][1..] == trailer[i + 1..];
      Assoc(sent, HeaderLine(trailer[i].0, trailer[i].1) + CRLF, HeaderBlock(trailer[i + 1..]));
    }
  }
}
