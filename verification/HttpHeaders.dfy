// Header lines of requests and responses, as Request and ResponseParser match and collect them
// (src/fitnesse/http/Request.java, src/fitnesse/http/ResponseParser.java). Text is ASCII.
module HttpHeaders {
  import opened Wrappers
  import opened Strings
  import opened StreamReading

  const CRLF := "\r\n"

  predicate Plain(s: string) {
    forall i :: 0 <= i < |s| ==> s[i] != '\r' && s[i] != '\n'
  }

  // A line without line breaks is read back as it is.
  lemma {:induction false} LineRoundTrip(line: string, rest: string)
    requires Plain(line)
    ensures LineOf(line + CRLF + rest) == (line, rest)
  {
    var s := line + CRLF + rest;
    if line == "" {
      assert s[0] == '\r' && s[1] == '\n' && s[1..][1..] == rest;
    } else {
      assert s[0] == line[0] && s[1..] == line[1..] + CRLF + rest;
      LineRoundTrip(line[1..], rest);
      assert [line[0]] + line[1..] == line;
    }
  }

  // ---------- the header pattern ([^:]*): (.*) ----------

  // The leftmost match from the i-th character on, where `start` is behind the last colon before i.
  function MatchHeaderFrom(line: string, start: nat, i: nat): Option<(string, string)>
    requires start <= i <= |line|
    decreases |line| - i
  {
    if i == |line| then None
    else if line[i] != ':' then MatchHeaderFrom(line, start, i + 1)
    else if i + 1 < |line| && line[i + 1] == ' ' then Some((line[start..i], line[i + 2..]))
    else MatchHeaderFrom(line, i + 1, i + 1)
  }

  function MatchHeader(line: string): Option<(string, string)> {
    MatchHeaderFrom(line, 0, 0)
  }

  function HeaderLine(key: string, value: string): string {
    key + ": " + value
  }

  lemma {:induction false} MatchHeaderLine(key: string, value: string, i: nat)
    requires i <= |key| && forall j :: 0 <= j < |key| ==> key[j] != ':'
    ensures MatchHeaderFrom(HeaderLine(key, value), 0, i) == Some((key, value))
    decreases |key| - i
  {
    var line := HeaderLine(key, value);
    if i == |key| {
      assert line[i] == ':' && line[i + 1] == ' ' && line[..i] == key && line[i + 2..] == value;
    } else {
      assert line[i] == key[i];
      MatchHeaderLine(key, value, i + 1);
    }
  }

  // ---------- a block of header lines ----------

  // A request keeps its header names in lower case, a response as they are.
  function HeadersOfLine(line: string, lower: bool): map<string, string> {
    match MatchHeader(line)
    case None => map[]
    case Some((key, value)) => map[(if lower then LowerCase(key) else key) := value]
  }

  // The headers up to the first empty line, a later one of the same name replacing an earlier one.
  function HeadersOf(s: string, lower: bool): (r: (map<string, string>, string))
    ensures s != "" ==> |r.1| < |s|
    decreases |s|
  {
    var (line, rest) := LineOf(s);
    if line == "" then (map[], rest)
    else
      var (headers, rest') := HeadersOf(rest, lower);
      (HeadersOfLine(line, lower) + headers, rest')
  }

  method ReadHeaders(reader: StreamReader, lower: bool, headers0: map<string, string>)
    returns (headers: map<string, string>)
    modifies reader
    ensures (headers, reader.input)
            == (headers0 + HeadersOf(old(reader.input), lower).0, HeadersOf(old(reader.input), lower).1)
    ensures reader.bytesConsumed - old(reader.bytesConsumed) == |old(reader.input)| - |reader.input|
  {
    hide MatchHeader, LineOf;
    headers := headers0;
    ghost var s := reader.input;
    var line := reader.ReadLine();
    while line != ""
      invariant LineOf(s) == (line, reader.input) && |reader.input| <= |s|
      invariant headers + HeadersOf(s, lower).0 == headers0 + HeadersOf(old(reader.input), lower).0
      invariant HeadersOf(s, lower).1 == HeadersOf(old(reader.input), lower).1
      invariant reader.bytesConsumed - old(reader.bytesConsumed) == |old(reader.input)| - |reader.input|
      decreases |s|
    {
      ghost var next := HeadersOf(reader.input, lower).0;
      PutAll(headers, HeadersOfLine(line, lower), next);
      headers := headers + HeadersOfLine(line, lower);
      s := reader.input;
      line := reader.ReadLine();
    }
    PutNothing(headers);
  }

  lemma PutAll(a: map<string, string>, b: map<string, string>, c: map<string, string>)
    ensures a + (b + c) == a + b + c
  {
  }

  lemma PutNothing(a: map<string, string>)
    ensures a + map[] == a
  {
  }

  // ---------- written headers are read back ----------

  function HeaderBlock(lines: seq<(string, string)>): string {
    if lines == [] then CRLF else HeaderLine(lines[0].0, lines[0].1) + CRLF + HeaderBlock(lines[1..])
  }

  function AsMap(lines: seq<(string, string)>, lower: bool): map<string, string> {
    if lines == [] then map[]
    else map[(if lower then LowerCase(lines[0].0) else lines[0].0) := lines[0].1] + AsMap(lines[1..], lower)
  }

  predicate WritableHeader(h: (string, string)) {
    Plain(h.0) && Plain(h.1) && forall i :: 0 <= i < |h.0| ==> h.0[i] != ':'
  }

  lemma {:induction false} HeadersRoundTrip(lines: seq<(string, string)>, lower: bool, rest: string)
    requires forall i :: 0 <= i < |lines| ==> WritableHeader(lines[i])
    ensures HeadersOf(HeaderBlock(lines) + rest, lower) == (AsMap(lines, lower), rest)
  {
    hide LineOf, LowerCase;
    var s := HeaderBlock(lines) + rest;
    if lines == [] {
      LineRoundTrip("", rest);
      assert s == "" + CRLF + rest;
    } else {
      var line := HeaderLine(lines[0].0, lines[0].1);
      assert WritableHeader(lines[0]);
      LineRoundTrip(line, HeaderBlock(lines[1..]) + rest);
      assert s == line + CRLF + (HeaderBlock(lines[1..]) + rest);
      MatchHeaderLine(lines[0].0, lines[0].1, 0);
      HeadersRoundTrip(lines[1..], lower, rest);
    }
  }
}
