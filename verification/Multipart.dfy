// Multipart forms (section 5.1.1 of RFC 2046): RequestBuilder writes the body, Request reads the
// fields back (src/fitnesse/http/RequestBuilder.java, src/fitnesse/http/Request.java).
module Multipart {
  import opened Wrappers
  import opened Sequences
  import opened Strings
  import opened StreamReading
  import opened HttpHeaders

  // The value of a form field: a text, or a stream with the size and type its caller states.
  datatype Part = Text(text: string) | Stream(content: string, size: int, contentType: string)

  type Field = (string, Part)

  function Content(p: Part): string {
    if p.Text? then p.text else p.content
  }

  function ContentType(p: Part): string {
    if p.Text? then "text/plain" else p.contentType
  }

  // ---------- the body that is written ----------

  function Disposition(name: string): string {
    "form-data; name=\"" + name + "\""
  }

  function PartHeaders(f: Field): seq<(string, string)> {
    [("Content-Disposition", Disposition(f.0)), ("Content-Type", ContentType(f.1))]
  }

  // Everything behind the boundary that introduces the fields, up to the end of the body.
  function AfterBoundary(fields: seq<Field>, boundary: string): string {
    if fields == [] then "--" + CRLF
    else CRLF + (HeaderBlock(PartHeaders(fields[0]))
                 + (Content(fields[0].1) + (CRLF + "--" + boundary + AfterBoundary(fields[1..], boundary))))
  }

  function Body(fields: seq<Field>, boundary: string): string {
    "--" + boundary + AfterBoundary(fields, boundary)
  }

  // ---------- the pattern ([^ =]+)="([^"]*)" ----------

  function RunEnd(v: string, i: nat): (e: nat)
    requires i <= |v|
    ensures i <= e <= |v|
    decreases |v| - i
  {
    if i == |v| || v[i] == ' ' || v[i] == '=' then i else RunEnd(v, i + 1)
  }

  function QuoteAt(v: string, i: nat): (q: nat)
    requires i <= |v|
    ensures i <= q <= |v|
    decreases |v| - i
  {
    if i == |v| || v[i] == '"' then i else QuoteAt(v, i + 1)
  }

  // All matches from the i-th character on; a later one replaces an earlier one of the same name.
  function PairsFrom(v: string, i: nat): map<string, string>
    requires i <= |v|
    decreases |v| - i
  {
    if i == |v| then map[]
    else
      var e := RunEnd(v, i);
      if e > i && e + 1 < |v| && v[e] == '=' && v[e + 1] == '"' && QuoteAt(v, e + 2) < |v|
      then map[v[i..e] := v[e + 2..QuoteAt(v, e + 2)]] + PairsFrom(v, QuoteAt(v, e + 2) + 1)
      else PairsFrom(v, i + 1)
  }

  lemma {:induction false} RunEndIs(v: string, i: nat, e: nat)
    requires i <= e < |v| && (v[e] == ' ' || v[e] == '=')
    requires forall j :: i <= j < e ==> v[j] != ' ' && v[j] != '='
    ensures RunEnd(v, i) == e
    decreases e - i
  {
    if i < e {
      RunEndIs(v, i + 1, e);
    }
  }

  lemma {:induction false} QuoteAtIs(v: string, i: nat, q: nat)
    requires i <= q < |v| && v[q] == '"' && forall j :: i <= j < q ==> v[j] != '"'
    ensures QuoteAt(v, i) == q
    decreases q - i
  {
    if i < q {
      QuoteAtIs(v, i + 1, q);
    }
  }

  // A word that ends in a space holds no match.
  lemma {:induction false} SkipWord(v: string, i: nat, e: nat)
    requires i <= e < |v| && v[e] == ' ' && forall j :: i <= j < e ==> v[j] != ' ' && v[j] != '='
    ensures PairsFrom(v, i) == PairsFrom(v, e + 1)
    decreases e - i
  {
    RunEndIs(v, i, e);
    if i < e {
      SkipWord(v, i + 1, e);
    }
  }

  lemma DispositionShape(name: string)
    ensures var v := Disposition(name);
            && |v| == 18 + |name| && v[10] == ' ' && v[11..15] == "name" && v[15] == '=' && v[16] == '"'
            && v[17..17 + |name|] == name && v[17 + |name|] == '"'
            && (forall j :: 0 <= j < 10 || 11 <= j < 15 ==> v[j] != ' ' && v[j] != '=')
  {
    var v := Disposition(name);
    var start := "form-data; name=\"";
    assert |start| == 17;
    assert forall i :: 0 <= i < 17 ==> v[i] == start[i];
    assert start[0] == 'f' && start[1] == 'o' && start[2] == 'r' && start[3] == 'm' && start[4] == '-';
    assert start[5] == 'd' && start[6] == 'a' && start[7] == 't' && start[8] == 'a' && start[9] == ';'
           && start[10] == ' ';
    assert start[11] == 'n' && start[12] == 'a' && start[13] == 'm' && start[14] == 'e' && start[15] == '='
           && start[16] == '"';
  }

  lemma NameIsFound(name: string)
    requires '"' !in name
    ensures PairsFrom(Disposition(name), 0) == map["name" := name]
  {
    hide Disposition;
    var v := Disposition(name);
    DispositionShape(name);
    SkipWord(v, 0, 10);
    RunEndIs(v, 11, 15);
    var q := 17 + |name|;
    assert forall j :: 17 <= j < q ==> v[j] == v[17..q][j - 17];
    QuoteAtIs(v, 17, q);
    assert PairsFrom(v, q + 1) == map[];
  }

  // ---------- what is read ----------

  // The fields by name; a part without a name goes under the absent one. An uploaded file has the
  // name and type its part states.
  datatype Upload = Upload(filename: string, contentType: Option<string>, content: string)
  datatype Form = Form(inputs: map<Option<string>, string>, uploads: map<Option<string>, Upload>, rest: string)

  datatype FormError = NoContentDisposition

  function Get(m: map<string, string>, key: string): Option<string> {
    if key in m then Some(m[key]) else None
  }

  // One part, from behind its boundary to behind the next.
  datatype PartRead = PartRead(name: Option<string>, filename: Option<string>, contentType: Option<string>,
                               content: string, rest: string)

  function ReadPartOf(s: string, delimiter: string): (r: Result<PartRead, FormError>)
    requires delimiter != ""
    ensures r.Success? ==> |r.value.rest| < |s|
  {
    var (_, s1) := LineOf(s);
    var (lines, s2) := HeadersOf(s1, true);
    if "content-disposition" !in lines then Failure(NoContentDisposition)
    else
      NoHeadersAtEnd();
      UpToShrinks(s2, delimiter, 0);
      var headers := lines + PairsFrom(lines["content-disposition"], 0);
      var r := UpTo(s2, delimiter, 0);
      Success(PartRead(Get(headers, "name"), Get(headers, "filename"), Get(headers, "content-type"), r.text, r.rest))
  }

  lemma NoHeadersAtEnd()
    ensures HeadersOf("", true) == (map[], "")
  {
  }

  lemma {:induction false} UpToShrinks(s: string, b: string, m: nat)
    requires m < |b|
    ensures |UpTo(s, b, m).rest| <= |s|
    decreases |s|
  {
    if s != "" {
      UpToShrinks(s[1..], b, 0);
      if m + 1 < |b| { UpToShrinks(s[1..], b, m + 1); }
      if 1 < |b| { UpToShrinks(s[1..], b, 1); }
    }
  }

  function WithPart(p: PartRead, f: Form): Form {
    if p.filename.Some?
    then f.(uploads := map[p.name := Upload(p.filename.value, p.contentType, p.content)] + f.uploads)
    else f.(inputs := map[p.name := p.content] + f.inputs)
  }

  // The parts, as long as more than ten of the announced bytes are left.
  function PartsOf(s: string, delimiter: string, left: int): Result<Form, FormError>
    requires delimiter != ""
    decreases |s|
  {
    if left <= 10 then Success(Form(map[], map[], s))
    else match ReadPartOf(s, delimiter)
      case Failure(e) => Failure(e)
      case Success(p) =>
        match PartsOf(p.rest, delimiter, left - (|s| - |p.rest|))
        case Failure(e) => Failure(e)
        case Success(f) => Success(WithPart(p, f))
  }

  // ---------- the round trip ----------

  predicate WritableBoundary(boundary: string) {
    Plain(boundary) && Ascii(boundary)
  }

  predicate WritableField(f: Field, boundary: string) {
    && Plain(f.0) && '"' !in f.0
    && Plain(ContentType(f.1))
    && FirstIndexOf(Content(f.1), CRLF + "--" + boundary).None?
  }

  lemma {:induction false} ReadUpToLeadingBoundary(b: string, rest: string)
    requires Ascii(b) && b != ""
    ensures UpTo(b + rest, b, 0) == UpToResult("", rest, true)
  {
    var n := |b| - 1;
    assert b[0..n] + (b[n..] + rest) == b + rest;
    UpToRunsThrough(b[n..] + rest, b, 0, n);
    assert (b[n..] + rest)[1..] == rest;
  }

  lemma InOccurrence(s: string, d: string, i: nat, p: nat)
    requires i <= p < i + |d| <= |s| && s[i..i + |d|] == d
    ensures s[p] == d[p - i]
  {
    assert s[i..i + |d|][p - i] == s[p];
  }

  // A delimiter whose first byte does not come again first occurs where it was put.
  lemma DelimiterIsFirst(value: string, d: string, rest: string)
    requires d != "" && (forall i :: 0 < i < |d| ==> d[i] != d[0]) && FirstIndexOf(value, d).None?
    ensures FirstIndexOf(value + (d + rest), d) == Some(|value|)
  {
    hide FirstIndexOf;
    var s := value + (d + rest);
    assert s[|value|..|value| + |d|] == d;
    FirstIndexIsFirst(s, d, |value|);
    var i := FirstIndexOf(s, d).value;
    if i + |d| <= |value| {
      assert value[i..i + |d|] == s[i..i + |d|];
      FirstIndexIsFirst(value, d, i);
    } else if i < |value| {
      InOccurrence(s, d, i, |value|);
    }
  }

  lemma UniqueFirstIsSafe(d: string)
    requires forall i :: 0 < i < |d| ==> d[i] != d[0]
    ensures SafeBoundary(d)
  {
  }

  // A value is read up to the delimiter behind it, if it does not contain the delimiter itself.
  lemma ReadUpToDelimiter(value: string, d: string, rest: string)
    requires Ascii(d) && d != "" && (forall i :: 0 < i < |d| ==> d[i] != d[0]) && FirstIndexOf(value, d).None?
    ensures UpTo(value + (d + rest), d, 0) == UpToResult(value, rest, true)
  {
    hide UpTo, FirstIndexOf, SafeBoundary;
    var s := value + (d + rest);
    DelimiterIsFirst(value, d, rest);
    UniqueFirstIsSafe(d);
    UpToSplits(s, d, 0);
    assert d[..0] == [];
    AroundMiddle(s, [], []);
    AroundMiddle(value, d, rest);
  }

  lemma DelimiterBytes(boundary: string)
    requires WritableBoundary(boundary)
    ensures var d := CRLF + "--" + boundary;
            Ascii(d) && |d| == 4 + |boundary| && forall i :: 0 < i < |d| ==> d[i] != d[0]
    ensures Ascii("--" + boundary)
  {
    var d := CRLF + "--" + boundary;
    assert d[0] == '\r' && d[1] == '\n' && d[2] == '-' && d[3] == '-';
    assert forall i :: 4 <= i < |d| ==> d[i] == boundary[i - 4];
  }

  lemma HeadersOfPart(f: Field)
    requires Plain(f.0) && Plain(ContentType(f.1))
    ensures var h := AsMap(PartHeaders(f), true);
            h == map["content-disposition" := Disposition(f.0), "content-type" := ContentType(f.1)]
    ensures forall i :: 0 <= i < |PartHeaders(f)| ==> WritableHeader(PartHeaders(f)[i])
  {
    var lines := PartHeaders(f);
    LowerCaseNames();
    assert AsMap(lines[2..], true) == map[];
    assert lines[1..][1..] == lines[2..] && lines[1..][0] == lines[1];
    DispositionPlain(f.0);
  }

  lemma LowerCaseNames()
    ensures LowerCase("Content-Disposition") == "content-disposition"
    ensures LowerCase("Content-Type") == "content-type"
    ensures forall i ::
              0 <= i < 19 ==>
                "Content-Disposition"[i] != ':' && "Content-Disposition"[i] != '\r' && "Content-Disposition"[i] != '\n'
    ensures forall i ::
              0 <= i < 12 ==> "Content-Type"[i] != ':' && "Content-Type"[i] != '\r' && "Content-Type"[i] != '\n'
  {
  }

  lemma DispositionPlain(name: string)
    requires Plain(name)
    ensures Plain(Disposition(name))
  {
  }

  // Behind its boundary, a written field is read back with its name and value, up to behind the next.
  lemma ReadPartBack(f: Field, boundary: string, d: string, rest: string)
    requires WritableBoundary(boundary) && WritableField(f, boundary) && d == CRLF + "--" + boundary
    ensures ReadPartOf(CRLF + (HeaderBlock(PartHeaders(f)) + (Content(f.1) + (d + rest))), d)
         == Success(PartRead(Some(f.0), None, Some(ContentType(f.1)), Content(f.1), rest))
  {
    hide UpTo, HeadersOf, FirstIndexOf, LineOf, HeaderBlock, PairsFrom, Disposition, PartHeaders;
    var s2 := Content(f.1) + (d + rest);
    var s1 := HeaderBlock(PartHeaders(f)) + s2;
    LineRoundTrip("", s1);
    assert "" + CRLF + s1 == CRLF + s1;
    HeadersOfPart(f);
    HeadersRoundTrip(PartHeaders(f), true, s2);
    NameIsFound(f.0);
    DelimiterBytes(boundary);
    ReadUpToDelimiter(Content(f.1), d, rest);
    KeysOfPart(f);
  }

  lemma KeysOfPart(f: Field)
    ensures var h :=
              map["content-disposition" := Disposition(f.0), "content-type" := ContentType(f.1)] + map["name" := f.0];
            && Get(h, "name") == Some(f.0) && Get(h, "filename") == None
            && Get(h, "content-type") == Some(ContentType(f.1))
  {
    hide Disposition;
    assert |"name"| == 4 && |"filename"| == 8 && |"content-type"| == 12 && |"content-disposition"| == 19;
  }

  // The written fields as the map that is read back.
  function AsInputs(fields: seq<Field>): map<Option<string>, string> {
    if fields == [] then map[] else map[Some(fields[0].0) := Content(fields[0].1)] + AsInputs(fields[1..])
  }

  // Reading stops exactly behind the last field: four bytes are left then, and more than ten before.
  lemma {:induction false} PartsRoundTrip(fields: seq<Field>, boundary: string, extra: string)
    requires WritableBoundary(boundary) && forall i :: 0 <= i < |fields| ==> WritableField(fields[i], boundary)
    ensures PartsOf(AfterBoundary(fields, boundary) + extra, CRLF + "--" + boundary, |AfterBoundary(fields, boundary)|)
         == Success(Form(AsInputs(fields), map[], "--" + CRLF + extra))
  {
    hide ReadPartOf, WritableField, HeaderBlock, PartHeaders, Content;
    var d := CRLF + "--" + boundary;
    var after := AfterBoundary(fields, boundary);
    if fields != [] {
      var f, tail := fields[0], AfterBoundary(fields[1..], boundary);
      var rest := tail + extra;
      PartsRoundTrip(fields[1..], boundary, extra);
      ReadPartBack(f, boundary, d, rest);
      Nested(CRLF, HeaderBlock(PartHeaders(f)), Content(f.1), d, tail, extra);
      HeaderBlockIsLong(f);
    }
  }

  lemma Nested<T>(a: seq<T>, b: seq<T>, c: seq<T>, d: seq<T>, e: seq<T>, f: seq<T>)
    ensures a + (b + (c + (d + e))) + f == a + (b + (c + (d + (e + f))))
  {
    Assoc(d, e, f);
    Assoc(c, d + e, f);
    Assoc(b, c + (d + e), f);
    Assoc(a, b + (c + (d + e)), f);
  }

  lemma HeaderBlockIsLong(f: Field)
    ensures |HeaderBlock(PartHeaders(f))| > 10
  {
    hide Disposition;
    var lines := PartHeaders(f);
    assert |HeaderLine(lines[0].0, lines[0].1)| >= 19;
  }

  // ---------- writing ----------

  function PartHead(f: Field, boundary: string): string {
    "--" + boundary + CRLF + HeaderBlock(PartHeaders(f))
  }

  function Written(fields: seq<Field>, boundary: string): string {
    if fields == [] then ""
    else PartHead(fields[0], boundary) + Content(fields[0].1) + CRLF + Written(fields[1..], boundary)
  }

  lemma {:induction false} WrittenAppend(fields: seq<Field>, f: Field, boundary: string)
    ensures Written(fields + [f], boundary) == Written(fields, boundary) + (PartHead(f, boundary) + Content(f.1) + CRLF)
  {
    hide PartHead, Content;
    if fields == [] {
      assert fields + [f] == [f] && [f][1..] == [];
    } else {
      WrittenAppend(fields[1..], f, boundary);
      assert (fields + [f])[1..] == fields[1..] + [f];
      Assoc(PartHead(fields[0], boundary) + Content(fields[0].1) + CRLF, Written(fields[1..], boundary),
            PartHead(f, boundary) + Content(f.1) + CRLF);
    }
  }

  lemma {:induction false} WrittenIsBody(fields: seq<Field>, boundary: string)
    ensures Written(fields, boundary) + ("--" + boundary + "--" + CRLF) == Body(fields, boundary)
  {
    hide HeaderBlock, PartHeaders, Content;
    var b := "--" + boundary;
    if fields == [] {
      Assoc(b, "--", CRLF);
    } else {
      WrittenIsBody(fields[1..], boundary);
      var h, c := HeaderBlock(PartHeaders(fields[0])), Content(fields[0].1);
      var w, after := Written(fields[1..], boundary), AfterBoundary(fields[1..], boundary);
      RegroupPart(b, CRLF, h, c, w, b + "--" + CRLF, after);
      Assoc(CRLF, "--", boundary);
    }
  }

  lemma RegroupPart<T>(b: seq<T>, n: seq<T>, h: seq<T>, c: seq<T>, w: seq<T>, tail: seq<T>, after: seq<T>)
    requires w + tail == b + after
    ensures b + n + h + c + n + w + tail == b + (n + (h + (c + (n + b + after))))
  {
    var front := b + n + h + c + n;
    Assoc(front, w, tail);
    Assoc(front, b, after);
    Assoc(b + n + h + c, n, b);
    Assoc(b + n + h + c, n + b, after);
    Assoc(b + n + h, c, n + b + after);
    Assoc(b + n, h, c + (n + b + after));
    Assoc(b, n, h + (c + (n + b + after)));
  }

  // The fields in some order, each once: the order of a hash map is open.
  ghost predicate Enumerates(fields: seq<Field>, inputs: map<string, Part>) {
    && (forall i :: 0 <= i < |fields| ==> fields[i].0 in inputs && inputs[fields[i].0] == fields[i].1)
    && (forall i, j :: 0 <= i < j < |fields| ==> fields[i].0 != fields[j].0)
    && (forall name :: name in inputs ==> (name, inputs[name]) in fields)
  }

  // Whatever the order, the fields are read as the map that was written.
  lemma {:induction false} AsInputsOfAll(fields: seq<Field>, inputs: map<string, Part>)
    requires forall i :: 0 <= i < |fields| ==> fields[i].0 in inputs && inputs[fields[i].0] == fields[i].1
    ensures forall n :: n in AsInputs(fields) <==> n.Some? && n.value in inputs && (n.value, inputs[n.value]) in fields
    ensures forall n :: n in AsInputs(fields) ==> AsInputs(fields)[n] == Content(inputs[n.value])
  {
    hide Content;
    if fields != [] {
      AsInputsOfAll(fields[1..], inputs);
    }
  }

  predicate Sized(p: Part) {
    p.Stream? ==> p.size == |p.content|
  }

  class RequestBuilder {
    const boundary: string
    var inputs: map<string, Part>
    var bodyParts: seq<string>
    var bodyLength: int
    var contentLength: Option<int>  // the Content-Length header

    constructor (boundary: string)
      ensures this.boundary == boundary && inputs == map[] && bodyParts == [] && bodyLength == 0
    {
      this.boundary := boundary;
      inputs, bodyParts, bodyLength, contentLength := map[], [], 0, None;
    }

    method AddInputAsPart(name: string, part: Part)
      modifies this`inputs
      ensures inputs == old(inputs)[name := part]
    {
      inputs := inputs[name := part];
    }

    method AddBodyPart(text: string)
      modifies this`bodyParts, this`bodyLength
      ensures Concat(bodyParts) == old(Concat(bodyParts)) + text
      ensures bodyLength == old(bodyLength) + |text|
    {
      ConcatAppend(bodyParts, text);
      bodyParts := bodyParts + [text];
      bodyLength := bodyLength + |text|;
    }

    method BuildBody() returns (ghost fields: seq<Field>)
      requires bodyParts == [] && bodyLength == 0
      modifies this`bodyParts, this`bodyLength, this`contentLength
      ensures Enumerates(fields, inputs)
      ensures Concat(bodyParts) == Body(fields, boundary)
      ensures contentLength == Some(bodyLength)
      ensures (forall name :: name in inputs ==> Sized(inputs[name])) ==> bodyLength == |Body(fields, boundary)|
    {
      hide Written, Concat, Body, PartHead;
      fields := [];
      var names := inputs.Keys;
      assert Concat([]) == "" == Written([], boundary) by {
        NothingWritten(boundary);
      }
      while names != {}
        invariant names <= inputs.Keys
        invariant forall i ::
                    0 <= i < |fields| ==>
                      fields[i].0 in inputs && inputs[fields[i].0] == fields[i].1 && fields[i].0 !in names
        invariant forall i, j :: 0 <= i < j < |fields| ==> fields[i].0 != fields[j].0
        invariant forall name :: name in inputs ==> name in names || (name, inputs[name]) in fields
        invariant Concat(bodyParts) == Written(fields, boundary)
        invariant (forall name :: name in inputs ==> Sized(inputs[name])) ==> bodyLength == |Written(fields, boundary)|
      {
        var name :| name in names;
        names := names - {name};
        AddField((name, inputs[name]));
        WrittenAppend(fields, (name, inputs[name]), boundary);
        fields := fields + [(name, inputs[name])];
      }
      AddBodyPart("--" + boundary + "--" + CRLF);
      WrittenIsBody(fields, boundary);
      contentLength := Some(bodyLength);
    }

    // A text goes out as one piece; a stream is put between two, with the size that was stated.
    method AddField(f: Field)
      modifies this`bodyParts, this`bodyLength
      ensures Concat(bodyParts) == old(Concat(bodyParts)) + (PartHead(f, boundary) + Content(f.1) + CRLF)
      ensures Sized(f.1) ==> bodyLength == old(bodyLength) + |PartHead(f, boundary) + Content(f.1) + CRLF|
    {
      hide Concat;
      var head := PartHead(f, boundary);
      match f.1 {
        case Text(text) =>
          AddBodyPart(head + text + CRLF);
        case Stream(content, size, _) =>
          AddBodyPart(head);
          ConcatAppend(bodyParts, content);
          bodyParts := bodyParts + [content];
          bodyLength := bodyLength + size;
          AddBodyPart(CRLF);
      }
    }

    // Every body part is copied through a reader, at most a thousand bytes at a time.
    method SendBody() returns (output: string)
      ensures output == Concat(bodyParts)
    {
      output := "";
      for i := 0 to |bodyParts|
        invariant output == Concat(bodyParts[..i])
      {
        var reader := new StreamReader(bodyParts[i]);
        ghost var copied := "";
        while !reader.eof
          invariant fresh(reader)
          invariant output == Concat(bodyParts[..i]) + copied && bodyParts[i] == copied + reader.input
          invariant reader.eof ==> reader.input == ""
          decreases |reader.input|, !reader.eof
        {
          var bytes := reader.ReadBytes(1000);
          Assoc(Concat(bodyParts[..i]), copied, bytes);
          output := output + bytes;
          copied := copied + bytes;
        }
        ConcatAppend(bodyParts[..i], bodyParts[i]);
        assert bodyParts[..i + 1] == bodyParts[..i] + [bodyParts[i]];
      }
      assert bodyParts[..|bodyParts|] == bodyParts;
    }
  }

  lemma NothingWritten(boundary: string)
    ensures Concat([]) == "" == Written([], boundary)
  {
  }

  // ---------- reading ----------

  function Joined(inputs: map<Option<string>, string>, uploads: map<Option<string>, Upload>, f: Form): Form {
    Form(inputs + f.inputs, uploads + f.uploads, f.rest)
  }

  class Request {
    const input: StreamReader
    var inputs: map<Option<string>, string>
    var uploads: map<Option<string>, Upload>

    constructor (reader: StreamReader)
      ensures input == reader && inputs == map[] && uploads == map[]
    {
      input, inputs, uploads := reader, map[], map[];
    }

    // A part without a Content-Disposition header ends the reading with an exception.
    method ParseMultiPartContent(boundary: string, contentLength: int) returns (error: Option<FormError>)
      modifies this`inputs, this`uploads, input
      ensures var s := UpTo(old(input.input), "--" + boundary, 0).rest;
              var left := contentLength - (|old(input.input)| - |s|);
              match PartsOf(s, CRLF + "--" + boundary, left)
              case Failure(e) => error == Some(e)
              case Success(f) =>
                && error == None
                && Form(inputs, uploads, input.input) == Joined(old(inputs), old(uploads), f)
    {
      hide UpTo, PartsOf, ReadPartOf;
      input.bytesConsumed := 0;
      var skipped := input.ReadUpTo("--" + boundary);
      ghost var s := input.input;
      ghost var left := contentLength - (|old(input.input)| - |s|);
      var delimiter := CRLF + "--" + boundary;
      while contentLength - input.bytesConsumed > 10
        invariant contentLength - input.bytesConsumed == left - (|s| - |input.input|)
        invariant StillToRead(old(inputs), old(uploads), PartsOf(s, delimiter, left),
                              inputs, uploads, PartsOf(input.input, delimiter, contentLength - input.bytesConsumed))
        decreases |input.input|
      {
        PartsUnfold(input.input, delimiter, contentLength - input.bytesConsumed);
        var part := ReadPart(delimiter);
        if part.Failure? {
          return Some(part.error);
        }
        AddPart(part.value);
      }
      PartsEnd(input.input, delimiter, contentLength - input.bytesConsumed);
      return None;
    }

    method ReadPart(delimiter: string) returns (r: Result<PartRead, FormError>)
      requires delimiter != ""
      modifies input
      ensures r == ReadPartOf(old(input.input), delimiter)
      ensures r.Success? ==> input.input == r.value.rest
                             && input.bytesConsumed - old(input.bytesConsumed) == |old(input.input)| - |input.input|
    {
      hide UpTo, LineOf, HeadersOf;
      var line := input.ReadLine();
      var headers := ReadHeaders(input, true, map[]);
      PutFirst(HeadersOf(LineOf(old(input.input)).1, true).0);
      if "content-disposition" !in headers {
        return Failure(NoContentDisposition);
      }
      headers := headers + PairsFrom(headers["content-disposition"], 0);
      var content := input.ReadUpTo(delimiter);
      return Success(PartRead(Get(headers, "name"), Get(headers, "filename"), Get(headers, "content-type"), content,
                              input.input));
    }

    method AddPart(p: PartRead)
      modifies this`inputs, this`uploads
      ensures forall f :: Joined(old(inputs), old(uploads), WithPart(p, f)) == Joined(inputs, uploads, f)
    {
      var added := Added(p, inputs, uploads);
      forall f ensures Joined(inputs, uploads, WithPart(p, f)) == Joined(added.0, added.1, f) {
        AddedFirst(p, inputs, uploads, f);
      }
      if p.filename.Some? {
        uploads := uploads[p.name := Upload(p.filename.value, p.contentType, p.content)];
      } else {
        inputs := inputs[p.name := p.content];
      }
    }
  }

  function Added(p: PartRead, inputs: map<Option<string>, string>, uploads: map<Option<string>, Upload>):
    (map<Option<string>, string>, map<Option<string>, Upload>)
  {
    if p.filename.Some? then (inputs, uploads[p.name := Upload(p.filename.value, p.contentType, p.content)])
    else (inputs[p.name := p.content], uploads)
  }

  lemma PutThenAll<V>(m: map<Option<string>, V>, k: Option<string>, v: V, more: map<Option<string>, V>)
    ensures m + (map[k := v] + more) == m[k := v] + more
  {
  }

  lemma AddedFirst(p: PartRead, inputs: map<Option<string>, string>, uploads: map<Option<string>, Upload>, f: Form)
    ensures Joined(inputs, uploads, WithPart(p, f))
            == Joined(Added(p, inputs, uploads).0, Added(p, inputs, uploads).1, f)
  {
    if p.filename.Some? {
      PutThenAll(uploads, p.name, Upload(p.filename.value, p.contentType, p.content), f.uploads);
    } else {
      PutThenAll(inputs, p.name, p.content, f.inputs);
    }
  }

  // What was read so far and what the rest of the input gives make up what the whole gives.
  ghost predicate StillToRead(inputs0: map<Option<string>, string>, uploads0: map<Option<string>, Upload>,
                              whole: Result<Form, FormError>,
                              inputs: map<Option<string>, string>, uploads: map<Option<string>, Upload>,
                              rest: Result<Form, FormError>)
  {
    match rest
    case Failure(e) => whole == Failure(e)
    case Success(f) => whole.Success? && Joined(inputs0, uploads0, whole.value) == Joined(inputs, uploads, f)
  }

  lemma PartsUnfold(s: string, delimiter: string, left: int)
    requires delimiter != "" && left > 10
    ensures match ReadPartOf(s, delimiter)
            case Failure(e) => PartsOf(s, delimiter, left) == Failure(e)
            case Success(p) =>
              match PartsOf(p.rest, delimiter, left - (|s| - |p.rest|))
              case Failure(e) => PartsOf(s, delimiter, left) == Failure(e)
              case Success(f) => PartsOf(s, delimiter, left) == Success(WithPart(p, f))
  {
    hide ReadPartOf;
  }

  lemma PartsEnd(s: string, delimiter: string, left: int)
    requires delimiter != "" && left <= 10
    ensures PartsOf(s, delimiter, left) == Success(Form(map[], map[], s))
  {
  }

  lemma PutFirst(m: map<string, string>)
    ensures map[] + m == m
  {
  }

  // ---------- both together ----------

  // A form that is sent is received with every field under its name, and nothing else; what
  // follows the body in the stream is left unread, behind the end of the body.
  method SendAndReceive(builder: RequestBuilder, extra: string) returns (request: Request, error: Option<FormError>)
    requires builder.bodyParts == [] && builder.bodyLength == 0 && WritableBoundary(builder.boundary)
    requires forall name :: name in builder.inputs ==>
               Sized(builder.inputs[name]) && WritableField((name, builder.inputs[name]), builder.boundary)
    modifies builder
    ensures error == None && request.uploads == map[]
    ensures forall n :: n in request.inputs <==> n.Some? && n.value in old(builder.inputs)
    ensures forall n :: n in request.inputs ==> request.inputs[n] == Content(old(builder.inputs)[n.value])
    ensures request.input.input == "--" + CRLF + extra
  {
    hide WritableField, PartsOf, Concat, AsInputs, UpTo, AfterBoundary, Content, Sized;
    ghost var sent := builder.inputs;
    ghost var fields := builder.BuildBody();
    var body := builder.SendBody();
    var reader := new StreamReader(body + extra);
    request := new Request(reader);
    var boundary := builder.boundary;
    ghost var after := AfterBoundary(fields, boundary);
    Assoc("--" + boundary, after, extra);
    DelimiterBytes(boundary);
    ReadUpToLeadingBoundary("--" + boundary, after + extra);
    PartsRoundTrip(fields, boundary, extra);
    AsInputsOfAll(fields, sent);
    error := request.ParseMultiPartContent(boundary, builder.contentLength.value);
  }

  // The content of each field that was added, the latest under its name.
  function InputsOf(fields: seq<(string, Part)>): map<string, Part> {
    if fields == [] then map[]
    else InputsOf(fields[..|fields| - 1])[fields[|fields| - 1].0 := fields[|fields| - 1].1]
  }

  lemma {:induction false} InputsAreFields(fields: seq<(string, Part)>, name: string)
    requires name in InputsOf(fields)
    ensures (name, InputsOf(fields)[name]) in fields
  {
    var n := |fields| - 1;
    if name != fields[n].0 {
      InputsAreFields(fields[..n], name);
    }
  }

  // A form made of the given fields is received with each name once, and the latest content under it.
  method SendFields(boundary: string, fields: seq<(string, Part)>, extra: string)
    returns (request: Request, error: Option<FormError>)
    requires WritableBoundary(boundary)
    requires forall f :: f in fields ==> Sized(f.1) && WritableField(f, boundary)
    ensures error == None && request.uploads == map[]
    ensures forall n :: n in request.inputs <==> n.Some? && n.value in InputsOf(fields)
    ensures forall n :: n in request.inputs ==> request.inputs[n] == Content(InputsOf(fields)[n.value])
  {
    hide WritableField, WritableBoundary, Content, Sized;
    var builder := new RequestBuilder(boundary);
    for i := 0 to |fields|
      invariant builder.inputs == InputsOf(fields[..i])
      invariant builder.bodyParts == [] && builder.bodyLength == 0 && fresh(builder)
    {
      assert fields[..i + 1][..i] == fields[..i];
      builder.AddInputAsPart(fields[i].0, fields[i].1);
    }
    assert fields[..|fields|] == fields;
    forall name | name in builder.inputs
      ensures Sized(builder.inputs[name]) && WritableField((name, builder.inputs[name]), boundary)
    {
      InputsAreFields(fields, name);
    }
    request, error := SendAndReceive(builder, extra);
  }
}
