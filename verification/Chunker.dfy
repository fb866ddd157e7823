// Splitting style sheet text into chunks before parsing it
// (extra/lesscss/less-rhino-1.7.0.js, the chunker in Parser.parse).
module Chunker {
  import opened Wrappers
  import opened Sequences

  datatype ChunkError =
    | MissingOpeningParen
    | MissingOpeningBrace
    | UnescapedBackslash
    | UnmatchedQuote(quote: char)
    | MissingCommentEnd
    | UnmatchedCommentEnd
    | MissingClosingBrace
    | MissingClosingParen

  // ---------- the text, character by character ----------

  // Slash, Star and BlockOpen follow a '/', a '*' and a comment opener; an escape takes one character.
  datatype Mode =
    | Code
    | Slash
    | Star
    | Escape
    | Quoted(quote: char)
    | QuotedEscape(quote: char)
    | LineComment
    | BlockOpen
    | BlockComment
    | BlockStar

  datatype Lexer = Lexer(mode: Mode, parens: nat, level: nat)

  predicate InCode(m: Mode) {
    m == Code || m == Slash || m == Star
  }

  predicate IsQuote(c: char) {
    c == '"' || c == '\'' || c == '`'
  }

  // Comments are looked for outside parentheses only.
  function CodeStep(s: Lexer, c: char): Result<Lexer, ChunkError> {
    if c == '(' then Success(s.(mode := Code, parens := s.parens + 1))
    else if c == ')' then
      if s.parens == 0 then Failure(MissingOpeningParen) else Success(s.(mode := Code, parens := s.parens - 1))
    else if c == '{' then Success(s.(mode := Code, level := s.level + 1))
    else if c == '}' then
      if s.level == 0 then Failure(MissingOpeningBrace) else Success(s.(mode := Code, level := s.level - 1))
    else if c == '\\' then Success(s.(mode := Escape))
    else if IsQuote(c) then Success(s.(mode := Quoted(c)))
    else if c == '/' then Success(s.(mode := if s.parens > 0 then Code else Slash))
    else if c == '*' then Success(s.(mode := Star))
    else Success(s.(mode := Code))
  }

  function Step(s: Lexer, c: char): Result<Lexer, ChunkError> {
    match s.mode
    case Code => CodeStep(s, c)
    case Slash =>
      if c == '/' then Success(s.(mode := LineComment))
      else if c == '*' then Success(s.(mode := BlockOpen))
      else CodeStep(s, c)
    case Star => if c == '/' then Failure(UnmatchedCommentEnd) else CodeStep(s, c)
    case Escape => Success(s.(mode := Code))
    case Quoted(q) => Success(s.(mode := if c == q then Code else if c == '\\' then QuotedEscape(q) else s.mode))
    case QuotedEscape(q) => Success(s.(mode := Quoted(q)))
    case LineComment => Success(s.(mode := if c == '\n' || c == '\r' then Code else LineComment))
    case BlockOpen => Success(s.(mode := if c == '*' then BlockStar else BlockComment))
    case BlockComment => Success(s.(mode := if c == '*' then BlockStar else BlockComment))
    case BlockStar => Success(s.(mode := if c == '/' then Code else if c == '*' then BlockStar else BlockComment))
  }

  // The state before the k-th character.
  function Lexed(input: string, k: nat): Result<Lexer, ChunkError>
    requires k <= |input|
  {
    if k == 0 then Success(Lexer(Code, 0, 0))
    else
      var before := Lexed(input, k - 1);
      if before.Failure? then before else Step(before.value, input[k - 1])
  }

  // A comment opener as the very last two characters passes.
  function AtEnd(s: Lexer): Option<ChunkError> {
    match s.mode
    case Escape => Some(UnescapedBackslash)
    case QuotedEscape(_) => Some(UnescapedBackslash)
    case Quoted(q) => Some(UnmatchedQuote(q))
    case BlockComment => Some(MissingCommentEnd)
    case BlockStar => Some(MissingCommentEnd)
    case _ =>
      if s.level > 0 then Some(MissingClosingBrace) else if s.parens > 0 then Some(MissingClosingParen) else None
  }

  // ---------- where the text is cut ----------

  // After a semicolon or the brace that closes the outermost block, in code outside parentheses.
  predicate CutAt(input: string, k: nat)
    requires k < |input|
  {
    var s := Lexed(input, k);
    && s.Success? && InCode(s.value.mode) && s.value.parens == 0
    && (input[k] == ';' || (input[k] == '}' && s.value.level == 1))
  }

  const LEAST := 512

  // Where the chunk that holds the k-th character starts, and the chunks before it.
  function EmitFrom(input: string, k: nat): (e: nat)
    requires k <= |input|
    ensures e <= k
  {
    if k == 0 then 0
    else
      var e := EmitFrom(input, k - 1);
      if CutAt(input, k - 1) && k - 1 - e >= LEAST then k else e
  }

  function Emitted(input: string, k: nat): seq<string>
    requires k <= |input|
  {
    if k == 0 then []
    else
      var e := EmitFrom(input, k - 1);
      if CutAt(input, k - 1) && k - 1 - e >= LEAST then Emitted(input, k - 1) + [input[e..k]] else Emitted(input, k - 1)
  }

  function Chunks(input: string): Result<seq<string>, ChunkError> {
    var s := Lexed(input, |input|);
    if s.Failure? then Failure(s.error)
    else if AtEnd(s.value).Some? then Failure(AtEnd(s.value).value)
    else
      var e := EmitFrom(input, |input|);
      Success(Emitted(input, |input|) + if e == |input| then [] else [input[e..]])
  }

  // ---------- the chunks are the text ----------

  lemma {:induction false} EmittedIsPrefix(input: string, k: nat)
    requires k <= |input|
    ensures Concat(Emitted(input, k)) == input[..EmitFrom(input, k)]
  {
    hide CutAt;
    if k > 0 {
      EmittedIsPrefix(input, k - 1);
      var e := EmitFrom(input, k - 1);
      ConcatAppend(Emitted(input, k - 1), input[e..k]);
      assert input[..e] + input[e..k] == input[..k];
    }
  }

  // A chunk that starts at e and ends before k: longer than 512 characters, and cut at the first
  // place that leaves it so long.
  ghost predicate GoodChunk(input: string, e: nat, k: nat)
    requires k <= |input|
  {
    && e + LEAST < k && CutAt(input, k - 1)
    && forall i :: e + LEAST <= i < k - 1 ==> !CutAt(input, i)
  }

  lemma {:induction false} NoCutSince(input: string, k: nat, i: nat)
    requires k <= |input| && EmitFrom(input, k) + LEAST <= i < k
    ensures !CutAt(input, i)
  {
    hide CutAt;
    if i < k - 1 && EmitFrom(input, k) == EmitFrom(input, k - 1) {
      NoCutSince(input, k - 1, i);
    }
  }

  lemma {:induction false} EmittedChunks(input: string, k: nat, n: nat)
    requires k <= |input| && n < |Emitted(input, k)|
    ensures var chunks := Emitted(input, k);
            && |Concat(chunks[..n + 1])| <= |input|
            && GoodChunk(input, |Concat(chunks[..n])|, |Concat(chunks[..n + 1])|)
  {
    hide CutAt;
    var chunks, before := Emitted(input, k), Emitted(input, k - 1);
    if n < |before| {
      EmittedChunks(input, k - 1, n);
      assert chunks[..n] == before[..n] && chunks[..n + 1] == before[..n + 1];
    } else {
      EmittedIsPrefix(input, k - 1);
      EmittedIsPrefix(input, k);
      assert chunks[..n] == before && chunks[..n + 1] == chunks;
      forall i | EmitFrom(input, k - 1) + LEAST <= i < k - 1 ensures !CutAt(input, i) {
        NoCutSince(input, k - 1, i);
      }
    }
  }

  ghost predicate EndsWell(input: string, chunks: seq<string>, n: nat)
    requires n < |chunks|
  {
    && |Concat(chunks[..n + 1])| <= |input|
    && GoodChunk(input, |Concat(chunks[..n])|, |Concat(chunks[..n + 1])|)
  }

  // The chunks put together are the text, no chunk is empty, and every chunk but the last is cut at
  // the first good place after 512 characters.
  lemma ChunksAreTheText(input: string)
    requires Chunks(input).Success?
    ensures var chunks := Chunks(input).value;
            && Concat(chunks) == input
            && (forall n :: 0 <= n < |chunks| ==> chunks[n] != "")
            && forall n :: 0 <= n < |chunks| - 1 ==> EndsWell(input, chunks, n)
  {
    hide CutAt, EndsWell;
    var whole, chunks, e := Emitted(input, |input|), Chunks(input).value, EmitFrom(input, |input|);
    EmittedIsPrefix(input, |input|);
    assert Concat(chunks) == input by {
      ConcatAppend(whole, input[e..]);
      assert input[..e] + input[e..] == input && (e == |input| ==> input[..e] == input);
      assert whole + [] == whole;
    }
    forall n | 0 <= n < |whole|
      ensures chunks[n] != "" && EndsWell(input, chunks, n)
    {
      EmittedChunks(input, |input|, n);
      EmittedEndWell(input, whole, chunks, n);
    }
  }

  lemma EmittedEndWell(input: string, whole: seq<string>, chunks: seq<string>, n: nat)
    requires n < |whole| <= |chunks| && chunks[..|whole|] == whole
    requires |Concat(whole[..n + 1])| <= |input| && GoodChunk(input, |Concat(whole[..n])|, |Concat(whole[..n + 1])|)
    ensures chunks[n] != "" && EndsWell(input, chunks, n)
  {
    hide CutAt;
    assert chunks[..n] == whole[..n] && chunks[..n + 1] == whole[..n + 1] == whole[..n] + [whole[n]];
    ConcatAppend(whole[..n], whole[n]);
  }

  // ---------- the loop that cuts ----------

  // Where the loop looks at a character it reads as code.
  ghost predicate ReadsCode(input: string, p: nat)
    requires p <= |input|
  {
    var s := Lexed(input, p);
    && s.Success?
    && match s.value.mode
       case Code => true
       case Slash => p < |input| ==> input[p] != '/' && input[p] != '*'
       case Star => p < |input| ==> input[p] != '/'
       case _ => false
  }

  // The state q characters on: nothing was cut in between.
  ghost predicate Reaches(input: string, p: nat, q: nat, s: Lexer)
    requires p <= |input| && q <= |input|
  {
    Lexed(input, q) == Success(s) && EmitFrom(input, q) == EmitFrom(input, p) && Emitted(input, q) == Emitted(input, p)
  }

  lemma OneChar(input: string, p: nat)
    requires p < |input| && Lexed(input, p).Success?
    ensures Lexed(input, p + 1) == Step(Lexed(input, p).value, input[p])
    ensures (input[p] != ';' && input[p] != '}') || !InCode(Lexed(input, p).value.mode) ==>
              EmitFrom(input, p + 1) == EmitFrom(input, p) && Emitted(input, p + 1) == Emitted(input, p)
  {
  }

  lemma {:induction false} FailureStays(input: string, p: nat, k: nat)
    requires p <= k <= |input| && Lexed(input, p).Failure?
    ensures Lexed(input, k) == Lexed(input, p)
    decreases k - p
  {
    if p < k {
      FailureStays(input, p, k - 1);
    }
  }

  lemma Fails(input: string, p: nat)
    requires p <= |input| && (Lexed(input, p).Failure? || (p == |input| && AtEnd(Lexed(input, p).value).Some?))
    ensures Chunks(input)
            == Failure(if Lexed(input, p).Failure? then Lexed(input, p).error else AtEnd(Lexed(input, p).value).value)
  {
    hide Lexed, AtEnd, EmitFrom, Emitted;
    if Lexed(input, p).Failure? {
      FailureStays(input, p, |input|);
    }
  }

  // From an opening quote to the closing one.
  method SkipQuoted(input: string, p: nat) returns (q: nat, error: Option<ChunkError>)
    requires p < |input| && ReadsCode(input, p) && IsQuote(input[p])
    ensures error.Some? ==> Chunks(input) == Failure(error.value)
    ensures error.None? ==> p < q < |input| && Reaches(input, p, q + 1, Lexed(input, p).value.(mode := Code))
  {
    hide Lexed, EmitFrom, Emitted, Chunks;
    ghost var s, cc := Lexed(input, p).value, input[p];
    var quote := input[p];
    OneChar(input, p);
    q := p + 1;
    while q < |input|
      invariant p < q <= |input|
      invariant Reaches(input, p, q, s.(mode := Quoted(quote)))
    {
      OneChar(input, q);
      if input[q] == quote {
        return q, None;
      }
      if input[q] == '\\' {
        if q == |input| - 1 {
          Fails(input, |input|);
          return q, Some(UnescapedBackslash);
        }
        q := q + 1;
        OneChar(input, q);
      }
      q := q + 1;
    }
    Fails(input, |input|);
    return q, Some(UnmatchedQuote(quote));
  }

  // From the two slashes to the end of the line, or of the text.
  method SkipLineComment(input: string, p: nat) returns (q: nat)
    requires p + 1 < |input| && ReadsCode(input, p) && input[p] == '/' && input[p + 1] == '/'
    requires Lexed(input, p).value.parens == 0
    ensures p + 2 <= q <= |input|
    ensures var s := Lexed(input, p).value;
            if q < |input| then Reaches(input, p, q + 1, s.(mode := Code))
            else Reaches(input, p, q, s.(mode := LineComment))
  {
    hide Lexed, EmitFrom, Emitted;
    ghost var s := Lexed(input, p).value;
    OneChar(input, p);
    OneChar(input, p + 1);
    q := p + 2;
    while q < |input|
      invariant p + 2 <= q <= |input|
      invariant Reaches(input, p, q, s.(mode := LineComment))
    {
      OneChar(input, q);
      if input[q] == '\n' || input[q] == '\r' {
        break;
      }
      q := q + 1;
    }
  }

  // From the comment opener to the slash that closes it. An opener at the very end passes.
  method SkipBlockComment(input: string, p: nat) returns (q: nat, error: Option<ChunkError>)
    requires p + 1 < |input| && ReadsCode(input, p) && input[p] == '/' && input[p + 1] == '*'
    requires Lexed(input, p).value.parens == 0
    ensures error.Some? ==> Chunks(input) == Failure(error.value)
    ensures error.None? ==>
              && p + 3 <= q && q != |input|
              && var s := Lexed(input, p).value;
              if q < |input| then Reaches(input, p, q + 1, s.(mode := Code))
              else Reaches(input, p, |input|, s.(mode := BlockOpen))
  {
    hide Lexed, EmitFrom, Emitted, Chunks;
    ghost var s := Lexed(input, p).value;
    OneChar(input, p);
    OneChar(input, p + 1);
    q := p + 2;
    ghost var m := BlockOpen;
    while q < |input| - 1
      invariant p + 2 <= q <= |input|
      invariant m == BlockOpen || m == BlockComment || (m == BlockStar && q < |input| && input[q] != '/')
      invariant q == |input| ==> m == BlockOpen
      invariant Reaches(input, p, q, s.(mode := m))
    {
      OneChar(input, q);
      m := if input[q] == '*' then BlockStar else BlockComment;
      if input[q] == '*' && input[q + 1] == '/' {
        break;
      }
      q := q + 1;
    }
    if q == |input| - 1 {
      OneChar(input, q);
      Fails(input, |input|);
      return q, Some(MissingCommentEnd);
    }
    if q < |input| {
      OneChar(input, q + 1);
    }
    return q + 1, None;
  }

  // A slash: outside parentheses it may open a comment.
  method SkipComment(input: string, p: nat, parenLevel: int) returns (q: nat, error: Option<ChunkError>)
    requires p < |input| && ReadsCode(input, p) && input[p] == '/' && parenLevel == Lexed(input, p).value.parens
    ensures error.Some? ==> Chunks(input) == Failure(error.value)
    ensures error.None? ==>
              && p <= q
              && var s, k := Lexed(input, p).value, if q < |input| then q + 1 else |input|;
              && Lexed(input, k).Success? && Reaches(input, p, k, s.(mode := Lexed(input, k).value.mode))
              && if q < |input| then ReadsCode(input, k) else Lexed(input, k).value.mode in {LineComment, BlockOpen}
  {
    hide Lexed, EmitFrom, Emitted, Chunks;
    OneChar(input, p);
    q, error := p, None;
    if parenLevel == 0 && p < |input| - 1 {
      if input[p + 1] == '/' {
        q := SkipLineComment(input, p);
      } else if input[p + 1] == '*' {
        q, error := SkipBlockComment(input, p);
      }
    }
  }

  // What the loop of the chunker keeps: the counters are those of the text read. A comment that ends
  // with the text takes the index past the end.
  ghost predicate Keeps(input: string, p: nat, level: int, parenLevel: int, emitFrom: nat, chunks: seq<string>) {
    var k := if p <= |input| then p else |input|;
    var s := Lexed(input, k);
    && s.Success? && s.value.level == level && s.value.parens == parenLevel
    && (if p <= |input| then ReadsCode(input, p) else s.value.mode == LineComment || s.value.mode == BlockOpen)
    && emitFrom == EmitFrom(input, k) && (p > |input| ==> emitFrom < |input|)
    && chunks == Emitted(input, k)
  }

  method SplitIntoChunks(input: string) returns (r: Result<seq<string>, ChunkError>)
    ensures r == Chunks(input)
  {
    hide Lexed, EmitFrom, Emitted, Chunks, CutAt;
    var level, parenLevel, emitFrom: nat, chunks := 0, 0, 0, [];
    var p := 0;
    NothingRead(input);
    while p < |input|
      invariant Keeps(input, p, level, parenLevel, emitFrom, chunks)
      decreases |input| - p
    {
      var cc := input[p];
      OneChar(input, p);
      NowOrNever(input, p);
      if ('a' <= cc <= 'z') || cc < '"' {
      } else if cc == '(' {
        parenLevel := parenLevel + 1;
      } else if cc == ')' {
        parenLevel := parenLevel - 1;
        if parenLevel < 0 {
          Fails(input, p + 1);
          return Failure(MissingOpeningParen);
        }
      } else if cc == ';' {
        if parenLevel == 0 {
          emitFrom, chunks := EmitChunk(input, p, emitFrom, chunks);
        }
      } else if cc == '{' {
        level := level + 1;
      } else if cc == '}' {
        level := level - 1;
        if level < 0 {
          Fails(input, p + 1);
          return Failure(MissingOpeningBrace);
        }
        if level == 0 && parenLevel == 0 {
          emitFrom, chunks := EmitChunk(input, p, emitFrom, chunks);
        }
      } else if cc == '\\' {
        if p == |input| - 1 {
          Fails(input, |input|);
          return Failure(UnescapedBackslash);
        }
        p := p + 1;
        OneChar(input, p);
      } else if IsQuote(cc) {
        var error;
        p, error := SkipQuoted(input, p);
        if error.Some? {
          return Failure(error.value);
        }
      } else if cc == '/' {
        var error;
        p, error := SkipComment(input, p, parenLevel);
        if error.Some? {
          return Failure(error.value);
        }
      } else if cc == '*' {
        if p < |input| - 1 && input[p + 1] == '/' {
          OneChar(input, p + 1);
          Fails(input, p + 2);
          return Failure(UnmatchedCommentEnd);
        }
      }
      p := p + 1;
    }
    ghost var s := Lexed(input, |input|);
    Ended(input, s);
    if level != 0 {
      return Failure(MissingClosingBrace);
    }
    if parenLevel != 0 {
      return Failure(MissingClosingParen);
    }
    if p != emitFrom {
      chunks := chunks + [input[emitFrom..]];
    }
    return Success(chunks);
  }

  method EmitChunk(input: string, p: nat, emitFrom: nat, chunks: seq<string>)
    returns (emitFrom': nat, chunks': seq<string>)
    requires emitFrom <= p < |input|
    ensures if p - emitFrom >= LEAST then emitFrom' == p + 1 && chunks' == chunks + [input[emitFrom..p + 1]]
            else emitFrom' == emitFrom && chunks' == chunks
  {
    emitFrom', chunks' := emitFrom, chunks;
    if p - emitFrom >= LEAST {
      emitFrom', chunks' := p + 1, chunks + [input[emitFrom..p + 1]];
    }
  }

  lemma NothingRead(input: string)
    ensures Lexed(input, 0) == Success(Lexer(Code, 0, 0)) && EmitFrom(input, 0) == 0 && Emitted(input, 0) == []
  {
  }

  // A semicolon or a brace read as code is a place to cut just when the counters say so.
  lemma NowOrNever(input: string, p: nat)
    requires p < |input| && ReadsCode(input, p)
    ensures var s, cc, e := Lexed(input, p).value, input[p], EmitFrom(input, p);
            if s.parens == 0 && (cc == ';' || (cc == '}' && s.level == 1)) && p - e >= LEAST
            then EmitFrom(input, p + 1) == p + 1 && Emitted(input, p + 1) == Emitted(input, p) + [input[e..p + 1]]
            else EmitFrom(input, p + 1) == e && Emitted(input, p + 1) == Emitted(input, p)
  {
    hide Lexed;
  }

  lemma Ended(input: string, s: Result<Lexer, ChunkError>)
    requires s == Lexed(input, |input|) && s.Success?
    requires s.value.mode == LineComment || s.value.mode == BlockOpen || ReadsCode(input, |input|)
    ensures Chunks(input)
         == if s.value.level > 0 then Failure(MissingClosingBrace)
            else if s.value.parens > 0 then Failure(MissingClosingParen)
            else
              var e, whole := EmitFrom(input, |input|), Emitted(input, |input|);
              Success(if e == |input| then whole else whole + [input[e..]])
  {
    hide Lexed, EmitFrom, Emitted;
    var whole := Emitted(input, |input|);
    assert whole + [] == whole;
  }

  lemma LexedStep(input: string, k: nat)
    requires k < |input|
    ensures Lexed(input, 0) == Success(Lexer(Code, 0, 0))
    ensures Lexed(input, k + 1)
            == if Lexed(input, k).Failure? then Lexed(input, k) else Step(Lexed(input, k).value, input[k])
  {
  }

  // A comment that is only opened passes at the very end of the text, and nowhere else; in
  // parentheses a comment is not seen, and its end is refused.
  lemma CommentsAtTheEdges()
    ensures Chunks("/*").Success? && Chunks("/* ") == Failure(MissingCommentEnd)
    ensures Chunks("(/**/)") == Failure(UnmatchedCommentEnd)
  {
    hide Lexed, EmitFrom, Emitted;
    LexedStep("/*", 0);
    LexedStep("/*", 1);
    LexedStep("/* ", 0);
    LexedStep("/* ", 1);
    LexedStep("/* ", 2);
    var t := "(/**/)";
    LexedStep(t, 0);
    LexedStep(t, 1);
    LexedStep(t, 2);
    LexedStep(t, 3);
    LexedStep(t, 4);
    Fails(t, 5);
  }
}
