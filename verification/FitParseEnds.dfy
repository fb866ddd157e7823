// On which texts the HTML parser of Fit comes to a result (src/fit/Parse.java): exactly those on which
// each of its loops ends, for the element itself, for its body and for what follows it, and what follows
// it is shorter.
module FitParseEnds {
  import opened Wrappers
  import opened Strings
  import opened FitScan
  import opened FitParse

  // ---------- the parser without a bound on its rounds ----------

  // The element that is cut out leaves a shorter body and a shorter trailer, unless the loop has overflowed
  // at a tag without a '>': then the body is empty and the trailer is the text again.
  ghost predicate CutShrinks(c: Cuts, text: string) {
    c.endTag > 0 || (c == Cuts(0, 0, 0, 0, true) && text != "")
  }

  lemma CutsShrink(text: string, tag: string, scan: Scan)
    ensures var r := CutsWith(text, tag, scan); r.Success? ==> CutShrinks(r.value, text)
  {
    hide IndexFrom, LowerCase;
    var lc := LowerCase(text);
    assert |lc| == |text| by { LowerCaseLength(text); }
    var r := CutsWith(text, tag, scan);
    if r.Success? && r.value.endTag == 0 {
      assert IndexFrom(lc, ">", 0) == -1;
      assert IndexFrom(lc, "<" + tag, 0) == 0;
    }
  }

  function CutOf(text: string, tag: string): (r: Result<Cuts, ParseError>)
    ensures r.Success? ==> CutsOf(r.value, text) && CutShrinks(r.value, text)
  {
    var lc := LowerCase(text);
    var scan := ScanOf(lc, tag, EndOfStart(lc, tag), 1, 0);
    CutsShrink(text, tag, scan);
    CutsWith(text, tag, scan)
  }

  // The result of the constructor; StillRunning if one of its loops, or the recursion, does not end.
  function ParseOf(text: string, tags: seq<string>, level: nat): Result<Parse, ParseError>
    requires level < |tags|
    decreases |text|, 0
  {
    match CutOf(text, tags[level])
    case Failure(e) => Failure(e)
    case Success(c) =>
      var body, trailer := text[c.endTag..c.startEnd], text[c.endEnd..];
      var parts := PartsOf(body, tags, level);
      if parts.Failure? then Failure(parts.error)
      else if c.hasMore && c.endTag == 0 then Failure(StillRunning) else
      var more := if c.hasMore then Present(ParseOf(trailer, tags, level)) else Success(None);
      if more.Failure? then Failure(more.error) else
      Success(Parse(text[..c.startTag], text[c.startTag..c.endTag], if parts.value.Some? then "" else body,
                    text[c.startEnd..c.endEnd], if more.value.Some? then "" else trailer, parts.value, more.value))
  }

  function PartsOf(body: string, tags: seq<string>, level: nat): Result<Option<Parse>, ParseError>
    requires level < |tags|
    decreases |body|, 1
  {
    if level + 1 < |tags| then Present(ParseOf(body, tags, level + 1))
    else if IndexFrom(body, "<" + tags[0], 0) >= 0 then Present(ParseOf(body, tags, 0))
    else Success(None)
  }

  // Rounds and levels that are enough.
  function ParseRounds(text: string, tags: seq<string>, level: nat): nat
    requires level < |tags|
    decreases |text|, 0
  {
    var lc, tag := LowerCase(text), tags[level];
    1 + ScanRounds(lc, tag, EndOfStart(lc, tag), 1, 0)
    + match CutOf(text, tag)
      case Failure(_) => 0
      case Success(c) =>
        PartsRounds(text[c.endTag..c.startEnd], tags, level)
        + if c.hasMore && c.endTag > 0 then ParseRounds(text[c.endEnd..], tags, level) else 0
  }

  function PartsRounds(body: string, tags: seq<string>, level: nat): nat
    requires level < |tags|
    decreases |body|, 1
  {
    if level + 1 < |tags| then ParseRounds(body, tags, level + 1)
    else if IndexFrom(body, "<" + tags[0], 0) >= 0 then ParseRounds(body, tags, 0)
    else 0
  }

  // The parser with bounded rounds is still running or has that result, and has it with enough rounds.
  ghost predicate Approaches<T>(r: Result<T, ParseError>, limit: Result<T, ParseError>, rounds: nat, enough: nat) {
    r == (if r == Failure(StillRunning) then r else limit) && (rounds >= enough ==> r == limit)
  }

  lemma FindElementApproaches(text: string, tag: string, rounds: nat)
    ensures var lc := LowerCase(text);
            Approaches(FindElement(text, tag, rounds), CutOf(text, tag), rounds,
                       ScanRounds(lc, tag, EndOfStart(lc, tag), 1, 0))
  {
    hide ScanTags, ScanOf, ScanRounds, LowerCase, IndexFrom, EndOfStart;
    var lc := LowerCase(text);
    ScanIs(lc, tag, EndOfStart(lc, tag), 1, 0, rounds);
  }

  lemma {:induction false} ParseTextApproaches(text: string, tags: seq<string>, level: nat, rounds: nat)
    requires level < |tags|
    ensures Approaches(ParseText(text, tags, level, rounds), ParseOf(text, tags, level), rounds,
                       ParseRounds(text, tags, level))
    decreases |text|, 0, rounds
  {
    hide FindElement, CutOf, ParseParts, PartsOf, PartsRounds, ScanRounds, LowerCase, EndOfStart;
    FindElementApproaches(text, tags[level], rounds);
    var f := CutOf(text, tags[level]);
    if f.Success? && rounds > 0 {
      var c := f.value;
      PartsApproach(text[c.endTag..c.startEnd], tags, level, rounds - 1);
      if c.endTag == 0 {
        assert text[0..] == text;
      }
      ParseTextApproaches(text[c.endEnd..], tags, level, rounds - 1);
    }
  }

  lemma {:induction false} PartsApproach(body: string, tags: seq<string>, level: nat, rounds: nat)
    requires level < |tags|
    ensures Approaches(ParseParts(body, tags, level, rounds), PartsOf(body, tags, level), rounds,
                       PartsRounds(body, tags, level))
    decreases |body|, 1, rounds
  {
    hide ParseText, ParseOf, ParseRounds, IndexFrom;
    if level + 1 < |tags| {
      ParseTextApproaches(body, tags, level + 1, rounds);
    } else {
      ParseTextApproaches(body, tags, 0, rounds);
    }
  }

  // ---------- the exact condition ----------

  // The loop for the element ends, those in its body do, and so do those in what follows it, which is
  // parsed when another element starts there and the body has been parsed without an exception, and
  // which is not the text itself.
  predicate LoopsEnd(text: string, tags: seq<string>, level: nat)
    requires level < |tags|
    decreases |text|, 0
  {
    var lc, tag := LowerCase(text), tags[level];
    EndsFrom(lc, tag, EndOfStart(lc, tag), 1)
    && match CutOf(text, tag)
       case Failure(_) => true
       case Success(c) =>
         var body, trailer := text[c.endTag..c.startEnd], text[c.endEnd..];
         && LoopsEndInBody(body, tags, level)
         && (c.hasMore && PartsOf(body, tags, level).Success? ==> c.endTag > 0 && LoopsEnd(trailer, tags, level))
  }

  predicate LoopsEndInBody(body: string, tags: seq<string>, level: nat)
    requires level < |tags|
    decreases |body|, 1
  {
    if level + 1 < |tags| then LoopsEnd(body, tags, level + 1)
    else IndexFrom(body, "<" + tags[0], 0) >= 0 ==> LoopsEnd(body, tags, 0)
  }

  lemma CutOfEnds(text: string, tag: string)
    ensures var lc := LowerCase(text);
            EndsFrom(lc, tag, EndOfStart(lc, tag), 1) <==> CutOf(text, tag) != Failure(StillRunning)
  {
    hide ScanOf, EndsFrom, LowerCase, IndexFrom, EndOfStart;
    var lc := LowerCase(text);
    LoopEndsExactlyWhen(lc, tag, EndOfStart(lc, tag), 1, 0);
  }

  lemma {:induction false} LoopsEndMeansResult(text: string, tags: seq<string>, level: nat)
    requires level < |tags|
    ensures LoopsEnd(text, tags, level) <==> ParseOf(text, tags, level) != Failure(StillRunning)
    decreases |text|, 0
  {
    hide CutOf, PartsOf, LoopsEndInBody, EndsFrom, LowerCase, EndOfStart;
    CutOfEnds(text, tags[level]);
    var f := CutOf(text, tags[level]);
    if f.Success? {
      var c := f.value;
      LoopsEndInBodyMeansResult(text[c.endTag..c.startEnd], tags, level);
      if c.endTag > 0 {
        LoopsEndMeansResult(text[c.endEnd..], tags, level);
      }
    }
  }

  lemma {:induction false} LoopsEndInBodyMeansResult(body: string, tags: seq<string>, level: nat)
    requires level < |tags|
    ensures LoopsEndInBody(body, tags, level) <==> PartsOf(body, tags, level) != Failure(StillRunning)
    decreases |body|, 1
  {
    hide LoopsEnd, ParseOf, IndexFrom;
    if level + 1 < |tags| {
      LoopsEndMeansResult(body, tags, level + 1);
    } else {
      LoopsEndMeansResult(body, tags, 0);
    }
  }

  // With some number of rounds the parser comes to a result, a tree or an exception, exactly when all
  // its loops end, and then it is the result of ParseOf.
  lemma ParserEndsExactlyWhen(text: string, tags: seq<string>, level: nat)
    requires level < |tags|
    ensures (exists rounds: nat :: ParseText(text, tags, level, rounds) != Failure(StillRunning))
            <==> LoopsEnd(text, tags, level)
    ensures forall rounds: nat :: ParseText(text, tags, level, rounds) != Failure(StillRunning) ==>
              ParseText(text, tags, level, rounds) == ParseOf(text, tags, level)
  {
    hide ParseText, ParseOf, LoopsEnd, ParseRounds;
    LoopsEndMeansResult(text, tags, level);
    ParseTextApproaches(text, tags, level, ParseRounds(text, tags, level));
    forall rounds: nat | ParseText(text, tags, level, rounds) != Failure(StillRunning)
      ensures ParseText(text, tags, level, rounds) == ParseOf(text, tags, level)
    {
      ParseTextApproaches(text, tags, level, rounds);
    }
  }

  // ---------- texts with closed tags ----------

  lemma ClosedTextsEnd(text: string, tags: seq<string>, level: nat)
    requires TagsClosed(LowerCase(text), tags) && TagNames(tags) && level < |tags| && |text| <= MAX_INT
    ensures LoopsEnd(text, tags, level)
  {
    hide ParseText, LoopsEnd, TagsClosed, LowerCase;
    ParseTextEnds(text, tags, level, |text| + 1);
    ParserEndsExactlyWhen(text, tags, level);
  }
}
