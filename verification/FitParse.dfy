// The HTML table parser of Fit and its printer (src/fit/Parse.java). Text is ASCII, so that
// converting it to lower case moves nothing.
module FitParse {
  import opened Wrappers
  import opened Sequences
  import opened Strings
  import opened FitScan

  // ---------- the parser ----------

  datatype Parse = Parse(leader: string, tag: string, body: string, end: string, trailer: string,
                         parts: Option<Parse>, more: Option<Parse>)

  datatype ParseError = CantFindTag | IndexOutOfBounds | StillRunning

  // Where the first element of the text starts and ends, and whether another one follows it.
  datatype Cuts = Cuts(startTag: nat, endTag: nat, startEnd: nat, endEnd: nat, hasMore: bool)

  ghost predicate CutsOf(c: Cuts, text: string) {
    c.startTag <= c.endTag <= c.startEnd <= c.endEnd <= |text|
  }

  // Where the search for the end tag starts: behind the first '>' at or after the opening tag.
  function EndOfStart(lc: string, tag: string): nat {
    var startTag := IndexFrom(lc, "<" + tag, 0);
    IndexFrom(lc, ">", if startTag < 0 then 0 else startTag) + 1
  }

  // The cuts once the loop has come to a result.
  function CutsWith(text: string, tag: string, scan: Scan): (r: Result<Cuts, ParseError>)
    ensures r.Success? ==> CutsOf(r.value, text)
  {
    var lc := LowerCase(text);
    var startTag := IndexFrom(lc, "<" + tag, 0);
    var endTag := EndOfStart(lc, tag);
    match scan
    case NoTag => Failure(CantFindTag)
    case Running => Failure(StillRunning)
    case Found(startEnd) =>
      var endEnd := IndexFrom(lc, ">", startEnd) + 1;
      var startMore := IndexFrom(lc, "<" + tag, endEnd);
      if startTag < 0 then Failure(CantFindTag)
      else if startTag <= endTag <= startEnd <= endEnd
      then Success(Cuts(startTag, endTag, startEnd, endEnd, startMore >= 0))
      else Failure(IndexOutOfBounds)
  }

  function FindElement(text: string, tag: string, rounds: nat): (r: Result<Cuts, ParseError>)
    ensures r.Success? ==> CutsOf(r.value, text)
  {
    var lc := LowerCase(text);
    CutsWith(text, tag, ScanTags(lc, tag, EndOfStart(lc, tag), 1, 0, rounds))
  }

  // The constructor, given a number of rounds for each loop and of levels for the recursion. A
  // body or trailer that has been parsed is the empty string.
  function ParseText(text: string, tags: seq<string>, level: nat, rounds: nat): Result<Parse, ParseError>
    requires level < |tags|
    decreases rounds, 0
  {
    match FindElement(text, tags[level], rounds)
    case Failure(e) => Failure(e)
    case Success(c) =>
      if rounds == 0 then Failure(StillRunning) else
      var body, trailer := text[c.endTag..c.startEnd], text[c.endEnd..];
      var parts := ParseParts(body, tags, level, rounds - 1);
      if parts.Failure? then Failure(parts.error) else
      var more := if c.hasMore then Present(ParseText(trailer, tags, level, rounds - 1)) else Success(None);
      if more.Failure? then Failure(more.error) else
      Success(Parse(text[..c.startTag], text[c.startTag..c.endTag], if parts.value.Some? then "" else body,
                    text[c.startEnd..c.endEnd], if more.value.Some? then "" else trailer, parts.value, more.value))
  }

  function Present(p: Result<Parse, ParseError>): Result<Option<Parse>, ParseError> {
    if p.Failure? then Failure(p.error) else Success(Some(p.value))
  }

  // The next level, or in a cell a nested table, if there is one.
  function ParseParts(body: string, tags: seq<string>, level: nat, rounds: nat): Result<Option<Parse>, ParseError>
    requires level < |tags|
    decreases rounds, 1
  {
    if level + 1 < |tags| then Present(ParseText(body, tags, level + 1, rounds))
    else if IndexFrom(body, "<" + tags[0], 0) >= 0 then Present(ParseText(body, tags, 0, rounds))
    else Success(None)
  }

  // ---------- the printer ----------

  function Print(p: Parse): string {
    p.leader + p.tag + (if p.parts.Some? then Print(p.parts.value) else p.body) + p.end
    + (if p.more.Some? then Print(p.more.value) else p.trailer)
  }

  lemma FivePieces(text: string, a: nat, b: nat, c: nat, d: nat)
    requires a <= b <= c <= d <= |text|
    ensures text[..a] + text[a..b] + text[b..c] + text[c..d] + text[d..] == text
  {
    assert text[..a] + text[a..b] == text[..b];
    assert text[..b] + text[b..c] == text[..c];
    assert text[..c] + text[c..d] == text[..d];
  }

  // Whatever text was parsed, printing the result gives that text.
  lemma {:induction false} PrintRestoresText(text: string, tags: seq<string>, level: nat, rounds: nat)
    requires level < |tags|
    ensures ParseText(text, tags, level, rounds).Success? ==> Print(ParseText(text, tags, level, rounds).value) == text
    decreases rounds, 0
  {
    hide FindElement, ParseParts;
    var r, f := ParseText(text, tags, level, rounds), FindElement(text, tags[level], rounds);
    if r.Success? {
      var c := f.value;
      PrintRestoresParts(text[c.endTag..c.startEnd], tags, level, rounds - 1);
      PrintRestoresText(text[c.endEnd..], tags, level, rounds - 1);
      var a, b, m := text[..c.startTag], text[c.startTag..c.endTag], text[c.endTag..c.startEnd];
      var e, t := text[c.startEnd..c.endEnd], text[c.endEnd..];
      assert Print(r.value) == a + b + m + e + t;
      FivePieces(text, c.startTag, c.endTag, c.startEnd, c.endEnd);
    }
  }

  lemma {:induction false} PrintRestoresParts(body: string, tags: seq<string>, level: nat, rounds: nat)
    requires level < |tags|
    ensures var parts := ParseParts(body, tags, level, rounds);
            parts.Success? && parts.value.Some? ==> Print(parts.value.value) == body
    decreases rounds, 1
  {
    hide IndexFrom, ParseText;
    if level + 1 < |tags| {
      PrintRestoresText(body, tags, level + 1, rounds);
    } else {
      PrintRestoresText(body, tags, 0, rounds);
    }
  }

  // ---------- texts on which the parser ends ----------

  ghost predicate Opener(lc: string, tag: string, i: int) {
    OccursAt(lc, "<" + tag, i)
  }

  ghost predicate Closer(lc: string, tag: string, i: int) {
    OccursAt(lc, "</" + tag, i)
  }

  ghost predicate TagAt(lc: string, tags: seq<string>, i: int) {
    exists k :: 0 <= k < |tags| && (Opener(lc, tags[k], i) || Closer(lc, tags[k], i))
  }

  ghost predicate ClosedAt(lc: string, tags: seq<string>, i: int, j: int) {
    0 <= i < j < |lc| && lc[j] == '>' && forall k :: i < k < j ==> !TagAt(lc, tags, k)
  }

  // Behind every tag there is a '>' before the next tag.
  ghost predicate TagsClosed(lc: string, tags: seq<string>) {
    forall i :: TagAt(lc, tags, i) ==> exists j :: ClosedAt(lc, tags, i, j)
  }

  // No tag name begins with a slash, so an opening tag is never taken for a closing one.
  ghost predicate TagNames(tags: seq<string>) {
    forall k :: 0 <= k < |tags| ==> tags[k] != "" && tags[k][0] != '/'
  }

  lemma TagStartsWithAngle(lc: string, tags: seq<string>, i: int)
    requires TagAt(lc, tags, i)
    ensures 0 <= i < |lc| && lc[i] == '<'
  {
    var k :| 0 <= k < |tags| && (Opener(lc, tags[k], i) || Closer(lc, tags[k], i));
    if Opener(lc, tags[k], i) {
      assert lc[i] == lc[i..i + |"<" + tags[k]|][0] == '<';
    } else {
      assert lc[i] == lc[i..i + |"</" + tags[k]|][0] == '<';
    }
  }

  // The '>' that indexOf finds behind a tag is there and comes before the next tag.
  lemma EndOfTag(lc: string, tags: seq<string>, i: nat)
    requires TagsClosed(lc, tags) && TagAt(lc, tags, i)
    ensures ClosedAt(lc, tags, i, IndexFrom(lc, ">", i))
  {
    hide IndexFrom, TagAt;
    TagStartsWithAngle(lc, tags, i);
    var j :| ClosedAt(lc, tags, i, j);
    assert lc[j..j + 1] == ">";
    assert OccursAt(lc, ">", j);
    var e := IndexFrom(lc, ">", i);
    assert lc[e..e + 1] == ">";
    assert lc[e] == lc[e..e + 1][0];
  }

  // A piece of the text that ends at a tag or at the end has its tags closed as well.
  lemma PieceClosed(lc: string, tags: seq<string>, a: nat, b: nat)
    requires TagsClosed(lc, tags) && a <= b <= |lc| && (b == |lc| || TagAt(lc, tags, b))
    ensures TagsClosed(lc[a..b], tags)
  {
    var piece := lc[a..b];
    hide TagAt;
    forall i | TagAt(piece, tags, i) ensures exists j :: ClosedAt(piece, tags, i, j) {
      TagOfPiece(lc, tags, a, b, i);
      var j :| ClosedAt(lc, tags, a + i, j);
      if b < |lc| {
        TagStartsWithAngle(lc, tags, b);
      }
      assert j < b;
      forall k | i < k < j - a ensures !TagAt(piece, tags, k) {
        if TagAt(piece, tags, k) {
          TagOfPiece(lc, tags, a, b, k);
        }
      }
      assert ClosedAt(piece, tags, i, j - a);
    }
  }

  lemma OccursInPiece(s: string, t: string, a: nat, b: nat, i: int)
    requires a <= b <= |s| && OccursAt(s[a..b], t, i)
    ensures OccursAt(s, t, a + i) && a + i + |t| <= b
  {
    SliceOfSlice(s, a, b, i, i + |t|);
  }

  lemma TagOfPiece(lc: string, tags: seq<string>, a: nat, b: nat, i: int)
    requires a <= b <= |lc| && TagAt(lc[a..b], tags, i)
    ensures TagAt(lc, tags, a + i) && 0 <= i < b - a
  {
    TagStartsWithAngle(lc[a..b], tags, i);
    var k :| 0 <= k < |tags| && (Opener(lc[a..b], tags[k], i) || Closer(lc[a..b], tags[k], i));
    if Opener(lc[a..b], tags[k], i) {
      OccursInPiece(lc, "<" + tags[k], a, b, i);
      assert Opener(lc, tags[k], a + i);
    } else {
      OccursInPiece(lc, "</" + tags[k], a, b, i);
      assert Closer(lc, tags[k], a + i);
    }
  }

  // ---------- the balance of tags ----------

  // How many more opening than closing tags start from a up to b.
  ghost function Balance(lc: string, tag: string, a: int, b: int): int
    decreases b - a
  {
    if a >= b then 0
    else Balance(lc, tag, a, b - 1)
         + (if Opener(lc, tag, b - 1) then 1 else 0) - (if Closer(lc, tag, b - 1) then 1 else 0)
  }

  lemma {:induction false} BalanceSplit(lc: string, tag: string, a: int, m: int, b: int)
    requires a <= m <= b
    ensures Balance(lc, tag, a, b) == Balance(lc, tag, a, m) + Balance(lc, tag, m, b)
    decreases b - m
  {
    if m < b {
      BalanceSplit(lc, tag, a, m, b - 1);
    }
  }

  lemma {:induction false} BalanceOfNone(lc: string, tag: string, a: int, b: int)
    requires forall i :: a <= i < b ==> !Opener(lc, tag, i) && !Closer(lc, tag, i)
    ensures Balance(lc, tag, a, b) == 0
    decreases b - a
  {
    if a < b {
      BalanceOfNone(lc, tag, a, b - 1);
    }
  }

  // The end tag of an element: the first closing tag that is not matched by an opening one since.
  ghost predicate MatchingEnd(lc: string, tag: string, from: int, count: int, i: int) {
    && from <= i && Closer(lc, tag, i) && count + Balance(lc, tag, from, i) == 1
    && forall j :: from <= j <= i ==> count + Balance(lc, tag, from, j) >= 1
  }

  lemma MatchingEndIsUnique(lc: string, tag: string, from: int, count: int, i: int, i': int)
    requires MatchingEnd(lc, tag, from, count, i) && MatchingEnd(lc, tag, from, count, i') && tag != "" && tag[0] != '/'
    ensures i == i'
  {
    NotBoth(lc, tag, i);
    NotBoth(lc, tag, i');
    assert count + Balance(lc, tag, from, i + 1) == 0;
    assert count + Balance(lc, tag, from, i' + 1) == 0;
  }

  lemma SecondCharacter(s: string, t: string, i: int)
    requires OccursAt(s, t, i) && |t| >= 2
    ensures s[i + 1] == t[1]
  {
    assert s[i..i + |t|][1] == s[i + 1];
  }

  lemma NotBoth(lc: string, tag: string, i: int)
    requires tag != "" && tag[0] != '/'
    ensures !(Opener(lc, tag, i) && Closer(lc, tag, i))
  {
    if Opener(lc, tag, i) {
      SecondCharacter(lc, "<" + tag, i);
    }
    if Closer(lc, tag, i) {
      SecondCharacter(lc, "</" + tag, i);
    }
  }

  // Around a single tag at p, up to the end of it at g, the balance changes once.
  lemma {:induction false} OneTagBalance(lc: string, tag: string, from: int, p: int, g: int, j: int)
    requires from <= p <= g && from <= j <= g + 1
    requires forall i :: from <= i <= g && i != p ==> !Opener(lc, tag, i) && !Closer(lc, tag, i)
    ensures Balance(lc, tag, from, j) ==
            if j <= p then 0 else (if Opener(lc, tag, p) then 1 else 0) - (if Closer(lc, tag, p) then 1 else 0)
    decreases j - from
  {
    hide Opener, Closer;
    if from < j {
      OneTagBalance(lc, tag, from, p, g, j - 1);
    }
  }

  // Behind that tag the search goes on with the changed count.
  lemma SearchGoesOn(lc: string, tag: string, from: int, p: int, g: int, count: int, i: int)
    requires from <= p <= g && count >= 1 && tag != "" && tag[0] != '/'
    requires forall i :: from <= i <= g && i != p ==> !Opener(lc, tag, i) && !Closer(lc, tag, i)
    ensures Opener(lc, tag, p) ==> (MatchingEnd(lc, tag, from, count, i) <==> MatchingEnd(lc, tag, g + 1, count + 1, i))
    ensures Closer(lc, tag, p) && count > 1 ==>
              (MatchingEnd(lc, tag, from, count, i) <==> MatchingEnd(lc, tag, g + 1, count - 1, i))
    ensures Closer(lc, tag, p) && count == 1 ==> MatchingEnd(lc, tag, from, count, p)
  {
    hide Opener, Closer, Balance;
    NotBoth(lc, tag, p);
    var h := g + 1;
    var delta := (if Opener(lc, tag, p) then 1 else 0) - (if Closer(lc, tag, p) then 1 else 0);
    forall j | from <= j <= h ensures Balance(lc, tag, from, j) == if j <= p then 0 else delta {
      OneTagBalance(lc, tag, from, p, g, j);
    }
    forall j | h <= j ensures Balance(lc, tag, from, j) == delta + Balance(lc, tag, h, j) {
      BalanceSplit(lc, tag, from, h, j);
    }
    if MatchingEnd(lc, tag, from, count, i) && count + delta >= 1 {
      assert i > g;
      forall j | h <= j <= i ensures count + delta + Balance(lc, tag, h, j) >= 1 {
        assert count + Balance(lc, tag, from, j) >= 1;
      }
    }
    if MatchingEnd(lc, tag, h, count + delta, i) {
      forall j | from <= j <= i ensures count + Balance(lc, tag, from, j) >= 1 {
        if h <= j {
          assert count + delta + Balance(lc, tag, h, j) >= 1;
        }
      }
    }
  }

  // The nearest tag at p, and the end of it at g.
  lemma NextTag(lc: string, tags: seq<string>, k: nat, from: nat, count: int) returns (p: nat, g: nat)
    requires TagsClosed(lc, tags) && TagNames(tags) && k < |tags| && count >= 1
    requires IndexFrom(lc, "<" + tags[k], from) >= 0 || IndexFrom(lc, "</" + tags[k], from) >= 0
    ensures var o, e := IndexFrom(lc, "<" + tags[k], from), IndexFrom(lc, "</" + tags[k], from);
            if e < 0 || 0 <= o < e then p == o && Opener(lc, tags[k], p) && !Closer(lc, tags[k], p)
            else (o < 0 || e < o) && p == e && Closer(lc, tags[k], p) && !Opener(lc, tags[k], p)
    ensures from <= p < g < |lc| && g == IndexFrom(lc, ">", p)
    ensures forall i :: from <= i <= g && i != p ==> !Opener(lc, tags[k], i) && !Closer(lc, tags[k], i)
  {
    hide IndexFrom, TagsClosed;
    var tag := tags[k];
    var o, e := IndexFrom(lc, "<" + tag, from), IndexFrom(lc, "</" + tag, from);
    p := if e < 0 || 0 <= o < e then o else e;
    assert Opener(lc, tag, p) || Closer(lc, tag, p);
    assert TagAt(lc, tags, p);
    EndOfTag(lc, tags, p);
    NotBoth(lc, tag, p);
    g := IndexFrom(lc, ">", p);
    forall i | from <= i <= g && i != p ensures !Opener(lc, tag, i) && !Closer(lc, tag, i) {
      if p < i {
        TagBetween(lc, tags, k, p, g, i);
      } else {
        assert !OccursAt(lc, "<" + tag, i) && !OccursAt(lc, "</" + tag, i);
      }
    }
  }

  // On a text whose tags are closed the loop ends within as many rounds as there are characters,
  // at the matching end tag, or with the exception if there is none. The count stays in its 32 bits: every
  // tag takes two characters or more, and a text has at most MAX_INT of them.
  lemma {:induction false} ScanFindsMatchingEnd(lc: string, tags: seq<string>, k: nat, from: nat, count: int32,
                                                startEnd: nat, rounds: nat)
    requires TagsClosed(lc, tags) && TagNames(tags) && k < |tags|
    requires from <= |lc| && count >= 1 && rounds > |lc| - from && count + (|lc| - from) / 2 <= MAX_INT
    ensures match ScanTags(lc, tags[k], from, count, startEnd, rounds)
            case Found(i) => MatchingEnd(lc, tags[k], from, count, i)
            case NoTag => forall i :: !MatchingEnd(lc, tags[k], from, count, i)
            case Running => false
    decreases rounds
  {
    hide ScanTags, IndexFrom, TagsClosed, Opener, Closer, MatchingEnd;
    var tag := tags[k];
    if IndexFrom(lc, "<" + tag, from) < 0 && IndexFrom(lc, "</" + tag, from) < 0 {
      NoTagsLeft(lc, tag, from, count, startEnd, rounds);
    } else {
      var p, g := NextTag(lc, tags, k, from, count);
      var h, delta := g + 1, if Opener(lc, tag, p) then 1 else -1;
      assert (|lc| - h) / 2 <= (|lc| - from) / 2 - 1;
      ScanOneTag(lc, tag, from, count, startEnd, rounds, p, g, delta);
      forall i ensures count + delta >= 1 ==>
                         (MatchingEnd(lc, tag, from, count, i) <==> MatchingEnd(lc, tag, h, count + delta, i))
               ensures count + delta == 0 ==> MatchingEnd(lc, tag, from, count, p)
      {
        SearchGoesOn(lc, tag, from, p, g, count, i);
      }
      if count + delta >= 1 {
        ScanFindsMatchingEnd(lc, tags, k, h, count + delta, p, rounds - 1);
      }
    }
  }

  lemma NoTagsLeft(lc: string, tag: string, from: nat, count: int32, startEnd: nat, rounds: nat)
    requires IndexFrom(lc, "<" + tag, from) < 0 && IndexFrom(lc, "</" + tag, from) < 0 && count >= 1 && rounds > 0
    ensures ScanTags(lc, tag, from, count, startEnd, rounds) == NoTag
    ensures forall i :: !MatchingEnd(lc, tag, from, count, i)
  {
    hide IndexFrom;
  }

  lemma ScanOneTag(lc: string, tag: string, from: nat, count: int32, startEnd: nat, rounds: nat, p: nat, g: nat,
                   delta: int)
    requires 1 <= count < MAX_INT && rounds > 0 && g == IndexFrom(lc, ">", p)
    requires var o, e := IndexFrom(lc, "<" + tag, from), IndexFrom(lc, "</" + tag, from);
             if e < 0 || 0 <= o < e then p == o && delta == 1 else (o < 0 || e < o) && p == e && delta == -1
    ensures ScanTags(lc, tag, from, count, startEnd, rounds) == ScanTags(lc, tag, g + 1, count + delta, p, rounds - 1)
    ensures count + delta == 0 ==> ScanTags(lc, tag, from, count, startEnd, rounds) == Found(p)
  {
    hide IndexFrom;
  }

  // Between the start of a tag and the '>' behind it, and at that '>', no tag starts.
  lemma TagBetween(lc: string, tags: seq<string>, k: nat, p: int, g: int, i: int)
    requires ClosedAt(lc, tags, p, g) && p < i <= g && k < |tags|
    ensures !Opener(lc, tags[k], i) && !Closer(lc, tags[k], i)
  {
    if Opener(lc, tags[k], i) || Closer(lc, tags[k], i) {
      assert TagAt(lc, tags, i);
      TagStartsWithAngle(lc, tags, i);
    }
  }

  // So on such a text the method has a result, and it is the matching end tag.
  lemma ClosedScanEnds(lc: string, tags: seq<string>, k: nat, from: nat)
    requires TagsClosed(lc, tags) && TagNames(tags) && k < |tags| && from <= |lc| <= MAX_INT
    ensures EndsFrom(lc, tags[k], from, 1)
    ensures match ScanOf(lc, tags[k], from, 1, 0)
            case Found(i) => MatchingEnd(lc, tags[k], from, 1, i)
            case NoTag => forall i :: !MatchingEnd(lc, tags[k], from, 1, i)
            case Running => false
  {
    hide ScanTags, ScanOf, EndsFrom, TagsClosed, MatchingEnd;
    ScanFindsMatchingEnd(lc, tags, k, from, 1, 0, |lc| + 1);
    LoopEndsExactlyWhen(lc, tags[k], from, 1, 0);
  }

  // ---------- the parser ends ----------

  lemma LowerCasePiece(text: string, a: nat, b: nat)
    requires a <= b <= |text|
    ensures LowerCase(text[a..b]) == LowerCase(text)[a..b]
  {
  }

  lemma FindElementEnds(text: string, tags: seq<string>, k: nat, rounds: nat)
    requires TagsClosed(LowerCase(text), tags) && TagNames(tags) && k < |tags| && rounds > |text|
    requires |text| <= MAX_INT
    ensures match FindElement(text, tags[k], rounds)
            case Failure(e) => e == CantFindTag
            case Success(c) =>
              && c.startTag < c.endTag <= c.startEnd < c.endEnd
              && MatchingEnd(LowerCase(text), tags[k], c.endTag, 1, c.startEnd)
              && TagsClosed(LowerCase(text[c.endTag..c.startEnd]), tags)
              && TagsClosed(LowerCase(text[c.endEnd..]), tags)
  {
    hide IndexFrom, ScanTags, LowerCase, TagsClosed, MatchingEnd, TagAt;
    var lc, tag := LowerCase(text), tags[k];
    assert |lc| == |text| by { LowerCaseLength(text); }
    var startTag := IndexFrom(lc, "<" + tag, 0);
    var endTag := IndexFrom(lc, ">", if startTag < 0 then 0 else startTag) + 1;
    ScanFindsMatchingEnd(lc, tags, k, endTag, 1, 0, rounds);
    var scan := ScanTags(lc, tag, endTag, 1, 0, rounds);
    if startTag >= 0 {
      TagAtOpener(lc, tags, k, startTag);
      EndOfTag(lc, tags, startTag);
      if scan.Found? {
        var i := scan.startEnd;
        TagAtCloser(lc, tags, k, endTag, 1, i);
        EndOfTag(lc, tags, i);
        var endEnd := IndexFrom(lc, ">", i) + 1;
        PieceClosed(lc, tags, endTag, i);
        PieceClosed(lc, tags, endEnd, |lc|);
        LowerCasePiece(text, endTag, i);
        LowerCasePiece(text, endEnd, |text|);
        assert text[endEnd..|text|] == text[endEnd..];
      }
    }
  }

  lemma LowerCaseLength(text: string)
    ensures |LowerCase(text)| == |text|
  {
  }

  lemma TagAtOpener(lc: string, tags: seq<string>, k: nat, i: int)
    requires k < |tags| && OccursAt(lc, "<" + tags[k], i)
    ensures TagAt(lc, tags, i)
  {
    assert Opener(lc, tags[k], i);
  }

  lemma TagAtCloser(lc: string, tags: seq<string>, k: nat, from: int, count: int, i: int)
    requires k < |tags| && MatchingEnd(lc, tags[k], from, count, i)
    ensures TagAt(lc, tags, i) && from <= i
  {
  }

  // On a text whose tags are closed, parsing ends within as many rounds and levels as there are
  // characters: with a tree, or with the exception for a tag that is missing.
  lemma {:induction false} ParseTextEnds(text: string, tags: seq<string>, level: nat, rounds: nat)
    requires TagsClosed(LowerCase(text), tags) && TagNames(tags) && level < |tags| && rounds > |text|
    requires |text| <= MAX_INT
    ensures var r := ParseText(text, tags, level, rounds); r.Success? || r.error == CantFindTag
    decreases rounds
  {
    hide FindElement, LowerCase, TagsClosed, IndexFrom, MatchingEnd;
    FindElementEnds(text, tags, level, rounds);
    var f := FindElement(text, tags[level], rounds);
    if f.Success? {
      var c := f.value;
      var body, trailer := text[c.endTag..c.startEnd], text[c.endEnd..];
      ParseTextEnds(body, tags, if level + 1 < |tags| then level + 1 else 0, rounds - 1);
      ParseTextEnds(trailer, tags, level, rounds - 1);
    }
  }
}
