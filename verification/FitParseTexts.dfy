// Texts that show on which the HTML parser of Fit comes to a result, on which only by the overflow of its
// count, and on which never (src/fit/Parse.java).
module FitParseTexts {
  import opened Wrappers
  import opened Strings
  import opened FitScan
  import opened FitParse
  import opened FitParseEnds

  // ---------- finding places in a given text ----------

  lemma AllCharacters(s: string, t: string, i: int)
    requires OccursAt(s, t, i)
    ensures forall m :: 0 <= m < |t| ==> s[i + m] == t[m]
  {
    forall m | 0 <= m < |t| ensures s[i + m] == t[m] {
      assert s[i..i + |t|][m] == s[i + m];
    }
  }

  // One of the first three characters tells that t is not at j.
  predicate DiffersSoon(s: string, t: string, j: nat) {
    || j + |t| > |s|
    || (|t| > 0 && s[j] != t[0])
    || (|t| > 1 && s[j + 1] != t[1])
    || (|t| > 2 && s[j + 2] != t[2])
  }

  lemma NotHere(s: string, t: string, j: nat)
    requires DiffersSoon(s, t, j)
    ensures !OccursAt(s, t, j)
  {
    if OccursAt(s, t, j) {
      AllCharacters(s, t, j);
    }
  }

  lemma IndexIs(s: string, t: string, from: nat, i: nat)
    requires from <= i && OccursAt(s, t, i) && forall j :: from <= j < i ==> DiffersSoon(s, t, j)
    ensures IndexFrom(s, t, from) == i
  {
    hide IndexFrom, DiffersSoon;
    forall j: nat | from <= j < i ensures !OccursAt(s, t, j) {
      NotHere(s, t, j);
    }
  }

  lemma IndexIsNone(s: string, t: string, from: nat)
    requires t != "" && forall j :: from <= j < |s| ==> DiffersSoon(s, t, j)
    ensures IndexFrom(s, t, from) == -1
  {
    hide IndexFrom, DiffersSoon;
    var i := IndexFrom(s, t, from);
    if i != -1 {
      NotHere(s, t, i);
    }
  }

  // ---------- a text on which only the overflow ends the loop ----------

  const CUT_OFF := "<a"

  // An opening tag whose '>' was cut off sends the loop back to it until the count overflows; the loop
  // then takes it for the end tag.
  lemma {:induction false} CutOffTagOverflows(count: int32, startEnd: nat, rounds: nat)
    requires count >= 1
    ensures ScanTags(CUT_OFF, "a", 0, count, startEnd, rounds)
         == if rounds <= MAX_INT - count then Running else Found(0)
    decreases rounds
  {
    hide IndexFrom;
    if rounds > 0 {
      IndicesInCutOff();
      if count < MAX_INT {
        CutOffTagOverflows(count + 1, 0, rounds - 1);
      }
    }
  }

  lemma IndicesInCutOff()
    ensures IndexFrom(CUT_OFF, "<a", 0) == 0 && IndexFrom(CUT_OFF, "</a", 0) == IndexFrom(CUT_OFF, ">", 0) == -1
    ensures "<" + "a" == "<a" && "</" + "a" == "</a"
  {
    hide IndexFrom;
    IndexIs(CUT_OFF, "<a", 0, 0);
    IndexIsNone(CUT_OFF, "</a", 0);
    IndexIsNone(CUT_OFF, ">", 0);
  }

  // In this text a '>' follows every tag, but the cell ends before that of the table in it.
  const DOCUMENT := "<a><b><a</b></a></a>"
  const ROW := "<b><a</b></a>"

  lemma Characters()
    ensures |DOCUMENT| == 20 && |ROW| == 13
    ensures forall i :: 0 <= i < 20 ==> (DOCUMENT[i] == '<' <==> i in {0, 3, 6, 8, 12, 16})
    ensures forall i :: 0 <= i < 20 ==> (DOCUMENT[i] == '>' <==> i in {2, 5, 11, 15, 19})
    ensures forall i :: 0 <= i < 13 ==> ROW[i] == DOCUMENT[i + 3]
    ensures LowerCase(DOCUMENT) == DOCUMENT && LowerCase(ROW) == ROW && LowerCase(CUT_OFF) == CUT_OFF
  {
  }

  lemma OpenersInDocument()
    ensures IndexFrom(DOCUMENT, "<a", 0) == 0 && IndexFrom(DOCUMENT, "<a", 3) == 6
    ensures IndexFrom(DOCUMENT, "<a", 12) == IndexFrom(DOCUMENT, "<a", 16) == IndexFrom(DOCUMENT, "<a", 20) == -1
  {
    hide IndexFrom;
    Characters();
    var d := DOCUMENT;
    assert d[..2] == "<a" && d[6..8] == "<a";
    assert d[4] == 'b' && d[13] == '/' && d[17] == '/';
    IndexIs(d, "<a", 0, 0);
    IndexIs(d, "<a", 3, 6);
    IndexIsNone(d, "<a", 12);
    IndexIsNone(d, "<a", 16);
    IndexIsNone(d, "<a", 20);
  }

  lemma ClosersInDocument()
    ensures IndexFrom(DOCUMENT, "</a", 3) == IndexFrom(DOCUMENT, "</a", 12) == 12
    ensures IndexFrom(DOCUMENT, "</a", 16) == 16
  {
    hide IndexFrom;
    Characters();
    var d := DOCUMENT;
    assert d[12..15] == "</a" && d[16..19] == "</a";
    assert d[4] == 'b' && d[7] == 'a' && d[9] == '/' && d[10] == 'b';
    IndexIs(d, "</a", 3, 12);
    IndexIs(d, "</a", 12, 12);
    IndexIs(d, "</a", 16, 16);
  }

  lemma BracketsInDocument()
    ensures IndexFrom(DOCUMENT, ">", 0) == 2 && IndexFrom(DOCUMENT, ">", 6) == 11
    ensures IndexFrom(DOCUMENT, ">", 12) == 15 && IndexFrom(DOCUMENT, ">", 16) == 19
  {
    hide IndexFrom;
    Characters();
    var d := DOCUMENT;
    assert d[2..3] == ">" && d[11..12] == ">" && d[15..16] == ">" && d[19..20] == ">";
    IndexIs(d, ">", 0, 2);
    IndexIs(d, ">", 6, 11);
    IndexIs(d, ">", 12, 15);
    IndexIs(d, ">", 16, 19);
  }

  lemma IndicesInDocument()
    ensures IndexFrom(DOCUMENT, "<a", 0) == 0 && IndexFrom(DOCUMENT, ">", 0) == 2
    ensures IndexFrom(DOCUMENT, "<a", 3) == 6 && IndexFrom(DOCUMENT, "</a", 3) == 12
    ensures IndexFrom(DOCUMENT, ">", 6) == 11
    ensures IndexFrom(DOCUMENT, "<a", 12) == -1 && IndexFrom(DOCUMENT, "</a", 12) == 12
    ensures IndexFrom(DOCUMENT, ">", 12) == 15
    ensures IndexFrom(DOCUMENT, "<a", 16) == -1 && IndexFrom(DOCUMENT, "</a", 16) == 16
    ensures IndexFrom(DOCUMENT, ">", 16) == 19
    ensures IndexFrom(DOCUMENT, "<a", 20) == -1
  {
    hide IndexFrom;
    OpenersInDocument();
    ClosersInDocument();
    BracketsInDocument();
  }

  lemma TagsInRow()
    ensures IndexFrom(ROW, "<b", 0) == 0 && IndexFrom(ROW, "</b", 3) == 5
    ensures IndexFrom(ROW, "<b", 3) == IndexFrom(ROW, "<b", 9) == -1
  {
    hide IndexFrom;
    Characters();
    assert ROW[..2] == "<b" && ROW[5..8] == "</b";
    assert ROW[4] == 'a' && ROW[6] == '/' && ROW[10] == '/';
    IndexIs(ROW, "<b", 0, 0);
    IndexIs(ROW, "</b", 3, 5);
    IndexIsNone(ROW, "<b", 3);
    IndexIsNone(ROW, "<b", 9);
  }

  lemma IndicesInRow()
    ensures IndexFrom(ROW, "<b", 0) == 0 && IndexFrom(ROW, ">", 0) == 2
    ensures IndexFrom(ROW, "<b", 3) == -1 && IndexFrom(ROW, "</b", 3) == 5 && IndexFrom(ROW, ">", 5) == 8
    ensures IndexFrom(ROW, "<b", 9) == -1
  {
    hide IndexFrom;
    TagsInRow();
    Characters();
    assert ROW[2..3] == ">" && ROW[8..9] == ">";
    IndexIs(ROW, ">", 0, 2);
    IndexIs(ROW, ">", 5, 8);
  }

  lemma ScanDocument(rounds: nat)
    ensures ScanTags(DOCUMENT, "a", 3, 1, 0, rounds) == if rounds < 3 then Running else Found(16)
  {
    hide IndexFrom;
    IndicesInDocument();
    assert "<" + "a" == "<a" && "</" + "a" == "</a";
    ScanUnfold(DOCUMENT, "a", 12, 2, 6, if rounds < 1 then 0 else rounds - 1);
    ScanUnfold(DOCUMENT, "a", 16, 1, 12, if rounds < 2 then 0 else rounds - 2);
  }

  lemma ScanUnfold(lc: string, tag: string, from: nat, count: int32, startEnd: nat, rounds: nat)
    requires count > 0
    ensures var o, e := IndexFrom(lc, "<" + tag, from), IndexFrom(lc, "</" + tag, from);
            o < 0 <= e ==> ScanTags(lc, tag, from, count, startEnd, rounds) ==
                             if rounds == 0 then Running
                             else ScanTags(lc, tag, IndexFrom(lc, ">", e) + 1, count - 1, e, rounds - 1)
  {
    hide IndexFrom;
  }

  lemma DocumentIsCut(rounds: nat)
    ensures FindElement(DOCUMENT, "a", rounds)
         == if rounds < 3 then Failure(StillRunning) else Success(Cuts(0, 3, 16, 20, false))
  {
    hide IndexFrom, ScanTags, LowerCase;
    Characters();
    IndicesInDocument();
    ScanDocument(rounds);
    assert "<" + "a" == "<a";
  }

  lemma BracketBehindEveryTag(i: int)
    requires TagAt(DOCUMENT, ["a", "b"], i)
    ensures exists j :: 0 <= i < j < |DOCUMENT| && DOCUMENT[j] == '>'
  {
    hide TagAt;
    Characters();
    TagStartsWithAngle(DOCUMENT, ["a", "b"], i);
    assert i < 19 && DOCUMENT[19] == '>';
  }

  // A '>' behind every tag is not enough: on this text the parser goes round for 2^31 - 1 times, until
  // the count overflows, and then does not find the tag of the next level in the empty body.
  lemma DocumentOverflows(rounds: nat)
    ensures ParseText(DOCUMENT, ["a", "b"], 0, rounds)
         == Failure(if rounds <= MAX_INT + 1 then StillRunning else CantFindTag)
  {
    hide FindElement, LowerCase;
    DocumentIsCut(rounds);
    if rounds >= 3 {
      Characters();
      assert DOCUMENT[3..16] == ROW;
      RowOverflows(rounds - 1);
      assert ParseParts(ROW, ["a", "b"], 0, rounds - 1) == Present(ParseText(ROW, ["a", "b"], 1, rounds - 1));
    }
  }

  lemma RowIsCut(rounds: nat)
    ensures FindElement(ROW, "b", rounds)
         == if rounds == 0 then Failure(StillRunning) else Success(Cuts(0, 3, 5, 9, false))
  {
    hide IndexFrom, ScanTags, LowerCase;
    Characters();
    IndicesInRow();
    ScanUnfold(ROW, "b", 3, 1, 0, rounds);
    assert "<" + "b" == "<b" && "</" + "b" == "</b";
    ScanEnded(ROW, "b", 9, 5, if rounds == 0 then 0 else rounds - 1);
  }

  lemma RowOverflows(rounds: nat)
    ensures ParseText(ROW, ["a", "b"], 1, rounds) == Failure(if rounds <= MAX_INT then StillRunning else CantFindTag)
  {
    hide FindElement, ParseParts;
    RowIsCut(rounds);
    if rounds > 0 {
      assert ROW[3..5] == CUT_OFF;
      CutOffOverflows(rounds - 1);
    }
  }

  lemma ScanEnded(lc: string, tag: string, from: nat, startEnd: nat, rounds: nat)
    ensures ScanTags(lc, tag, from, 0, startEnd, rounds) == Found(startEnd)
  {
  }

  lemma CutOffOverflows(rounds: nat)
    ensures ParseParts(CUT_OFF, ["a", "b"], 1, rounds)
         == Failure(if rounds < MAX_INT then StillRunning else CantFindTag)
  {
    hide IndexFrom, ScanTags;
    Characters();
    IndicesInCutOff();
    CutOffTagOverflows(1, 0, rounds);
    if rounds >= MAX_INT {
      assert FindElement(CUT_OFF, "a", rounds) == Success(Cuts(0, 0, 0, 0, true));
      assert CUT_OFF[0..0] == "";
      NothingToFind("b", rounds - 1);
      assert ParseParts("", ["a", "b"], 0, rounds - 1) == Failure(CantFindTag);
    }
  }

  lemma NothingToFind(tag: string, rounds: nat)
    requires rounds > 0
    ensures FindElement("", tag, rounds) == Failure(CantFindTag)
  {
    assert LowerCase("") == "";
  }

  // ---------- texts on which the parser never ends ----------

  // Behind the first opening tag two more are counted and one closed; its '>' is missing, so the loop goes
  // back to the start, where a closing tag makes up for the difference.
  const CIRCLE := "</a <a><a><a></a"

  lemma CircleCharacters()
    ensures |CIRCLE| == 16 && LowerCase(CIRCLE) == CIRCLE && "<" + "a" == "<a" && "</" + "a" == "</a"
    ensures forall i :: 0 <= i < 16 ==> (CIRCLE[i] == '<' <==> i in {0, 4, 7, 10, 13})
    ensures forall i :: 0 <= i < 16 ==> (CIRCLE[i] == '>' <==> i in {6, 9, 12})
    ensures CIRCLE[1] == '/' && CIRCLE[14] == '/' && CIRCLE[5] == CIRCLE[8] == CIRCLE[11] == 'a'
    ensures CIRCLE[..3] == "</a" && CIRCLE[13..16] == "</a"
    ensures CIRCLE[4..6] == "<a" && CIRCLE[7..9] == "<a" && CIRCLE[10..12] == "<a"
    ensures CIRCLE[6..7] == ">" && CIRCLE[9..10] == ">" && CIRCLE[12..13] == ">"
  {
  }

  lemma OpenersInCircle()
    ensures IndexFrom(CIRCLE, "<a", 0) == 4 && IndexFrom(CIRCLE, "<a", 7) == 7
    ensures IndexFrom(CIRCLE, "<a", 10) == 10 && IndexFrom(CIRCLE, "<a", 13) == -1
  {
    hide IndexFrom;
    CircleCharacters();
    IndexIs(CIRCLE, "<a", 0, 4);
    IndexIs(CIRCLE, "<a", 7, 7);
    IndexIs(CIRCLE, "<a", 10, 10);
    IndexIsNone(CIRCLE, "<a", 13);
  }

  lemma ClosersInCircle()
    ensures IndexFrom(CIRCLE, "</a", 0) == 0
    ensures IndexFrom(CIRCLE, "</a", 7) == IndexFrom(CIRCLE, "</a", 10) == IndexFrom(CIRCLE, "</a", 13) == 13
  {
    hide IndexFrom;
    CircleCharacters();
    IndexIs(CIRCLE, "</a", 0, 0);
    IndexIs(CIRCLE, "</a", 7, 13);
    IndexIs(CIRCLE, "</a", 10, 13);
    IndexIs(CIRCLE, "</a", 13, 13);
  }

  lemma BracketsInCircle()
    ensures IndexFrom(CIRCLE, ">", 0) == IndexFrom(CIRCLE, ">", 4) == 6 && IndexFrom(CIRCLE, ">", 7) == 9
    ensures IndexFrom(CIRCLE, ">", 10) == 12 && IndexFrom(CIRCLE, ">", 13) == -1
  {
    hide IndexFrom;
    CircleCharacters();
    IndexIs(CIRCLE, ">", 0, 6);
    IndexIs(CIRCLE, ">", 4, 6);
    IndexIs(CIRCLE, ">", 7, 9);
    IndexIs(CIRCLE, ">", 10, 12);
    IndexIsNone(CIRCLE, ">", 13);
  }

  lemma TagsInCircle()
    ensures NearestTag(CIRCLE, "a", 0) == Tag(0, -1, 7) && NearestTag(CIRCLE, "a", 7) == Tag(7, 1, 10)
    ensures NearestTag(CIRCLE, "a", 10) == Tag(10, 1, 13) && NearestTag(CIRCLE, "a", 13) == Tag(13, -1, 0)
    ensures EndOfStart(CIRCLE, "a") == 7
  {
    hide IndexFrom;
    CircleCharacters();
    OpenersInCircle();
    ClosersInCircle();
    BracketsInCircle();
  }

  lemma PassInCircle(startEnd: nat)
    ensures Pass(CIRCLE, "a", 7, 1, startEnd) == Pass(CIRCLE, "a", 0, 2, startEnd) == Wrapped(2, 13)
  {
    hide NearestTag;
    TagsInCircle();
    assert Pass(CIRCLE, "a", 13, 3, 10) == Wrapped(2, 13);
    assert Pass(CIRCLE, "a", 10, 2, 7) == Pass(CIRCLE, "a", 13, 3, 10);
    assert Pass(CIRCLE, "a", 7, 1, startEnd) == Pass(CIRCLE, "a", 10, 2, 7) == Pass(CIRCLE, "a", 7, 1, 0);
  }

  // Every pass comes back with the count 2.
  lemma CircleNeverEnds(rounds: nat)
    ensures !EndsFrom(CIRCLE, "a", 7, 1) && !LoopsEnd(CIRCLE, ["a"], 0)
    ensures ParseText(CIRCLE, ["a"], 0, rounds) == Failure(StillRunning)
  {
    hide Pass, NearestTag, LowerCase, EndOfStart, CutOf, ParseText, ParseOf;
    CircleCharacters();
    TagsInCircle();
    PassInCircle(0);
    ParserEndsExactlyWhen(CIRCLE, ["a"], 0);
  }

  // On the last level an overflowed loop leaves the text itself to be parsed next, for ever.
  lemma RecursionNeverEnds(rounds: nat)
    ensures EndsFrom(CUT_OFF, "a", 0, 1) && !LoopsEnd(CUT_OFF, ["a"], 0)
    ensures ParseText(CUT_OFF, ["a"], 0, rounds) == Failure(StillRunning)
  {
    hide IndexFrom, ScanTags, LowerCase, EndsFrom, ParseText, ParseOf;
    Characters();
    IndicesInCutOff();
    assert EndOfStart(CUT_OFF, "a") == 0;
    CutOffTagOverflows(1, 0, MAX_INT);
    LoopEndsExactlyWhen(CUT_OFF, "a", 0, 1, 0);
    assert CutOf(CUT_OFF, "a") == Success(Cuts(0, 0, 0, 0, true));
    assert CUT_OFF[0..0] == "";
    assert PartsOf("", ["a"], 0) == Success(None);
    ParserEndsExactlyWhen(CUT_OFF, ["a"], 0);
  }

  // ---------- a text on which it ends although a tag is not closed ----------

  // Closed tags are not necessary: here a tag starts before the '>' of another.
  const UNCLOSED := "<a <a></a>"

  lemma UnclosedCharacters()
    ensures |UNCLOSED| == 10 && LowerCase(UNCLOSED) == UNCLOSED
    ensures forall i :: 0 <= i < 10 ==> (UNCLOSED[i] == '<' <==> i in {0, 3, 6})
    ensures forall i :: 0 <= i < 10 ==> (UNCLOSED[i] == '>' <==> i in {5, 9})
    ensures UNCLOSED[7] == '/' && UNCLOSED[..2] == "<a" && UNCLOSED[3..5] == "<a" && UNCLOSED[6..9] == "</a"
    ensures "<" + "a" == "<a" && "</" + "a" == "</a"
  {
  }

  lemma IndicesInUnclosed()
    ensures IndexFrom(UNCLOSED, "<a", 0) == 0 && IndexFrom(UNCLOSED, ">", 0) == 5
    ensures IndexFrom(UNCLOSED, "<a", 6) == -1 && IndexFrom(UNCLOSED, "</a", 6) == 6
    ensures IndexFrom(UNCLOSED, ">", 6) == 9 && IndexFrom(UNCLOSED, "<a", 10) == -1
  {
    hide IndexFrom;
    UnclosedCharacters();
    assert UNCLOSED[5..6] == ">" && UNCLOSED[9..10] == ">";
    IndexIs(UNCLOSED, "<a", 0, 0);
    IndexIs(UNCLOSED, ">", 0, 5);
    IndexIs(UNCLOSED, "</a", 6, 6);
    IndexIs(UNCLOSED, ">", 6, 9);
    IndexIsNone(UNCLOSED, "<a", 6);
    IndexIsNone(UNCLOSED, "<a", 10);
  }

  lemma UnclosedTextParses()
    ensures !TagsClosed(LowerCase(UNCLOSED), ["a"]) && LoopsEnd(UNCLOSED, ["a"], 0)
    ensures ParseOf(UNCLOSED, ["a"], 0) == Success(Parse("", "<a <a>", "", "</a>", "", None, None))
  {
    hide IndexFrom, LowerCase, EndsFrom, ScanOf, TagsClosed;
    UnclosedCharacters();
    IndicesInUnclosed();
    UnclosedIsUnclosed();
    UnclosedScan();
    assert EndOfStart(UNCLOSED, "a") == 6;
    assert CutOf(UNCLOSED, "a") == Success(Cuts(0, 6, 6, 10, false));
    assert PartsOf("", ["a"], 0) == Success(None) && LoopsEndInBody("", ["a"], 0) by {
      assert IndexFrom("", "<a", 0) == -1;
    }
    assert UNCLOSED[..0] == "" && UNCLOSED[..6] == "<a <a>" && UNCLOSED[6..6] == "" && UNCLOSED[6..10] == "</a>";
    assert UNCLOSED[10..] == "";
  }

  lemma UnclosedScan()
    ensures EndsFrom(UNCLOSED, "a", 6, 1) && ScanOf(UNCLOSED, "a", 6, 1, 0) == Found(6)
  {
    hide IndexFrom;
    UnclosedCharacters();
    IndicesInUnclosed();
    assert NearestTag(UNCLOSED, "a", 6) == Tag(6, -1, 10);
  }

  lemma UnclosedIsUnclosed()
    ensures !TagsClosed(UNCLOSED, ["a"])
  {
    UnclosedCharacters();
    assert Opener(UNCLOSED, "a", 0) && Opener(UNCLOSED, "a", 3);
    assert ["a"][0] == "a";
    assert TagAt(UNCLOSED, ["a"], 0) && TagAt(UNCLOSED, ["a"], 3);
  }
}
