// Printing a source node with its map, splitting the printed code by that map, and printing the result
// again: the same code and the same mappings.
module NodeRoundTrip {
  import opened Wrappers
  import opened Sequences
  import opened Mappings
  import opened SourceMap
  import opened SourceNodes
  import opened NodeMaps

  // ---------- positions and offsets agree ----------

  lemma {:induction false} NoBreaksInLines(code: string)
    ensures forall n :: 0 <= n < |Lines(code)| ==> '\n' !in Lines(code)[n]
  {
    if code != "" {
      NoBreaksInLines(code[1..]);
    }
  }

  lemma PositionStep(code: string, k: nat)
    requires k < |code|
    ensures PositionOf(code, k + 1) == Step(PositionOf(code, k), code[k])
  {
    MovedOn(TOP, code[..k], [code[k]]);
    assert code[..k + 1] == code[..k] + [code[k]];
    assert [code[k]][1..] == "";
  }

  // What is left at a position begins with the rest of the line, or with its break.
  lemma FirstOfRest(ls: seq<string>, line: int, column: int, k: nat)
    requires InCode(ls, line, column) && column <= |ls[line - 1]|
    requires k == OffsetAt(ls, line, column) < |JoinLines(ls)|
    ensures column < |ls[line - 1]| ==> JoinLines(ls)[k] == ls[line - 1][column]
    ensures column == |ls[line - 1]| ==> line < |ls| && JoinLines(ls)[k] == '\n'
  {
    hide JoinLines;
    RemainingIsRest(ls, line, column);
    var r := Remaining(ls, line, column);
    JoinHead(r);
    assert JoinLines(r) == JoinLines(ls)[k..];
    assert JoinLines(r)[0] == JoinLines(ls)[k];
    assert r[0] == ls[line - 1][column..];
  }

  // The position of the k-th character is one of the code, and leads back to k.
  lemma {:induction false} PositionInCode(code: string, k: nat)
    requires k <= |code|
    ensures var p := PositionOf(code, k);
            && InCode(Lines(code), p.line, p.column) && p.column <= |Lines(code)[p.line - 1]|
            && OffsetAt(Lines(code), p.line, p.column) == k
  {
    hide Lines, JoinLines, Remaining;
    var ls := Lines(code);
    if k == 0 {
      assert code[..0] == "";
    } else {
      PositionInCode(code, k - 1);
      PositionStep(code, k - 1);
      JoinOfLines(code);
      NoBreaksInLines(code);
      var p := PositionOf(code, k - 1);
      FirstOfRest(ls, p.line, p.column, k - 1);
      if p.column == |ls[p.line - 1]| {
        TakeLine(ls, p.line, p.column);
        RestOfLines(ls, p.line - 1, 0);
      }
    }
  }

  // ---------- the mappings that printing gives ----------

  ghost predicate AtCharacter(code: string, m: Mapping) {
    exists k :: 0 <= k < |code| && PositionOf(code, k) == Place(m)
  }

  // Each mapping is at a character of the code.
  lemma {:induction false} EmittedPlace(snippets: seq<Snippet>, before: string, last: Option<Original>, m: Mapping)
    requires NoEmptyTexts(snippets) && m in Emitted(snippets, Moved(TOP, before), last)
    ensures AtCharacter(before + CodeOf(snippets), m)
    decreases |snippets|
  {
    hide Moved;
    var text, rest := snippets[0].0, snippets[1..];
    var code := before + CodeOf(snippets);
    Assoc(before, text, CodeOf(rest));
    if m in Emitted(rest, Moved(TOP, before + text), snippets[0].1) {
      EmittedPlace(rest, before + text, snippets[0].1, m);
    } else {
      MovedOn(TOP, before, text);
      assert code[..|before|] == before && |code| > |before|;
      assert PositionOf(code, |before|) == Place(m);
    }
  }

  // Neighbouring mappings have different original positions.
  ghost predicate Changes(ms: seq<Mapping>, last: Option<Original>) {
    && (ms != [] ==> ms[0].original != last)
    && forall i :: 0 < i < |ms| ==> ms[i].original != ms[i - 1].original
  }

  lemma {:induction false} EmittedChanges(snippets: seq<Snippet>, p: Position, last: Option<Original>)
    ensures Changes(Emitted(snippets, p, last), last)
  {
    hide Moved;
    if snippets != [] {
      EmittedChanges(snippets[1..], Moved(p, snippets[0].0), snippets[0].1);
    }
  }

  // Mappings at characters of the code, in strict order.
  ghost predicate Points(code: string, ms: seq<Mapping>) {
    Increasing(ms) && forall i :: 0 <= i < |ms| ==> AtCharacter(code, ms[i])
  }

  lemma PointsAt(code: string, m: Mapping)
    requires AtCharacter(code, m)
    ensures InCode(Lines(code), m.line, m.column) && At(Lines(code), m) < |code|
    ensures PositionOf(code, At(Lines(code), m)) == Place(m)
  {
    hide Lines, OffsetAt, PositionOf;
    var k :| 0 <= k < |code| && PositionOf(code, k) == Place(m);
    PositionInCode(code, k);
  }

  lemma PointsInOrder(code: string, ms: seq<Mapping>)
    requires Points(code, ms)
    ensures InOrder(Lines(code), ms)
  {
    hide Lines, AtCharacter;
    forall i | 0 <= i < |ms| ensures InCode(Lines(code), ms[i].line, ms[i].column) {
      PointsAt(code, ms[i]);
    }
    forall i, j | 0 <= i < j < |ms| ensures NotAfter(ms[i].line, ms[i].column, ms[j].line, ms[j].column) {
      assert Less(Place(ms[i]), Place(ms[j]));
    }
  }

  // Each mapping covers some code, and the code it covers leads to the next mapping.
  lemma CoversToNext(code: string, ms: seq<Mapping>, i: nat)
    requires Points(code, ms) && InOrder(Lines(code), ms) && i < |ms|
    ensures Covered(Lines(code), ms, i) != ""
    ensures i + 1 < |ms| ==> Moved(Place(ms[i]), Covered(Lines(code), ms, i)) == Place(ms[i + 1])
  {
    hide Lines, JoinLines, OffsetAt, Moved, AtCharacter;
    var ls := Lines(code);
    JoinOfLines(code);
    Bounded(ls, ms, i);
    PointsAt(code, ms[i]);
    if i + 1 < |ms| {
      PointsAt(code, ms[i + 1]);
      assert Less(Place(ms[i]), Place(ms[i + 1]));
      var a, b := At(ls, ms[i]), At(ls, ms[i + 1]);
      MovedOn(TOP, code[..a], code[a..b]);
      assert code[..b] == code[..a] + code[a..b];
    }
  }

  // ---------- the mappings of the split code ----------

  lemma WalkPiece(m: Mapping, text: string)
    requires text != ""
    ensures Walk(Piece(m, text), None) == [(text, m.original)]
  {
    WalkText(text, m.original);
    if m.original.Some? {
      assert Walk(Piece(m, text), None) == Walk(Texts(text), m.original) + [];
    }
  }

  lemma EmittedFirst(s: Snippet, rest: seq<Snippet>, p: Position, last: Option<Original>)
    requires s.1 != last
    ensures Emitted([s] + rest, p, last) == [Mapping(p.line, p.column, s.1)] + Emitted(rest, Moved(p, s.0), s.1)
  {
    assert ([s] + rest)[1..] == rest;
  }

  lemma {:induction false} EmittedPieces(code: string, ms: seq<Mapping>, i: nat, last: Option<Original>)
    requires Points(code, ms) && InOrder(Lines(code), ms) && i < |ms| && Changes(ms[i..], last)
    ensures Emitted(Walk(Pieces(Lines(code), ms, i), None), Place(ms[i]), last) == ms[i..]
    decreases |ms| - i
  {
    hide Lines, Walk, Piece, Moved, Emitted, Covered, Points, InOrder;
    var ls := Lines(code);
    var text, rest := Covered(ls, ms, i), Pieces(ls, ms, i + 1);
    CoversToNext(code, ms, i);
    WalkPiece(ms[i], text);
    WalkConcat(Piece(ms[i], text), rest, None);
    assert ms[i..][0] == ms[i];
    EmittedFirst((text, ms[i].original), Walk(rest, None), Place(ms[i]), last);
    if i + 1 < |ms| {
      assert Changes(ms[i + 1..], ms[i].original) by {
        assert forall j :: 0 <= j < |ms| - i ==> ms[i..][j] == ms[i + j];
      }
      EmittedPieces(code, ms, i + 1, ms[i].original);
    } else {
      EmittedOfNothing(Moved(Place(ms[i]), text), ms[i].original);
    }
    assert ms[i..] == [ms[i]] + ms[i + 1..];
  }

  lemma EmittedOfNothing(p: Position, last: Option<Original>)
    ensures Emitted(Walk([], None), p, last) == []
  {
  }

  // Code without original positions in front adds no mapping.
  lemma {:induction false} EmittedBehind(a: seq<Snippet>, b: seq<Snippet>, p: Position)
    requires forall s :: s in a ==> s.1 == None
    ensures Emitted(a + b, p, None) == Emitted(b, Moved(p, CodeOf(a)), None)
  {
    hide Moved;
    if a == [] {
      assert a + b == b && CodeOf(a) == "";
      MovedNowhere(p);
    } else {
      EmittedBehind(a[1..], b, Moved(p, a[0].0));
      assert (a + b)[0] == a[0] && (a + b)[1..] == a[1..] + b;
      MovedOn(p, a[0].0, CodeOf(a[1..]));
    }
  }

  lemma MovedNowhere(p: Position)
    ensures Moved(p, "") == p
  {
  }

  lemma {:induction false} TextsHaveNoOriginal(children: seq<Chunk>)
    requires forall i :: 0 <= i < |children| ==> children[i].Text?
    ensures forall s :: s in Walk(children, None) ==> s.1 == None
  {
    if children != [] {
      TextsHaveNoOriginal(children[1..]);
    }
  }

  // What fromStringWithSourceMap makes of the code.
  function Split(code: string, ms: seq<Mapping>): seq<Chunk>
    requires InOrder(Lines(code), ms)
  {
    if ms == [] then Texts(code) else Leading(Lines(code), ms[0]) + Pieces(Lines(code), ms, 0)
  }

  // Splitting code by mappings at its characters, each with another original position than the one
  // before, and printing the pieces gives these mappings back.
  lemma SplitGivesMappings(code: string, ms: seq<Mapping>)
    requires Points(code, ms) && InOrder(Lines(code), ms) && Changes(ms, None)
    ensures Emitted(Walk(Split(code, ms), None), TOP, None) == ms
  {
    hide Lines, JoinLines, OffsetAt, LineTexts, Walk, Pieces, Moved, Emitted, AtCharacter;
    var ls := Lines(code);
    if ms == [] {
      TextsHaveNoOriginal(Texts(code));
      EmittedBehind(Walk(Texts(code), None), [], TOP);
      assert Walk(Texts(code), None) + [] == Walk(Texts(code), None);
      EmittedOfNone(Moved(TOP, CodeOf(Walk(Texts(code), None))));
    } else {
      var leading, pieces := Leading(ls, ms[0]), Pieces(ls, ms, 0);
      WalkConcat(leading, pieces, None);
      LineTextsAreTexts(ls, ms[0].line - 1);
      TextsHaveNoOriginal(leading);
      EmittedBehind(Walk(leading, None), Walk(pieces, None), TOP);
      JoinOfLines(code);
      ToStringLeading(ls, ms[0]);
      assert ms[0..] == ms;
      PointsAt(code, ms[0]);
      EmittedPieces(code, ms, 0, None);
    }
  }

  lemma EmittedOfNone(p: Position)
    ensures Emitted([], p, None) == []
  {
  }

  // ---------- the whole way and back ----------

  // The printed code can be split by its own mappings, and the pieces print to the same code and mappings.
  lemma PrintedSplitsBack(children: seq<Chunk>)
    ensures var code, ms := ToString(children), Emitted(Walk(children, None), TOP, None);
            && InOrder(Lines(code), ms)
            && ToString(Split(code, ms)) == code
            && Emitted(Walk(Split(code, ms), None), TOP, None) == ms
  {
    hide Walk, Emitted, CodeOf, Moved, Lines, Leading, Pieces, InOrder, AtCharacter;
    var snippets := Walk(children, None);
    var code, ms := CodeOf(snippets), Emitted(snippets, TOP, None);
    WalkHasNoEmptyTexts(children, None);
    EmittedIncreases(snippets, TOP, None);
    EmittedChanges(snippets, TOP, None);
    MovedNowhere(TOP);
    forall i | 0 <= i < |ms| ensures AtCharacter(code, ms[i]) {
      EmittedPlace(snippets, "", None, ms[i]);
      assert "" + code == code;
    }
    PointsInOrder(code, ms);
    SplitKeepsCode(code, ms);
    SplitGivesMappings(code, ms);
  }

  // The pieces hold, character by character, the original positions of the first tree.
  lemma SplitKeepsOriginals(children: seq<Chunk>, k: nat)
    requires k < |ToString(children)|
    ensures var code, ms := ToString(children), Emitted(Walk(children, None), TOP, None);
            && InOrder(Lines(code), ms) && ToString(Split(code, ms)) == code
            && OriginalAt(Walk(Split(code, ms), None), k) == OriginalAt(Walk(children, None), k)
  {
    hide Walk, Emitted, CodeOf, Moved, Lines, Split, InOrder, OriginalAt, InForce;
    PrintedSplitsBack(children);
    var again := Split(ToString(children), Emitted(Walk(children, None), TOP, None));
    WalkHasNoEmptyTexts(children, None);
    WalkHasNoEmptyTexts(again, None);
    EmittedInForce(Walk(children, None), TOP, None, k);
    EmittedInForce(Walk(again, None), TOP, None, k);
  }

  ghost predicate OriginalsFrom(snippets: seq<Snippet>, ms: seq<Mapping>) {
    forall s :: s in snippets && s.1.Some? ==> exists m :: m in ms && m.original == s.1
  }

  lemma {:induction false} PiecesOriginals(ls: seq<string>, ms: seq<Mapping>, i: nat)
    requires InOrder(ls, ms) && i <= |ms|
    ensures OriginalsFrom(Walk(Pieces(ls, ms, i), None), ms)
    decreases |ms| - i
  {
    hide Walk, InOrder, Covered, Texts;
    if i == |ms| {
      WalkNothing();
    } else {
      PiecesOriginals(ls, ms, i + 1);
      var text := Covered(ls, ms, i);
      WalkConcat(Piece(ms[i], text), Pieces(ls, ms, i + 1), None);
      if text == "" {
        WalkEmptyPiece(ms[i]);
      } else {
        WalkPiece(ms[i], text);
      }
      assert ms[i] in ms;
    }
  }

  lemma WalkNothing()
    ensures Walk([], None) == []
  {
  }

  lemma WalkEmptyPiece(m: Mapping)
    ensures Walk(Piece(m, ""), None) == []
  {
    if m.original.Some? {
      assert Walk(Piece(m, ""), None) == Walk([], m.original) + [];
    }
  }

  lemma SplitOriginals(code: string, ms: seq<Mapping>)
    requires InOrder(Lines(code), ms)
    ensures OriginalsFrom(Walk(Split(code, ms), None), ms)
  {
    hide Walk, Lines, Pieces, LineTexts;
    if ms == [] {
      TextsHaveNoOriginal(Texts(code));
    } else {
      var ls := Lines(code);
      LineTextsAreTexts(ls, ms[0].line - 1);
      TextsHaveNoOriginal(Leading(ls, ms[0]));
      PiecesOriginals(ls, ms, 0);
      WalkConcat(Leading(ls, ms[0]), Pieces(ls, ms, 0), None);
    }
  }

  // So they can be printed when the first tree could.
  lemma SplitIsPrintable(children: seq<Chunk>)
    requires OriginalsValid(Walk(children, None)) && OriginalsBelowLimit(Walk(children, None))
    ensures var code, ms := ToString(children), Emitted(Walk(children, None), TOP, None);
            && InOrder(Lines(code), ms)
            && OriginalsValid(Walk(Split(code, ms), None)) && OriginalsBelowLimit(Walk(Split(code, ms), None))
  {
    hide Walk, Emitted, CodeOf, Lines, Split, InOrder;
    PrintedSplitsBack(children);
    var code, ms := ToString(children), Emitted(Walk(children, None), TOP, None);
    SplitOriginals(code, ms);
    var again := Walk(Split(code, ms), None);
    forall i | 0 <= i < |again| && again[i].1.Some?
      ensures Acceptable(again[i].1) && again[i].1.value.line <= LIMIT && again[i].1.value.column < LIMIT
    {
      assert again[i] in again;
      var m :| m in ms && m.original == again[i].1;
      EmittedBelowLimit(Walk(children, None), TOP, None, m);
    }
  }

  // Print a node, split the code by the map as it is read back, and print the pieces: the code is the
  // same, and so are the mappings that are read back then.
  method PrintSplitPrint(children: seq<Chunk>)
    returns (ok: bool, code: string, c: SourceMapConsumer, code': string, c': SourceMapConsumer)
    requires OriginalsBelowLimit(Walk(children, None)) && |ToString(children)| < LIMIT
    ensures ok <==> OriginalsValid(Walk(children, None))
    ensures ok ==> code == code' == ToString(children) && c.generatedMappings == c'.generatedMappings
  {
    hide Walk, Emitted, CodeOf, Lines, Pieces, Leading, InOrder, OriginalsValid, OriginalsBelowLimit, OriginalAt,
         InForce;
    ok, code, c := PrintAndParse(children);
    code', c' := code, c;
    if ok {
      PrintedSplitsBack(children);
      SplitIsPrintable(children);
      var pieces := FromStringWithSourceMap(code, c.generatedMappings);
      var again;
      again, code', c' := PrintAndParse(pieces);
    }
  }
}
