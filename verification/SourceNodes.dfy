// Source nodes: generated code in pieces that remember where they came from
// (extra/lesscss/less-rhino-1.7.0.js, module 'source-map/source-node').
module SourceNodes {
  import opened Wrappers
  import opened Sequences
  import opened Mappings

  // A piece of code, or a node; a node without an original position has none of its parts.
  datatype Chunk = Text(text: string) | Node(original: Option<Original>, children: seq<Chunk>)

  // ---------- walking a tree ----------

  type Snippet = (string, Option<Original>)

  // The snippets in order, each with the original position of the node it is a child of.
  function Walk(children: seq<Chunk>, original: Option<Original>): seq<Snippet> {
    if children == [] then [] else WalkOne(children[0], original) + Walk(children[1..], original)
  }

  function WalkOne(c: Chunk, original: Option<Original>): seq<Snippet> {
    match c
    case Text(text) => if text == "" then [] else [(text, original)]
    case Node(o, children) => Walk(children, o)
  }

  function CodeOf(snippets: seq<Snippet>): string {
    if snippets == [] then "" else snippets[0].0 + CodeOf(snippets[1..])
  }

  function ToString(children: seq<Chunk>): string {
    CodeOf(Walk(children, None))
  }

  lemma {:induction false} CodeOfConcat(a: seq<Snippet>, b: seq<Snippet>)
    ensures CodeOf(a + b) == CodeOf(a) + CodeOf(b)
  {
    if a == [] {
      assert a + b == b;
    } else {
      CodeOfConcat(a[1..], b);
      assert (a + b)[1..] == a[1..] + b;
      Assoc(a[0].0, CodeOf(a[1..]), CodeOf(b));
    }
  }

  lemma {:induction false} WalkConcat(a: seq<Chunk>, b: seq<Chunk>, original: Option<Original>)
    ensures Walk(a + b, original) == Walk(a, original) + Walk(b, original)
  {
    hide WalkOne;
    if a == [] {
      assert a + b == b;
    } else {
      WalkConcat(a[1..], b, original);
      assert (a + b)[0] == a[0] && (a + b)[1..] == a[1..] + b;
      Assoc(WalkOne(a[0], original), Walk(a[1..], original), Walk(b, original));
    }
  }

  // ---------- lines ----------

  // split("\n")
  function Lines(code: string): (ls: seq<string>)
    ensures |ls| >= 1
  {
    if code == "" then [""]
    else
      var rest := Lines(code[1..]);
      if code[0] == '\n' then [""] + rest else [[code[0]] + rest[0]] + rest[1..]
  }

  // join("\n")
  function JoinLines(ls: seq<string>): string
    requires ls != []
  {
    if |ls| == 1 then ls[0] else ls[0] + "\n" + JoinLines(ls[1..])
  }

  lemma JoinHead(ls: seq<string>)
    requires ls != []
    ensures JoinLines(ls) == if |ls| == 1 then ls[0] else ls[0] + "\n" + JoinLines(ls[1..])
  {
  }

  lemma {:induction false} JoinOfLines(code: string)
    ensures JoinLines(Lines(code)) == code
  {
    hide JoinLines;
    var ls := Lines(code);
    JoinHead(ls);
    if code != "" {
      var rest := Lines(code[1..]);
      JoinOfLines(code[1..]);
      JoinHead(rest);
      assert ls[1..] == if code[0] == '\n' then rest else rest[1..];
      assert code == [code[0]] + code[1..];
    }
  }

  // The offset at which line n starts, counting from 0.
  function Start(ls: seq<string>, n: nat): nat
    requires n <= |ls|
  {
    if n == 0 then 0 else |ls[0]| + 1 + Start(ls[1..], n - 1)
  }

  // What is left when the lines before n and c characters of line n are gone.
  lemma {:induction false} RestOfLines(ls: seq<string>, n: nat, c: nat)
    requires n < |ls| && c <= |ls[n]|
    ensures Start(ls, n) + c <= |JoinLines(ls)|
    ensures JoinLines([ls[n][c..]] + ls[n + 1..]) == JoinLines(ls)[Start(ls, n) + c..]
    ensures n + 1 < |ls| ==> Start(ls, n + 1) == Start(ls, n) + |ls[n]| + 1 <= |JoinLines(ls)|
  {
    hide JoinLines;
    var first, rest := ls[n][c..], ls[n + 1..];
    assert ([first] + rest)[1..] == rest;
    JoinHead(ls);
    JoinHead([first] + rest);
    if n == 0 {
      assert first == ls[0][c..] && (|ls| > 1 ==> rest == ls[1..]);
      assert |ls| > 1 ==> JoinLines(ls)[c..] == ls[0][c..] + "\n" + JoinLines(ls[1..]);
    } else {
      RestOfLines(ls[1..], n - 1, c);
      assert ls[1..][n..] == rest;
      var k := Start(ls[1..], n - 1) + c;
      assert JoinLines(ls)[|ls[0]| + 1 + k..] == JoinLines(ls[1..])[k..];
    }
  }

  // ---------- positions and offsets ----------

  function Min(a: int, b: int): int {
    if a < b then a else b
  }

  // A generated position in the code: its line exists, a column past the end of it counts as the end.
  predicate InCode(ls: seq<string>, line: int, column: int) {
    1 <= line <= |ls| && 0 <= column
  }

  function OffsetAt(ls: seq<string>, line: int, column: int): nat
    requires InCode(ls, line, column)
  {
    Start(ls, line - 1) + Min(column, |ls[line - 1]|)
  }

  function Remaining(ls: seq<string>, line: int, column: int): (r: seq<string>)
    requires InCode(ls, line, column)
    ensures r != []
  {
    [ls[line - 1][Min(column, |ls[line - 1]|)..]] + ls[line..]
  }

  lemma RemainingIsRest(ls: seq<string>, line: int, column: int)
    requires InCode(ls, line, column)
    ensures OffsetAt(ls, line, column) <= |JoinLines(ls)|
    ensures JoinLines(Remaining(ls, line, column)) == JoinLines(ls)[OffsetAt(ls, line, column)..]
  {
    RestOfLines(ls, line - 1, Min(column, |ls[line - 1]|));
  }

  // Taking a line moves to the start of the next one.
  lemma TakeLine(ls: seq<string>, line: int, column: int)
    requires InCode(ls, line, column) && line < |ls|
    ensures OffsetAt(ls, line, column) <= OffsetAt(ls, line + 1, 0) <= |JoinLines(ls)|
    ensures JoinLines(ls)[OffsetAt(ls, line, column)..OffsetAt(ls, line + 1, 0)]
            == Remaining(ls, line, column)[0] + "\n"
    ensures Remaining(ls, line, column)[1..] == Remaining(ls, line + 1, 0)
  {
    RemainingIsRest(ls, line, column);
    RemainingIsRest(ls, line + 1, 0);
    RestOfLines(ls, line - 1, 0);
    var r, r' := Remaining(ls, line, column), Remaining(ls, line + 1, 0);
    assert r[1..] == r';
    var text := r[0] + "\n";
    assert JoinLines(r) == text + JoinLines(r');
    SplitRest(JoinLines(ls), OffsetAt(ls, line, column), OffsetAt(ls, line + 1, 0), text);
  }

  lemma SplitRest(code: string, a: nat, b: nat, text: string)
    requires a <= |code| && b <= |code| && code[a..] == text + code[b..]
    ensures a <= b && code[a..b] == text
  {
    assert |code[a..]| == |text| + |code[b..]|;
    assert code[a..b] == code[a..][..b - a];
  }

  // Taking part of a line moves to a later column.
  lemma TakeColumns(ls: seq<string>, line: int, column: int, column': int)
    requires InCode(ls, line, column) && column <= column'
    ensures OffsetAt(ls, line, column) <= OffsetAt(ls, line, column') <= |JoinLines(ls)|
    ensures var first := Remaining(ls, line, column)[0];
            var n := Min(column' - column, |first|);
            && JoinLines(ls)[OffsetAt(ls, line, column)..OffsetAt(ls, line, column')] == first[..n]
            && Remaining(ls, line, column)[0 := first[n..]] == Remaining(ls, line, column')
  {
    RemainingIsRest(ls, line, column);
    RemainingIsRest(ls, line, column');
    var r, r' := Remaining(ls, line, column), Remaining(ls, line, column');
    var n := Min(column' - column, |r[0]|);
    assert r[0] == r[0][..n] + r[0][n..];
    assert r'[0] == r[0][n..] && r'[1..] == r[1..] == ls[line..];
    JoinFirst(r[0][..n], r'[0], ls[line..]);
    assert r == [r[0]] + ls[line..] && r' == [r'[0]] + ls[line..];
    SplitRest(JoinLines(ls), OffsetAt(ls, line, column), OffsetAt(ls, line, column'), r[0][..n]);
  }

  lemma JoinFirst(a: string, b: string, rest: seq<string>)
    ensures JoinLines([a + b] + rest) == a + JoinLines([b] + rest)
  {
    assert ([a + b] + rest)[1..] == rest == ([b] + rest)[1..];
    if rest != [] {
      assert a + b + "\n" + JoinLines(rest) == a + (b + "\n" + JoinLines(rest));
    }
  }

  // ---------- splitting code by its mappings ----------

  predicate NotAfter(line: int, column: int, line': int, column': int) {
    line < line' || (line == line' && column <= column')
  }

  // Every mapping points into the code, and they come in the order of their positions.
  ghost predicate InOrder(ls: seq<string>, ms: seq<Mapping>) {
    && (forall i :: 0 <= i < |ms| ==> InCode(ls, ms[i].line, ms[i].column))
    && (forall i, j :: 0 <= i < j < |ms| ==> NotAfter(ms[i].line, ms[i].column, ms[j].line, ms[j].column))
  }

  function At(ls: seq<string>, m: Mapping): nat
    requires InCode(ls, m.line, m.column)
  {
    OffsetAt(ls, m.line, m.column)
  }

  // add() drops the empty string.
  function Texts(text: string): seq<Chunk> {
    if text == "" then [] else [Text(text)]
  }

  // The code of one mapping: plain text without an original position, else a node of its own.
  function Piece(m: Mapping, text: string): seq<Chunk> {
    if m.original.None? then Texts(text) else [Node(m.original, Texts(text))]
  }

  // Each whole line before the first mapping is a text of its own.
  function LineTexts(ls: seq<string>, n: nat): seq<Chunk>
    requires n <= |ls|
  {
    if n == 0 then [] else LineTexts(ls, n - 1) + [Text(ls[n - 1] + "\n")]
  }

  function Leading(ls: seq<string>, m: Mapping): seq<Chunk>
    requires InCode(ls, m.line, m.column)
  {
    LineTexts(ls, m.line - 1) + Texts(ls[m.line - 1][..Min(m.column, |ls[m.line - 1]|)])
  }

  // A mapping covers the code from its own position to that of the next one; the last covers the rest.
  function Covered(ls: seq<string>, ms: seq<Mapping>, i: nat): string
    requires InOrder(ls, ms) && i < |ms|
  {
    Bounded(ls, ms, i);
    JoinLines(ls)[At(ls, ms[i])..if i + 1 < |ms| then At(ls, ms[i + 1]) else |JoinLines(ls)|]
  }

  function Pieces(ls: seq<string>, ms: seq<Mapping>, i: nat): seq<Chunk>
    requires InOrder(ls, ms) && i <= |ms|
    decreases |ms| - i
  {
    if i == |ms| then [] else Piece(ms[i], Covered(ls, ms, i)) + Pieces(ls, ms, i + 1)
  }

  lemma OffsetsInOrder(ls: seq<string>, a: Mapping, b: Mapping)
    requires InCode(ls, a.line, a.column) && InCode(ls, b.line, b.column)
    requires NotAfter(a.line, a.column, b.line, b.column)
    ensures At(ls, a) <= At(ls, b) <= |JoinLines(ls)|
    decreases b.line - a.line
  {
    if a.line == b.line {
      TakeColumns(ls, a.line, a.column, b.column);
    } else {
      TakeLine(ls, a.line, a.column);
      OffsetsInOrder(ls, Mapping(a.line + 1, 0, None), b);
    }
  }

  lemma Bounded(ls: seq<string>, ms: seq<Mapping>, i: nat)
    requires InOrder(ls, ms) && i < |ms|
    ensures At(ls, ms[i]) <= |JoinLines(ls)|
    ensures i + 1 < |ms| ==> At(ls, ms[i]) <= At(ls, ms[i + 1]) <= |JoinLines(ls)|
  {
    OffsetsInOrder(ls, ms[i], ms[i]);
    if i + 1 < |ms| {
      OffsetsInOrder(ls, ms[i], ms[i + 1]);
    }
  }

  // The children up to the first mapping, and the lines that are left.
  method SplitLeading(ls: seq<string>, m: Mapping) returns (children: seq<Chunk>, remaining: seq<string>)
    requires InCode(ls, m.line, m.column)
    ensures children == Leading(ls, m)
    ensures remaining == Remaining(ls, m.line, m.column)
  {
    children, remaining := [], ls;
    var line := 1;
    assert Remaining(ls, 1, 0) == ls;
    while line < m.line
      invariant 1 <= line <= m.line
      invariant children == LineTexts(ls, line - 1)
      invariant remaining == Remaining(ls, line, 0)
    {
      TakeLine(ls, line, 0);
      children := children + Texts(remaining[0] + "\n");
      remaining := remaining[1..];
      line := line + 1;
    }
    if 0 < m.column {
      TakeColumns(ls, line, 0, m.column);
      var next := remaining[0];
      var n := Min(m.column, |next|);
      children := children + Texts(next[..n]);
      remaining := remaining[0 := next[n..]];
    }
  }

  // The code from the last position to the next mapping, and the lines that are left.
  method SplitCode(ls: seq<string>, line: int, column: int, remaining: seq<string>, m: Mapping)
    returns (code: string, rest: seq<string>)
    requires InCode(ls, line, column) && InCode(ls, m.line, m.column) && NotAfter(line, column, m.line, m.column)
    requires remaining == Remaining(ls, line, column)
    ensures OffsetAt(ls, line, column) <= At(ls, m) <= |JoinLines(ls)|
    ensures code == JoinLines(ls)[OffsetAt(ls, line, column)..At(ls, m)]
    ensures rest == Remaining(ls, m.line, m.column)
  {
    hide OffsetAt, Remaining;
    ghost var start := OffsetAt(ls, line, column);
    RemainingIsRest(ls, line, column);
    var l, c := line, column;
    code, rest := "", remaining;
    while l < m.line
      invariant line <= l <= m.line && (l == line ==> c == column) && (l > line ==> c == 0)
      invariant start <= OffsetAt(ls, l, c) <= |JoinLines(ls)|
      invariant code == JoinLines(ls)[start..OffsetAt(ls, l, c)]
      invariant rest == Remaining(ls, l, c)
    {
      TakeLine(ls, l, c);
      Cut(JoinLines(ls), start, OffsetAt(ls, l, c), OffsetAt(ls, l + 1, 0));
      code := code + (rest[0] + "\n");
      rest := rest[1..];
      l, c := l + 1, 0;
    }
    if c < m.column {
      TakeColumns(ls, l, c, m.column);
      Cut(JoinLines(ls), start, OffsetAt(ls, l, c), OffsetAt(ls, l, m.column));
      var next := rest[0];
      var n := Min(m.column - c, |next|);
      code := code + next[..n];
      rest := rest[0 := next[n..]];
    }
  }

  lemma NextPiece(ls: seq<string>, ms: seq<Mapping>, i: nat)
    requires InOrder(ls, ms) && i + 1 < |ms|
    ensures At(ls, ms[i]) <= At(ls, ms[i + 1]) <= |JoinLines(ls)|
    ensures Pieces(ls, ms, i) == Piece(ms[i], JoinLines(ls)[At(ls, ms[i])..At(ls, ms[i + 1])]) + Pieces(ls, ms, i + 1)
  {
    hide Piece, OffsetAt, JoinLines;
    Bounded(ls, ms, i);
  }

  lemma LastPiece(ls: seq<string>, ms: seq<Mapping>)
    requires InOrder(ls, ms) && ms != []
    ensures At(ls, ms[|ms| - 1]) <= |JoinLines(ls)|
    ensures Pieces(ls, ms, |ms| - 1) == Piece(ms[|ms| - 1], JoinLines(ls)[At(ls, ms[|ms| - 1])..])
  {
    hide Piece, OffsetAt, JoinLines;
    Bounded(ls, ms, |ms| - 1);
    var code, at := JoinLines(ls), At(ls, ms[|ms| - 1]);
    assert Covered(ls, ms, |ms| - 1) == code[at..] by {
      assert code[at..|code|] == code[at..];
    }
    assert Pieces(ls, ms, |ms|) == [];
  }

  method FromStringWithSourceMap(code: string, ms: seq<Mapping>) returns (children: seq<Chunk>)
    requires InOrder(Lines(code), ms)
    ensures children == if ms == [] then Texts(code) else Leading(Lines(code), ms[0]) + Pieces(Lines(code), ms, 0)
    ensures ToString(children) == code
  {
    hide Leading, Remaining, Walk, Lines, JoinLines, OffsetAt, Piece, Pieces, Covered;
    var ls := Lines(code);
    JoinOfLines(code);
    var remaining := ls;
    children := [];
    var i := 0;
    ghost var whole := if ms == [] then Texts(code) else Leading(ls, ms[0]) + Pieces(ls, ms, 0);
    while i < |ms|
      invariant i <= |ms|
      invariant i == 0 ==> children == [] && remaining == ls
      invariant i > 0 ==> remaining == Remaining(ls, ms[i - 1].line, ms[i - 1].column)
      invariant i > 0 ==> children + Pieces(ls, ms, i - 1) == whole
    {
      if i == 0 {
        children, remaining := SplitLeading(ls, ms[0]);
      } else {
        var text;
        text, remaining := SplitCode(ls, ms[i - 1].line, ms[i - 1].column, remaining, ms[i]);
        NextPiece(ls, ms, i - 1);
        children := children + Piece(ms[i - 1], text);
      }
      i := i + 1;
    }
    if i > 0 {
      RemainingIsRest(ls, ms[i - 1].line, ms[i - 1].column);
      children := children + Piece(ms[i - 1], JoinLines(remaining));
      LastPiece(ls, ms);
    } else {
      children := Texts(JoinLines(remaining));
    }
    SplitKeepsCode(code, ms);
  }

  // ---------- the text is kept ----------

  lemma WalkTexts(text: string, o: Option<Original>)
    ensures CodeOf(Walk(Texts(text), o)) == text
  {
    if text != "" {
      WalkText(text, o);
    }
  }

  lemma ToStringConcat(a: seq<Chunk>, b: seq<Chunk>)
    ensures ToString(a + b) == ToString(a) + ToString(b)
  {
    WalkConcat(a, b, None);
    CodeOfConcat(Walk(a, None), Walk(b, None));
  }

  lemma ToStringPiece(m: Mapping, text: string)
    ensures ToString(Piece(m, text)) == text
  {
    WalkTexts(text, None);
    WalkTexts(text, m.original);
    if m.original.Some? {
      assert Walk(Piece(m, text), None) == Walk(Texts(text), m.original) + [];
    }
  }

  lemma {:induction false} ToStringLines(ls: seq<string>, n: nat)
    requires n < |ls|
    ensures Start(ls, n) <= |JoinLines(ls)|
    ensures ToString(LineTexts(ls, n)) == JoinLines(ls)[..Start(ls, n)]
  {
    hide Walk, JoinLines;
    RestOfLines(ls, n, 0);
    if n == 0 {
      NoText();
    } else {
      ToStringLines(ls, n - 1);
      TakeLine(ls, n, 0);
      var line := ls[n - 1] + "\n";
      ToStringConcat(LineTexts(ls, n - 1), [Text(line)]);
      WalkTexts(line, None);
      Cut(JoinLines(ls), 0, Start(ls, n - 1), Start(ls, n));
    }
  }

  lemma ToStringLeading(ls: seq<string>, m: Mapping)
    requires InCode(ls, m.line, m.column)
    ensures At(ls, m) <= |JoinLines(ls)|
    ensures ToString(Leading(ls, m)) == JoinLines(ls)[..At(ls, m)]
  {
    hide Walk;
    var part := ls[m.line - 1][..Min(m.column, |ls[m.line - 1]|)];
    ToStringLines(ls, m.line - 1);
    TakeColumns(ls, m.line, 0, m.column);
    ToStringConcat(LineTexts(ls, m.line - 1), Texts(part));
    WalkTexts(part, None);
    Cut(JoinLines(ls), 0, Start(ls, m.line - 1), At(ls, m));
  }

  lemma {:induction false} ToStringPieces(ls: seq<string>, ms: seq<Mapping>, i: nat)
    requires InOrder(ls, ms) && i < |ms|
    ensures At(ls, ms[i]) <= |JoinLines(ls)|
    ensures ToString(Pieces(ls, ms, i)) == JoinLines(ls)[At(ls, ms[i])..]
    decreases |ms| - i
  {
    hide Walk, Piece, OffsetAt, JoinLines;
    Bounded(ls, ms, i);
    var text := Covered(ls, ms, i);
    ToStringPiece(ms[i], text);
    ToStringConcat(Piece(ms[i], text), Pieces(ls, ms, i + 1));
    if i + 1 < |ms| {
      ToStringPieces(ls, ms, i + 1);
      CutTail(JoinLines(ls), At(ls, ms[i]), At(ls, ms[i + 1]));
    } else {
      NoText();
    }
  }

  lemma NoText()
    ensures ToString([]) == ""
  {
  }

  lemma SplitKeepsCode(code: string, ms: seq<Mapping>)
    requires InOrder(Lines(code), ms)
    ensures ToString(if ms == [] then Texts(code) else Leading(Lines(code), ms[0]) + Pieces(Lines(code), ms, 0)) == code
  {
    hide Walk, Leading, Pieces, Lines, OffsetAt, JoinLines;
    var ls := Lines(code);
    JoinOfLines(code);
    if ms == [] {
      WalkTexts(code, None);
    } else {
      ToStringLeading(ls, ms[0]);
      ToStringPieces(ls, ms, 0);
      ToStringConcat(Leading(ls, ms[0]), Pieces(ls, ms, 0));
      CutTail(code, 0, At(ls, ms[0]));
    }
  }

  // ---------- the original positions are those of the mappings ----------

  // The original position of the snippet that holds the k-th character.
  function OriginalAt(snippets: seq<Snippet>, k: nat): Option<Original>
    requires k < |CodeOf(snippets)|
  {
    if k < |snippets[0].0| then snippets[0].1 else OriginalAt(snippets[1..], k - |snippets[0].0|)
  }

  lemma {:induction false} OriginalAtConcat(a: seq<Snippet>, b: seq<Snippet>, k: nat)
    requires k < |CodeOf(a + b)|
    ensures |CodeOf(a + b)| == |CodeOf(a)| + |CodeOf(b)|
    ensures OriginalAt(a + b, k)
         == if k < |CodeOf(a)| then OriginalAt(a, k) else OriginalAt(b, k - |CodeOf(a)|)
  {
    CodeOfConcat(a, b);
    if a == [] {
      assert a + b == b;
    } else {
      assert (a + b)[0] == a[0] && (a + b)[1..] == a[1..] + b;
      if k >= |a[0].0| {
        OriginalAtConcat(a[1..], b, k - |a[0].0|);
      }
    }
  }

  lemma WalkText(text: string, o: Option<Original>)
    requires text != ""
    ensures Walk(Texts(text), o) == [(text, o)]
    ensures CodeOf([(text, o)]) == text
  {
    assert WalkOne(Text(text), o) + Walk([], o) == [(text, o)];
    assert [(text, o)][1..] == [];
  }

  lemma FirstOriginal(snippets: seq<Snippet>, k: nat)
    requires |snippets| == 1 && k < |CodeOf(snippets)|
    ensures OriginalAt(snippets, k) == snippets[0].1
  {
  }

  lemma PieceOriginal(m: Mapping, text: string, k: nat)
    requires k < |text|
    ensures CodeOf(Walk(Piece(m, text), None)) == text
    ensures OriginalAt(Walk(Piece(m, text), None), k) == m.original
  {
    WalkText(text, m.original);
    FirstOriginal([(text, m.original)], k);
    if m.original.Some? {
      assert Walk(Piece(m, text), None) == Walk(Texts(text), m.original) + [];
    }
  }

  lemma {:induction false} PiecesOriginal(ls: seq<string>, ms: seq<Mapping>, i: nat, j: nat, k: nat)
    requires InOrder(ls, ms) && i <= j < |ms|
    requires At(ls, ms[i]) <= At(ls, ms[j]) <= k < At(ls, ms[j]) + |Covered(ls, ms, j)|
    ensures k < |JoinLines(ls)|
    ensures |ToString(Pieces(ls, ms, i))| == |JoinLines(ls)| - At(ls, ms[i])
    ensures OriginalAt(Walk(Pieces(ls, ms, i), None), k - At(ls, ms[i])) == ms[j].original
    decreases j - i
  {
    hide Walk, Piece, OffsetAt, JoinLines, CodeOf, OriginalAt;
    Bounded(ls, ms, i);
    Bounded(ls, ms, j);
    ToStringPieces(ls, ms, i);
    var text, rest := Covered(ls, ms, i), Pieces(ls, ms, i + 1);
    ToStringPiece(ms[i], text);
    WalkConcat(Piece(ms[i], text), rest, None);
    OriginalAtConcat(Walk(Piece(ms[i], text), None), Walk(rest, None), k - At(ls, ms[i]));
    if i == j {
      PieceOriginal(ms[i], text, k - At(ls, ms[i]));
    } else {
      OffsetsInOrder(ls, ms[i + 1], ms[j]);
      PiecesOriginal(ls, ms, i + 1, j, k);
    }
  }

  lemma {:induction false} LeadingOriginal(children: seq<Chunk>, k: nat)
    requires forall i :: 0 <= i < |children| ==> children[i].Text?
    requires k < |ToString(children)|
    ensures OriginalAt(Walk(children, None), k) == None
  {
    hide OriginalAt;
    var first, rest := WalkOne(children[0], None), Walk(children[1..], None);
    OriginalAtConcat(first, rest, k);
    if k < |CodeOf(first)| {
      assert first == [(children[0].text, None)];
      FirstOriginal(first, k);
    } else {
      LeadingOriginal(children[1..], k - |CodeOf(first)|);
    }
  }

  lemma {:induction false} LineTextsAreTexts(ls: seq<string>, n: nat)
    requires n <= |ls|
    ensures forall i :: 0 <= i < |LineTexts(ls, n)| ==> LineTexts(ls, n)[i].Text?
  {
    if n > 0 {
      LineTextsAreTexts(ls, n - 1);
    }
  }

  // Code before the first mapping has no original position; from there on every character has that
  // of the mapping that covers it.
  lemma SplitGivesOriginals(code: string, ms: seq<Mapping>, j: nat, k: nat)
    requires InOrder(Lines(code), ms) && j < |ms| && k < |code|
    ensures var children := Leading(Lines(code), ms[0]) + Pieces(Lines(code), ms, 0);
            && ToString(children) == code
            && (k < At(Lines(code), ms[0]) ==> OriginalAt(Walk(children, None), k) == None)
            && (At(Lines(code), ms[j]) <= k < At(Lines(code), ms[j]) + |Covered(Lines(code), ms, j)|
                ==> OriginalAt(Walk(children, None), k) == ms[j].original)
  {
    hide Walk, Pieces, Lines, OffsetAt, JoinLines, CodeOf, OriginalAt, Covered, LineTexts;
    var ls := Lines(code);
    var leading, pieces := Leading(ls, ms[0]), Pieces(ls, ms, 0);
    JoinOfLines(code);
    SplitKeepsCode(code, ms);
    ToStringLeading(ls, ms[0]);
    WalkConcat(leading, pieces, None);
    OriginalAtConcat(Walk(leading, None), Walk(pieces, None), k);
    OffsetsInOrder(ls, ms[0], ms[j]);
    if k < At(ls, ms[0]) {
      LineTextsAreTexts(ls, ms[0].line - 1);
      LeadingOriginal(leading, k);
    }
    if At(ls, ms[j]) <= k < At(ls, ms[j]) + |Covered(ls, ms, j)| {
      PiecesOriginal(ls, ms, 0, j, k);
    }
  }
}
