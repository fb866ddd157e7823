// Printing a source node together with its source map, and looking original positions up in it.
module NodeMaps {
  import opened Wrappers
  import opened Sequences
  import opened Mappings
  import opened ArraySets
  import opened SourceMap
  import opened SourceNodes

  // ---------- positions ----------

  datatype Position = Position(line: int, column: int)

  const TOP := Position(1, 0)

  predicate Less(p: Position, q: Position) {
    p.line < q.line || (p.line == q.line && p.column < q.column)
  }

  function Place(m: Mapping): Position { Position(m.line, m.column) }

  function Step(p: Position, c: char): Position {
    if c == '\n' then Position(p.line + 1, 0) else Position(p.line, p.column + 1)
  }

  // Where a text that starts at p ends.
  function Moved(p: Position, text: string): Position
    decreases |text|
  {
    if text == "" then p else Moved(Step(p, text[0]), text[1..])
  }

  function PositionOf(code: string, k: nat): Position
    requires k <= |code|
  {
    Moved(TOP, code[..k])
  }

  lemma {:induction false} MovedOn(p: Position, a: string, b: string)
    ensures Moved(p, a + b) == Moved(Moved(p, a), b)
    decreases |a|
  {
    if a == "" {
      assert a + b == b;
    } else {
      MovedOn(Step(p, a[0]), a[1..], b);
      assert (a + b)[1..] == a[1..] + b;
    }
  }

  lemma {:induction false} MovedForward(p: Position, text: string)
    ensures text != "" ==> Less(p, Moved(p, text))
    ensures p.line <= Moved(p, text).line
    ensures p.column >= 0 ==> 0 <= Moved(p, text).column <= p.column + |text|
    decreases |text|
  {
    if text != "" {
      MovedForward(Step(p, text[0]), text[1..]);
    }
  }

  // ---------- the mappings of a walk ----------

  // One mapping wherever the original position changes.
  function Emitted(snippets: seq<Snippet>, p: Position, last: Option<Original>): seq<Mapping> {
    if snippets == [] then []
    else
      var original := snippets[0].1;
      (if original == last then [] else [Mapping(p.line, p.column, original)])
      + Emitted(snippets[1..], Moved(p, snippets[0].0), original)
  }

  // The original position of the last mapping at or before p.
  function InForce(ms: seq<Mapping>, p: Position, last: Option<Original>): Option<Original> {
    if ms == [] || Less(p, Place(ms[0])) then last else InForce(ms[1..], p, ms[0].original)
  }

  ghost predicate NoEmptyTexts(snippets: seq<Snippet>) {
    forall i :: 0 <= i < |snippets| ==> snippets[i].0 != ""
  }

  ghost predicate Increasing(ms: seq<Mapping>) {
    forall i, j :: 0 <= i < j < |ms| ==> Less(Place(ms[i]), Place(ms[j]))
  }

  ghost predicate NoneBefore(ms: seq<Mapping>, p: Position) {
    forall i :: 0 <= i < |ms| ==> !Less(Place(ms[i]), p)
  }

  lemma {:induction false} WalkHasNoEmptyTexts(children: seq<Chunk>, o: Option<Original>)
    ensures NoEmptyTexts(Walk(children, o))
    decreases children
  {
    if children != [] {
      WalkHasNoEmptyTexts(children[1..], o);
      match children[0]
      case Text(text) =>
      case Node(o', inner) => WalkHasNoEmptyTexts(inner, o');
    }
  }

  // Each mapping points at the start of a snippet, and their positions increase.
  lemma {:induction false} EmittedIncreases(snippets: seq<Snippet>, p: Position, last: Option<Original>)
    requires NoEmptyTexts(snippets)
    ensures NoneBefore(Emitted(snippets, p, last), p)
    ensures Increasing(Emitted(snippets, p, last))
  {
    hide Moved;
    if snippets != [] {
      var q := Moved(p, snippets[0].0);
      MovedForward(p, snippets[0].0);
      EmittedIncreases(snippets[1..], q, snippets[0].1);
    }
  }

  // At every character, the last mapping at or before it has the original position of its snippet.
  lemma {:induction false} EmittedInForce(snippets: seq<Snippet>, p: Position, last: Option<Original>, k: nat)
    requires NoEmptyTexts(snippets) && k < |CodeOf(snippets)|
    ensures InForce(Emitted(snippets, p, last), Moved(p, CodeOf(snippets)[..k]), last) == OriginalAt(snippets, k)
  {
    hide Moved;
    var text, original, rest := snippets[0].0, snippets[0].1, snippets[1..];
    var code, q := CodeOf(snippets), Moved(p, text);
    var ms := Emitted(rest, q, original);
    var at := Moved(p, code[..k]);
    assert !Less(at, p) by { AtOrAfter(p, code[..k]); }
    FirstInForce(if original == last then [] else [Mapping(p.line, p.column, original)], ms, at, last);
    if k < |text| {
      assert code[..k] == text[..k] && text == text[..k] + text[k..];
      MovedOn(p, text[..k], text[k..]);
      MovedForward(at, text[k..]);
      EmittedIncreases(rest, q, original);
    } else {
      assert code[..k] == text + CodeOf(rest)[..k - |text|];
      MovedOn(p, text, CodeOf(rest)[..k - |text|]);
      EmittedInForce(rest, q, original, k - |text|);
    }
  }

  lemma AtOrAfter(p: Position, text: string)
    ensures !Less(Moved(p, text), p)
  {
    MovedForward(p, text);
  }

  lemma FirstInForce(first: seq<Mapping>, ms: seq<Mapping>, p: Position, last: Option<Original>)
    requires |first| <= 1 && (first != [] ==> !Less(p, Place(first[0])))
    ensures InForce(first + ms, p, last) == InForce(ms, p, if first == [] then last else first[0].original)
  {
    if first == [] {
      assert first + ms == ms;
    } else {
      assert (first + ms)[1..] == ms;
    }
  }

  // ---------- printing with a map ----------

  ghost predicate OriginalsValid(snippets: seq<Snippet>) {
    forall i :: 0 <= i < |snippets| ==> Acceptable(snippets[i].1)
  }

  predicate Acceptable(o: Option<Original>) {
    o.Some? ==> o.value.line > 0 && o.value.column >= 0 && o.value.source != ""
  }

  // Adds a mapping where the original position changes; active says that one is in force.
  method MapSnippet(g: SourceMapGenerator, original: Option<Original>, line: int, column: int,
                    active: bool, last: Option<Original>)
    returns (ok: bool, active': bool, last': Option<Original>)
    requires g.Valid() && line > 0 && column >= 0 && (active <==> last.Some?)
    modifies g`mappings, g.sources, g.names
    ensures g.Valid() && (ok <==> original == last || Acceptable(original))
    ensures ok ==> last' == original && (active' <==> last'.Some?)
    ensures ok ==> g.mappings == old(g.mappings) + if original == last then [] else [Mapping(line, column, original)]
    ensures ok ==> |g.sources.items| <= old(|g.sources.items|) + 1 && |g.names.items| <= old(|g.names.items|) + 1
  {
    hide NoDuplicates, AllValid, AllKnown, ValidMapping;
    ok, active', last' := true, active, last;
    if original.Some? {
      if last != original {
        var o := original.value;
        ok := g.AddMapping(line, column, Some((o.line, o.column)), o.source, o.name);
      }
      active', last' := true, original;
    } else if active {
      ok := g.AddMapping(line, column, None, "", "");
      active', last' := false, None;
    }
  }

  // Fails when a mapping is refused, which happens exactly when some original position is invalid.
  method ToStringWithSourceMap(children: seq<Chunk>) returns (ok: bool, code: string, g: SourceMapGenerator)
    ensures fresh(g) && fresh(g.sources) && fresh(g.names) && g.Valid()
    ensures ok <==> OriginalsValid(Walk(children, None))
    ensures ok ==> code == ToString(children) && g.mappings == Emitted(Walk(children, None), TOP, None)
    ensures ok ==> |g.sources.items| <= |code| && |g.names.items| <= |code|
  {
    hide Moved, Walk, NoDuplicates, AllValid, AllKnown, Emitted, CodeOf;
    g := new SourceMapGenerator();
    var line, column, active, last := 1, 0, false, None;
    var snippets := Walk(children, None);
    WalkHasNoEmptyTexts(children, None);
    ok, code := true, "";
    var i := 0;
    assert snippets[0..] == snippets;
    while i < |snippets|
      invariant i <= |snippets| && ok
      invariant fresh(g) && fresh(g.sources) && fresh(g.names) && g.Valid()
      invariant line > 0 && column >= 0 && (active <==> last.Some?)
      invariant Acceptable(last) && forall j :: 0 <= j < i ==> Acceptable(snippets[j].1)
      invariant |g.sources.items| <= i <= |code| && |g.names.items| <= i
      invariant code + CodeOf(snippets[i..]) == CodeOf(snippets)
      invariant g.mappings + Emitted(snippets[i..], Position(line, column), last) == Emitted(snippets, TOP, None)
    {
      NextSnippet(snippets, i, code, g.mappings, Position(line, column), last);
      code := code + snippets[i].0;
      ok, active, last := MapSnippet(g, snippets[i].1, line, column, active, last);
      if !ok {
        return;
      }
      MovedForward(Position(line, column), snippets[i].0);
      line, column := Count(snippets[i].0, line, column);
      i := i + 1;
    }
    NoMoreSnippets(snippets, Position(line, column), last);
  }

  lemma NoMoreSnippets(snippets: seq<Snippet>, p: Position, last: Option<Original>)
    ensures CodeOf(snippets[|snippets|..]) == "" && Emitted(snippets[|snippets|..], p, last) == []
  {
  }

  lemma NextSnippet(snippets: seq<Snippet>, i: nat, code: string, ms: seq<Mapping>, p: Position, last: Option<Original>)
    requires i < |snippets|
    ensures code + CodeOf(snippets[i..]) == code + snippets[i].0 + CodeOf(snippets[i + 1..])
    ensures ms + Emitted(snippets[i..], p, last)
         == ms + (if snippets[i].1 == last then [] else [Mapping(p.line, p.column, snippets[i].1)])
            + Emitted(snippets[i + 1..], Moved(p, snippets[i].0), snippets[i].1)
  {
    hide Moved;
    assert snippets[i..][1..] == snippets[i + 1..];
  }

  // The line and column counters, character by character.
  method Count(text: string, line: int, column: int) returns (line': int, column': int)
    ensures Position(line', column') == Moved(Position(line, column), text)
  {
    line', column' := line, column;
    var i := 0;
    assert text[0..] == text;
    while i < |text|
      invariant i <= |text|
      invariant Moved(Position(line', column'), text[i..]) == Moved(Position(line, column), text)
    {
      assert text[i..][1..] == text[i + 1..];
      if text[i] == '\n' {
        line', column' := line' + 1, 0;
      } else {
        column' := column' + 1;
      }
      i := i + 1;
    }
  }

  // ---------- looking up ----------

  // Entries at low and below come before the needle, entries at high and above after it.
  function RecursiveSearch(low: int, high: int, needle: Position, haystack: seq<Mapping>): Option<Mapping>
    requires -1 <= low && low + 2 <= high <= |haystack|
    decreases high - low
  {
    var mid := (high - low) / 2 + low;
    var found := Place(haystack[mid]);
    if found == needle then Some(haystack[mid])
    else if Less(found, needle) then
      if high - mid > 1 then RecursiveSearch(mid, high, needle, haystack) else Some(haystack[mid])
    else if mid - low > 1 then RecursiveSearch(low, mid, needle, haystack)
    else if low < 0 then None else Some(haystack[low])
  }

  function Search(needle: Position, haystack: seq<Mapping>): Option<Mapping> {
    if haystack == [] then None else RecursiveSearch(-1, |haystack|, needle, haystack)
  }

  ghost predicate Ordered(ms: seq<Mapping>) {
    forall i, j :: 0 <= i < j < |ms| ==> !Less(Place(ms[j]), Place(ms[i]))
  }

  // The closest entry at or before the needle: nothing lies between the two.
  ghost predicate IsClosest(r: Option<Mapping>, needle: Position, ms: seq<Mapping>) {
    match r
    case None => forall i :: 0 <= i < |ms| ==> Less(needle, Place(ms[i]))
    case Some(m) =>
      && m in ms && !Less(needle, Place(m))
      && forall i :: 0 <= i < |ms| ==> Less(needle, Place(ms[i])) || !Less(Place(m), Place(ms[i]))
  }

  lemma {:induction false} RecursiveSearchFindsClosest(low: int, high: int, needle: Position, ms: seq<Mapping>)
    requires -1 <= low && low + 2 <= high <= |ms| && Ordered(ms)
    requires low >= 0 ==> Less(Place(ms[low]), needle)
    requires high < |ms| ==> Less(needle, Place(ms[high]))
    ensures IsClosest(RecursiveSearch(low, high, needle, ms), needle, ms)
    decreases high - low
  {
    var mid := (high - low) / 2 + low;
    var found := Place(ms[mid]);
    if found == needle {
    } else if Less(found, needle) {
      if high - mid > 1 { RecursiveSearchFindsClosest(mid, high, needle, ms); }
    } else if mid - low > 1 {
      RecursiveSearchFindsClosest(low, mid, needle, ms);
    }
  }

  // The binary search returns the closest entry at or before the needle, and null if every entry is after it.
  lemma SearchFindsClosest(needle: Position, ms: seq<Mapping>)
    requires Ordered(ms)
    ensures IsClosest(Search(needle, ms), needle, ms)
  {
    if ms != [] {
      RecursiveSearchFindsClosest(-1, |ms|, needle, ms);
    }
  }

  // With strictly increasing positions there is one closest entry, the mapping in force.
  lemma {:induction false} ClosestIsInForce(r: Option<Mapping>, needle: Position, ms: seq<Mapping>,
                                            last: Option<Original>)
    requires Increasing(ms) && IsClosest(r, needle, ms)
    ensures InForce(ms, needle, last) == if r.None? then last else r.value.original
  {
    if ms != [] && !Less(needle, Place(ms[0])) {
      assert r.Some?;
      if |ms| > 1 && !Less(needle, Place(ms[1])) {
        assert ms[0] != r.value;
        ClosestIsInForce(r, needle, ms[1..], ms[0].original);
      } else {
        assert r.value == ms[0];
      }
    }
  }

  function OriginalOf(m: Option<Mapping>): Option<Original> {
    if m.None? then None else m.value.original
  }

  datatype LookupError = LineBelowOne | ColumnBelowZero

  method OriginalPositionFor(c: SourceMapConsumer, line: int, column: int)
    returns (r: Result<Option<Original>, LookupError>)
    ensures r.Failure? <==> line <= 0 || column < 0
    ensures r.Success? && Ordered(c.generatedMappings) ==>
              exists m :: IsClosest(m, Position(line, column), c.generatedMappings) && r.value == OriginalOf(m)
    ensures r.Success? && Increasing(c.generatedMappings) ==>
              r.value == InForce(c.generatedMappings, Position(line, column), None)
  {
    if line <= 0 {
      return Failure(LineBelowOne);
    }
    if column < 0 {
      return Failure(ColumnBelowZero);
    }
    var needle := Position(line, column);
    var m := Search(needle, c.generatedMappings);
    if Ordered(c.generatedMappings) {
      SearchFindsClosest(needle, c.generatedMappings);
    }
    if Increasing(c.generatedMappings) {
      ClosestIsInForce(m, needle, c.generatedMappings, None);
    }
    return Success(OriginalOf(m));
  }

  // ---------- the whole way ----------

  lemma {:induction false} EmittedBelowLimit(snippets: seq<Snippet>, p: Position, last: Option<Original>, m: Mapping)
    requires p.column >= 0 && m in Emitted(snippets, p, last)
    ensures m.column <= p.column + |CodeOf(snippets)|
    ensures m.original.Some? ==> exists i :: 0 <= i < |snippets| && snippets[i].1 == m.original
  {
    hide Moved;
    var rest, q := snippets[1..], Moved(p, snippets[0].0);
    if m !in Emitted(rest, q, snippets[0].1) {
      assert snippets[0].1 == m.original;
    } else {
      MovedForward(p, snippets[0].0);
      EmittedBelowLimit(rest, q, snippets[0].1, m);
      if m.original.Some? {
        var i :| 0 <= i < |rest| && rest[i].1 == m.original;
        assert snippets[i + 1].1 == m.original;
      }
    }
  }

  ghost predicate OriginalsBelowLimit(snippets: seq<Snippet>) {
    forall i :: 0 <= i < |snippets| && snippets[i].1.Some? ==>
                  snippets[i].1.value.line <= LIMIT && snippets[i].1.value.column < LIMIT
  }

  // Increasing positions are in the comparator's strict order.
  lemma IncreasingIsStrict(ms: seq<Mapping>)
    requires Increasing(ms)
    ensures StrictlySorted(ms)
  {
  }

  lemma ValidMembers(a: seq<Mapping>, b: seq<Mapping>)
    requires AllValid(b) && forall m :: m in a <==> m in b
    ensures AllValid(a)
  {
    forall i | 0 <= i < |a| ensures ValidMapping(a[i]) {
      assert a[i] in b;
    }
  }

  // Print a node with its map, print and parse the map: at every character of the code the position
  // looked up is that of the snippet the character came from.
  method PrintAndParse(children: seq<Chunk>) returns (ok: bool, code: string, c: SourceMapConsumer)
    requires OriginalsBelowLimit(Walk(children, None)) && |ToString(children)| < LIMIT
    ensures ok <==> OriginalsValid(Walk(children, None))
    ensures ok ==> code == ToString(children) && Increasing(c.generatedMappings)
    ensures ok ==> c.generatedMappings == Emitted(Walk(children, None), TOP, None)
    ensures ok ==> forall k :: 0 <= k < |code| ==>
                     InForce(c.generatedMappings, PositionOf(code, k), None) == OriginalAt(Walk(children, None), k)
  {
    hide CompareByGenerated, Walk, Emitted, CodeOf, Moved, InForce, OriginalAt, NoDuplicates, Known;
    var g;
    ok, code, g := ToStringWithSourceMap(children);
    ghost var snippets := Walk(children, None);
    ghost var emitted := Emitted(snippets, TOP, None);
    if ok {
      forall m | m in emitted ensures NumbersBelowLimit(m) {
        EmittedBelowLimit(snippets, TOP, None, m);
      }
      var error;
      c, error := PrintThenParse(g);
      WalkHasNoEmptyTexts(children, None);
      EmittedIncreases(snippets, TOP, None);
      IncreasingIsStrict(emitted);
      ValidMembers(c.generatedMappings, emitted);
      StrictOrderIsUnique(c.generatedMappings, emitted);
      forall k | 0 <= k < |code|
        ensures InForce(c.generatedMappings, PositionOf(code, k), None) == OriginalAt(snippets, k)
      {
        EmittedInForce(snippets, TOP, None, k);
      }
    } else {
      c := new SourceMapConsumer([], []);
    }
  }
}
