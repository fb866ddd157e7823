// The "mappings" field of a source map (Source Map Revision 3): the generator that prints it and
// the consumer that parses it back.
module SourceMap {
  import opened Wrappers
  import opened Base64Vlq
  import opened ArraySets
  import opened Mappings

  // The values both sides carry from one segment to the next: numbers are written as differences.
  datatype Running = Running(line: int, column: int, source: int, originalLine: int, originalColumn: int, name: int)

  const START := Running(1, 0, 0, 0, 0, 0)

  datatype ParseError =
    | BadVlq(error: DecodeError)
    | NoElementAt(index: int)
    | SourceWithoutPosition
    | LineWithoutColumn

  // The strings a generator has collected: an index into them stands for a string in a segment.
  datatype Tables = Tables(sources: seq<string>, names: seq<string>)

  ghost predicate Known(m: Mapping, t: Tables) {
    m.original.Some? ==>
      m.original.value.source in t.sources && (m.original.value.name != "" ==> m.original.value.name in t.names)
  }

  ghost predicate AllKnown(ms: seq<Mapping>, t: Tables) {
    forall i :: 0 <= i < |ms| ==> Known(ms[i], t)
  }

  // ---------- what the generator prints ----------

  function Index(strings: seq<string>, s: string): nat
    requires s in strings
  {
    FirstIndex(strings, s).value
  }

  function Deltas(m: Mapping, r: Running, t: Tables): seq<int>
    requires Known(m, t)
  {
    [m.column - r.column] + if m.original.None? then [] else OriginalDeltas(m.original.value, r, t)
  }

  function OriginalDeltas(o: Original, r: Running, t: Tables): seq<int>
    requires o.source in t.sources && (o.name != "" ==> o.name in t.names)
  {
    [Index(t.sources, o.source) - r.source, o.line - 1 - r.originalLine, o.column - r.originalColumn]
    + if o.name == "" then [] else [Index(t.names, o.name) - r.name]
  }

  function EncodeAll(ds: seq<int>): string {
    if ds == [] then "" else Encode(ds[0]) + EncodeAll(ds[1..])
  }

  function Advance(m: Mapping, r: Running, t: Tables): Running
    requires Known(m, t)
  {
    var r' := r.(line := m.line, column := m.column);
    if m.original.None? then r' else AdvanceOriginal(m.original.value, r', t)
  }

  function AdvanceOriginal(o: Original, r: Running, t: Tables): Running
    requires o.source in t.sources && (o.name != "" ==> o.name in t.names)
  {
    var r' := r.(source := Index(t.sources, o.source), originalLine := o.line - 1, originalColumn := o.column);
    if o.name == "" then r' else r'.(name := Index(t.names, o.name))
  }

  // All that printing needs of the order: the loop that prints the semicolons counts upwards.
  ghost predicate LinesSorted(ms: seq<Mapping>) {
    forall i, j :: 0 <= i < j < |ms| ==> ms[i].line <= ms[j].line
  }

  function Semicolons(n: nat): string {
    if n == 0 then "" else ";" + Semicolons(n - 1)
  }

  // The running values when the segment of a mapping starts: a new line restarts the columns.
  function AtLine(m: Mapping, r: Running): Running {
    if m.line != r.line then r.(line := m.line, column := 0) else r
  }

  // On the line of its predecessor, a mapping equal to it is not printed again.
  predicate Repeated(ms: seq<Mapping>, i: nat, r: Running)
    requires i < |ms|
  {
    i > 0 && ms[i].line == r.line && CompareByGenerated(ms[i], ms[i - 1]) == 0
  }

  function Separators(m: Mapping, i: nat, r: Running): string
    requires r.line <= m.line
  {
    if m.line != r.line then Semicolons(m.line - r.line) else if i > 0 then "," else ""
  }

  // The text of the mappings from the i-th on, after the running values r.
  function SerializeFrom(ms: seq<Mapping>, i: nat, r: Running, t: Tables): string
    requires i <= |ms| && AllKnown(ms, t)
    requires LinesSorted(ms) && (i < |ms| ==> r.line <= ms[i].line)
    decreases |ms| - i
  {
    if i == |ms| then ""
    else if Repeated(ms, i, r) then SerializeFrom(ms, i + 1, r, t)
    else Separators(ms[i], i, r) + EncodeAll(Deltas(ms[i], AtLine(ms[i], r), t))
         + SerializeFrom(ms, i + 1, Advance(ms[i], r, t), t)
  }

  // ---------- what the consumer parses ----------

  predicate AtSeparator(s: string) {
    s == "" || s[0] == ',' || s[0] == ';'
  }

  datatype Parsed = Parsed(mapping: Mapping, running: Running, rest: string)

  function ParseSegment(s: string, r: Running, t: Tables): (p: Result<Parsed, ParseError>)
    ensures p.Success? ==> |p.value.rest| < |s|
  {
    match Decode(s)
    case Failure(e) => Failure(BadVlq(e))
    case Success((delta, s')) =>
      var r' := r.(column := r.column + delta);
      if AtSeparator(s') then Success(Parsed(Mapping(r'.line, r'.column, None), r', s'))
      else ParseOriginal(s', r', t)
  }

  function ParseOriginal(s: string, r: Running, t: Tables): (p: Result<Parsed, ParseError>)
    ensures p.Success? ==> |p.value.rest| < |s|
  {
    match Decode(s)
    case Failure(e) => Failure(BadVlq(e))
    case Success((delta, s')) =>
      var source := AtIndex(t.sources, r.source + delta);
      if source.None? then Failure(NoElementAt(r.source + delta))
      else if AtSeparator(s') then Failure(SourceWithoutPosition)
      else ParsePosition(s', r.(source := r.source + delta), source.value, t)
  }

  function ParsePosition(s: string, r: Running, source: string, t: Tables): (p: Result<Parsed, ParseError>)
    ensures p.Success? ==> |p.value.rest| < |s|
  {
    match Decode(s)
    case Failure(e) => Failure(BadVlq(e))
    case Success((dLine, s1)) =>
      if AtSeparator(s1) then Failure(LineWithoutColumn) else
      match Decode(s1)
      case Failure(e) => Failure(BadVlq(e))
      case Success((dColumn, s2)) =>
        var r' := r.(originalLine := r.originalLine + dLine, originalColumn := r.originalColumn + dColumn);
        var o := Original(source, r'.originalLine + 1, r'.originalColumn, "");
        if AtSeparator(s2) then Success(Parsed(Mapping(r'.line, r'.column, Some(o)), r', s2))
        else ParseName(s2, r', o, t)
  }

  function ParseName(s: string, r: Running, o: Original, t: Tables): (p: Result<Parsed, ParseError>)
    ensures p.Success? ==> |p.value.rest| < |s|
  {
    match Decode(s)
    case Failure(e) => Failure(BadVlq(e))
    case Success((delta, s')) =>
      var name := AtIndex(t.names, r.name + delta);
      if name.None? then Failure(NoElementAt(r.name + delta)) else
      Success(Parsed(Mapping(r.line, r.column, Some(o.(name := name.value))), r.(name := r.name + delta), s'))
  }

  function Prepend(m: Mapping, p: Result<seq<Mapping>, ParseError>): Result<seq<Mapping>, ParseError> {
    if p.Failure? then p else Success([m] + p.value)
  }

  function ParseFrom(s: string, r: Running, t: Tables): Result<seq<Mapping>, ParseError>
    decreases |s|
  {
    if s == "" then Success([])
    else if s[0] == ';' then ParseFrom(s[1..], r.(line := r.line + 1, column := 0), t)
    else if s[0] == ',' then ParseFrom(s[1..], r, t)
    else match ParseSegment(s, r, t)
      case Failure(e) => Failure(e)
      case Success(p) => Prepend(p.mapping, ParseFrom(p.rest, p.running, t))
  }

  // ---------- one segment ----------

  ghost predicate AllFit(ds: seq<int>) {
    forall i :: 0 <= i < |ds| ==> Fits(ds[i])
  }

  lemma DecodeHead(ds: seq<int>, rest: string) returns (w: int)
    requires ds != []
    ensures !AtSeparator(EncodeAll(ds) + rest)
    ensures Decode(EncodeAll(ds) + rest) == Success((w, EncodeAll(ds[1..]) + rest))
    ensures w == ds[0] <==> Fits(ds[0])
  {
    hide Encode, Decode;
    EncodedStartsWithDigit(ds[0]);
    w := RoundTripExactlyBelow2To30(ds[0], EncodeAll(ds[1..]) + rest);
    assert EncodeAll(ds) + rest == Encode(ds[0]) + (EncodeAll(ds[1..]) + rest);
  }

  lemma IndexIsUnique(strings: seq<string>, s: string, i: int)
    requires NoDuplicates(strings) && s in strings
    ensures AtIndex(strings, i) == Some(s) <==> i == Index(strings, s)
  {
  }

  lemma ParseNameText(ds: seq<int>, r: Running, o: Original, name: string, t: Tables, rest: string)
    requires NoDuplicates(t.names) && name in t.names && ds == [Index(t.names, name) - r.name]
    ensures var p := ParseName(EncodeAll(ds) + rest, r, o, t);
            if AllFit(ds)
            then p == Success(Parsed(Mapping(r.line, r.column, Some(o.(name := name))),
                                     r.(name := Index(t.names, name)), rest))
            else p.Success? ==> p.value.mapping.original != Some(o.(name := name))
  {
    hide Encode, Decode;
    var w := DecodeHead(ds, rest);
    assert ds[1..] == [] && EncodeAll([]) + rest == rest;
    IndexIsUnique(t.names, name, r.name + w);
  }

  lemma ParsePositionText(ds: seq<int>, r: Running, o: Original, t: Tables, rest: string)
    requires NoDuplicates(t.names) && AtSeparator(rest) && (o.name != "" ==> o.name in t.names)
    requires ds == [o.line - 1 - r.originalLine, o.column - r.originalColumn]
                   + if o.name == "" then [] else [Index(t.names, o.name) - r.name]
    ensures var p := ParsePosition(EncodeAll(ds) + rest, r, o.source, t);
            var r' := r.(originalLine := o.line - 1, originalColumn := o.column);
            var r'' := if o.name == "" then r' else r'.(name := Index(t.names, o.name));
            if AllFit(ds) then p == Success(Parsed(Mapping(r.line, r.column, Some(o)), r'', rest))
            else p.Success? ==> p.value.mapping.original != Some(o)
  {
    hide Encode, Decode;
    var w1 := DecodeHead(ds, rest);
    var w2 := DecodeHead(ds[1..], rest);
    assert ds[1..][1..] == ds[2..];
    var r' := r.(originalLine := r.originalLine + w1, originalColumn := r.originalColumn + w2);
    var o' := Original(o.source, r'.originalLine + 1, r'.originalColumn, "");
    if o.name == "" {
      assert ds[2..] == [] && EncodeAll([]) + rest == rest;
    } else {
      var w3 := DecodeHead(ds[2..], rest);
      ParseNameText(ds[2..], r', o', o.name, t, rest);
    }
  }

  lemma ParseOriginalText(o: Original, r: Running, t: Tables, rest: string)
    requires NoDuplicates(t.sources) && NoDuplicates(t.names) && AtSeparator(rest)
    requires o.source in t.sources && (o.name != "" ==> o.name in t.names)
    ensures var ds := OriginalDeltas(o, r, t);
            var p := ParseOriginal(EncodeAll(ds) + rest, r, t);
            if AllFit(ds) then p == Success(Parsed(Mapping(r.line, r.column, Some(o)), AdvanceOriginal(o, r, t), rest))
            else p.Success? ==> p.value.mapping.original != Some(o)
  {
    hide Encode, Decode;
    var ds := OriginalDeltas(o, r, t);
    var w := DecodeHead(ds, rest);
    IndexIsUnique(t.sources, o.source, r.source + w);
    var w' := DecodeHead(ds[1..], rest);
    if r.source + w == Index(t.sources, o.source) {
      ParsePositionText(ds[1..], r.(source := r.source + w), o, t, rest);
    } else {
      ParsedSource(EncodeAll(ds[1..]) + rest, r.(source := r.source + w), t);
    }
  }

  // A parsed original position has the source it was started with.
  lemma ParsedSource(s: string, r: Running, t: Tables)
    ensures forall source :: var p := ParsePosition(s, r, source, t);
              p.Success? ==> p.value.mapping.original.Some? && p.value.mapping.original.value.source == source
  {
  }

  // Parsing the text of a segment gives its mapping back exactly when every difference fits.
  lemma ParseSegmentText(m: Mapping, r: Running, t: Tables, rest: string)
    requires Known(m, t) && r.line == m.line && AtSeparator(rest)
    requires NoDuplicates(t.sources) && NoDuplicates(t.names)
    ensures var p := ParseSegment(EncodeAll(Deltas(m, r, t)) + rest, r, t);
            if AllFit(Deltas(m, r, t)) then p == Success(Parsed(m, Advance(m, r, t), rest))
            else p.Success? ==> p.value.mapping != m
  {
    hide Encode, Decode, OriginalDeltas, AdvanceOriginal, ParseOriginal;
    var ds := Deltas(m, r, t);
    var w := DecodeHead(ds, rest);
    var r' := r.(column := r.column + w);
    if m.original.None? {
      assert ds[1..] == [] && EncodeAll([]) + rest == rest;
    } else {
      var ds' := OriginalDeltas(m.original.value, r, t);
      SameOriginalDeltas(m.original.value, r, w, t);
      assert ds[1..] == ds';
      assert AllFit(ds) <==> Fits(ds[0]) && AllFit(ds') by {
        assert forall i :: 1 <= i < |ds| ==> ds[i] == ds'[i - 1];
        assert forall i :: 0 <= i < |ds'| ==> ds'[i] == ds[i + 1];
      }
      var w' := DecodeHead(ds', rest);
      ParseOriginalText(m.original.value, r', t, rest);
      ParsedColumn(EncodeAll(ds') + rest, r', t);
    }
  }

  lemma SameOriginalDeltas(o: Original, r: Running, d: int, t: Tables)
    requires o.source in t.sources && (o.name != "" ==> o.name in t.names)
    ensures OriginalDeltas(o, r.(column := r.column + d), t) == OriginalDeltas(o, r, t) != []
  {
  }

  lemma ParsedColumn(s: string, r: Running, t: Tables)
    ensures var p := ParseOriginal(s, r, t);
            p.Success? ==> p.value.mapping.line == r.line && p.value.mapping.column == r.column
  {
  }

  // ---------- the whole string ----------

  // The mappings from the i-th on, without those equal to the one before them.
  function Distinct(ms: seq<Mapping>, i: nat): seq<Mapping>
    requires i <= |ms|
    decreases |ms| - i
  {
    if i == |ms| then []
    else if i > 0 && CompareByGenerated(ms[i], ms[i - 1]) == 0 then Distinct(ms, i + 1)
    else [ms[i]] + Distinct(ms, i + 1)
  }

  // Every difference written from the i-th mapping on has magnitude below 2^30.
  ghost predicate DeltasFit(ms: seq<Mapping>, i: nat, r: Running, t: Tables)
    requires i <= |ms| && AllKnown(ms, t)
    decreases |ms| - i
  {
    if i == |ms| then true
    else if Repeated(ms, i, r) then DeltasFit(ms, i + 1, r, t)
    else
      && AllFit(Deltas(ms[i], AtLine(ms[i], r), t))
      && DeltasFit(ms, i + 1, Advance(ms[i], r, t), t)
  }

  lemma {:induction false} ParseSemicolons(n: nat, s: string, r: Running, t: Tables)
    ensures n > 0 ==> ParseFrom(Semicolons(n) + s, r, t) == ParseFrom(s, r.(line := r.line + n, column := 0), t)
  {
    if n > 0 {
      var text := Semicolons(n) + s;
      assert text[0] == ';' && text[1..] == Semicolons(n - 1) + s;
      if n == 1 {
        assert Semicolons(0) + s == s;
      } else {
        ParseSemicolons(n - 1, s, r.(line := r.line + 1, column := 0), t);
      }
    }
  }

  // What follows a mapping starts with a separator, unless it is the end.
  lemma {:induction false} SerializedAtSeparator(ms: seq<Mapping>, i: nat, r: Running, t: Tables)
    requires 0 < i <= |ms| && AllKnown(ms, t) && LinesSorted(ms) && (i < |ms| ==> r.line <= ms[i].line)
    ensures AtSeparator(SerializeFrom(ms, i, r, t))
    decreases |ms| - i
  {
    if i < |ms| && ms[i].line == r.line && CompareByGenerated(ms[i], ms[i - 1]) == 0 {
      SerializedAtSeparator(ms, i + 1, r, t);
    }
  }

  lemma ParseOneMapping(m: Mapping, r: Running, t: Tables, rest: string)
    requires Known(m, t) && r.line == m.line && AtSeparator(rest)
    requires NoDuplicates(t.sources) && NoDuplicates(t.names)
    ensures var p := ParseFrom(EncodeAll(Deltas(m, r, t)) + rest, r, t);
            if AllFit(Deltas(m, r, t)) then p == Prepend(m, ParseFrom(rest, Advance(m, r, t), t))
            else p.Success? ==> p.value != [] && p.value[0] != m
  {
    hide Encode, Decode;
    ParseSegmentText(m, r, t, rest);
    var w := DecodeHead(Deltas(m, r, t), rest);
  }

  // The separators in front of a segment bring the parser to the line of its mapping.
  lemma ParseSeparators(ms: seq<Mapping>, i: nat, r: Running, t: Tables)
    requires i < |ms| && AllKnown(ms, t) && LinesSorted(ms) && r.line <= ms[i].line && !Repeated(ms, i, r)
    ensures ParseFrom(SerializeFrom(ms, i, r, t), r, t)
         == ParseFrom(EncodeAll(Deltas(ms[i], AtLine(ms[i], r), t)) + SerializeFrom(ms, i + 1, Advance(ms[i], r, t), t),
                      AtLine(ms[i], r), t)
  {
    hide Encode, Decode, Known, ParseSegment;
    var m, s := ms[i], SerializeFrom(ms, i, r, t);
    var text := EncodeAll(Deltas(m, AtLine(m, r), t)) + SerializeFrom(ms, i + 1, Advance(m, r, t), t);
    assert s == Separators(m, i, r) + text;
    if m.line != r.line {
      ParseSemicolons(m.line - r.line, text, r, t);
    } else if i > 0 {
      assert s[1..] == text;
    } else {
      assert s == text;
    }
  }

  lemma EqualOnSameLine(a: Mapping, b: Mapping)
    ensures CompareByGenerated(a, b) == 0 ==> a.line == b.line
  {
  }

  lemma AdvanceLine(m: Mapping, r: Running, t: Tables)
    requires Known(m, t)
    ensures Advance(m, r, t).line == m.line == AtLine(m, r).line && Advance(m, AtLine(m, r), t) == Advance(m, r, t)
  {
  }

  // Parsing what is printed from the i-th mapping on gives the distinct mappings from there on,
  // and it does so exactly when every difference fits.
  lemma {:induction false} ParseSerialized(ms: seq<Mapping>, i: nat, r: Running, t: Tables)
    requires i <= |ms| && AllKnown(ms, t) && LinesSorted(ms)
    requires i < |ms| ==> r.line <= ms[i].line
    requires i > 0 ==> r.line == ms[i - 1].line
    requires NoDuplicates(t.sources) && NoDuplicates(t.names)
    ensures ParseFrom(SerializeFrom(ms, i, r, t), r, t) == Success(Distinct(ms, i)) <==> DeltasFit(ms, i, r, t)
    decreases |ms| - i
  {
    hide Encode, Decode, ParseSegment, Deltas, EncodeAll, AtLine, Separators, CompareByGenerated, Advance;
    if i < |ms| {
      AdvanceLine(ms[i], r, t);
      if i > 0 {
        EqualOnSameLine(ms[i], ms[i - 1]);
      }
    }
    if i == |ms| {
      assert ParseFrom("", r, t) == Success([]);
    } else if i > 0 && CompareByGenerated(ms[i], ms[i - 1]) == 0 {
      ParseSerialized(ms, i + 1, r, t);
    } else {
      var next := Advance(ms[i], r, t);
      var rest := SerializeFrom(ms, i + 1, next, t);
      SerializedAtSeparator(ms, i + 1, next, t);
      ParseSerialized(ms, i + 1, next, t);
      ParseSeparators(ms, i, r, t);
      ParseOneMapping(ms[i], AtLine(ms[i], r), t, rest);
      PrependDistinct(ms[i], ParseFrom(rest, next, t), Distinct(ms, i + 1));
    }
  }

  lemma PrependDistinct(m: Mapping, p: Result<seq<Mapping>, ParseError>, ms: seq<Mapping>)
    ensures Prepend(m, p) == Success([m] + ms) <==> p == Success(ms)
  {
    if p.Success? && [m] + p.value == [m] + ms {
      assert p.value == ([m] + p.value)[1..] == ms;
    }
  }

  // ---------- the order and the numbers ----------

  lemma SortedIsLinesSorted(ms: seq<Mapping>)
    requires Sorted(ms)
    ensures LinesSorted(ms)
  {
    forall i, j | 0 <= i < j < |ms| ensures ms[i].line <= ms[j].line {
      assert !Before(ms[j], ms[i]);
    }
  }

  lemma PrependStrict(m: Mapping, ms: seq<Mapping>)
    requires StrictlySorted(ms) && forall k :: 0 <= k < |ms| ==> Before(m, ms[k])
    ensures StrictlySorted([m] + ms)
  {
    hide Before;
    var all := [m] + ms;
    forall j, k | 0 <= j < k < |all| ensures Before(all[j], all[k]) {
      if j > 0 {
        assert Before(ms[j - 1], ms[k - 1]);
      } else {
        assert Before(m, ms[k - 1]);
      }
    }
  }

  // Dropping the mappings equal to their predecessor loses none and leaves a strict order.
  lemma {:induction false} DistinctOfSorted(ms: seq<Mapping>, i: nat)
    requires i <= |ms| && Sorted(ms) && AllValid(ms)
    ensures StrictlySorted(Distinct(ms, i))
    ensures forall m :: m in Distinct(ms, i) ==> m in ms[i..] && (i > 0 ==> Before(ms[i - 1], m))
    ensures forall k :: i <= k < |ms| ==> ms[k] in Distinct(ms, i) || (i > 0 && ms[k] == ms[i - 1])
    decreases |ms| - i
  {
    hide CompareByGenerated;
    if i < |ms| {
      DistinctOfSorted(ms, i + 1);
      var rest := Distinct(ms, i + 1);
      forall k | 0 <= k < |rest| ensures Before(ms[i], rest[k]) {
        assert rest[k] in rest;
      }
      PrependStrict(ms[i], rest);
      if i > 0 {
        ComparatorIsTotal(ms[i - 1], ms[i]);
        ComparatorIsTotal(ms[i], ms[i - 1]);
        assert !Before(ms[i], ms[i - 1]);
        if Before(ms[i - 1], ms[i]) {
          forall m | m in rest ensures Before(ms[i - 1], m) {
            ComparatorIsTransitive(ms[i - 1], ms[i], m);
          }
        }
      }
    }
  }

  const LIMIT := 0x4000_0000

  ghost predicate NumbersBelowLimit(m: Mapping) {
    && m.column < LIMIT
    && (m.original.Some? ==> m.original.value.line <= LIMIT && m.original.value.column < LIMIT)
  }

  ghost predicate RunningBelowLimit(r: Running) {
    && 0 <= r.column < LIMIT && 0 <= r.source < LIMIT && 0 <= r.originalLine < LIMIT
    && 0 <= r.originalColumn < LIMIT && 0 <= r.name < LIMIT
  }

  lemma DeltasBelowLimitFit(m: Mapping, r: Running, t: Tables)
    requires Known(m, t) && ValidMapping(m) && NumbersBelowLimit(m) && RunningBelowLimit(r)
    requires |t.sources| <= LIMIT && |t.names| <= LIMIT
    ensures AllFit(Deltas(m, r, t)) && RunningBelowLimit(Advance(m, r, t))
  {
  }

  // Numbers below 2^30 have differences of magnitude below 2^30.
  lemma {:induction false} NumbersBelowLimitFit(ms: seq<Mapping>, i: nat, r: Running, t: Tables)
    requires i <= |ms| && AllKnown(ms, t) && AllValid(ms) && RunningBelowLimit(r)
    requires forall k :: 0 <= k < |ms| ==> NumbersBelowLimit(ms[k])
    requires |t.sources| <= LIMIT && |t.names| <= LIMIT
    ensures DeltasFit(ms, i, r, t)
    decreases |ms| - i
  {
    hide Deltas, CompareByGenerated;
    if i < |ms| {
      DeltasBelowLimitFit(ms[i], AtLine(ms[i], r), t);
      DeltasBelowLimitFit(ms[i], r, t);
      NumbersBelowLimitFit(ms, i + 1, Advance(ms[i], r, t), t);
      NumbersBelowLimitFit(ms, i + 1, r, t);
    }
  }

  // Sorting keeps every mapping known, and every number below the limit.
  lemma SortKeeps(ms: seq<Mapping>, t: Tables)
    requires AllValid(ms) && AllKnown(ms, t)
    ensures AllKnown(Sort(ms), t)
    ensures forall m :: m in Sort(ms) <==> m in ms
  {
    hide Before, Known, Sorted;
    SortSorts(ms);
    forall m: Mapping ensures m in Sort(ms) <==> m in ms {
      assert m in Sort(ms) <==> m in multiset(Sort(ms));
      assert m in ms <==> m in multiset(ms);
    }
    forall i | 0 <= i < |Sort(ms)| ensures Known(Sort(ms)[i], t) {
      assert Sort(ms)[i] in ms;
    }
  }

  // ---------- the two objects ----------

  class SourceMapGenerator {
    const sources: ArraySet
    const names: ArraySet
    var mappings: seq<Mapping>

    ghost predicate Valid()
      reads this, sources, names
    {
      && sources != names && sources.Valid() && names.Valid()
      && NoDuplicates(sources.items) && NoDuplicates(names.items)
      && AllValid(mappings) && AllKnown(mappings, Tables(sources.items, names.items))
    }

    constructor ()
      ensures Valid() && fresh(sources) && fresh(names)
      ensures mappings == [] && sources.items == [] && names.items == []
    {
      var s := new ArraySet();
      var n := new ArraySet();
      sources, names, mappings := s, n, [];
    }

    // The original position is a line and a column; a missing source or name is the empty string.
    // The result says whether the mapping was accepted; the exception leaves everything as it was.
    method AddMapping(line: int, column: int, original: Option<(int, int)>, source: string, name: string)
      returns (ok: bool)
      requires Valid()
      modifies this`mappings, sources, names
      ensures Valid()
      ensures ok <==> line > 0 && column >= 0
                      && if original.None? then source == "" && name == ""
                         else original.value.0 > 0 && original.value.1 >= 0 && source != ""
      ensures ok ==> mappings == old(mappings) + [Mapping(line, column,
                       if original.None? then None
                       else Some(Original(source, original.value.0, original.value.1, name)))]
      ensures !ok ==>
                mappings == old(mappings) && sources.items == old(sources.items) && names.items == old(names.items)
      ensures ok ==>
                sources.items == old(sources.items)
                                 + if source == "" || source in old(sources.items) then [] else [source]
      ensures ok ==> names.items == old(names.items) + if name == "" || name in old(names.items) then [] else [name]
    {
      hide FirstIndex, NoDuplicates, Known, AllKnown, AllValid;
      var m := Mapping(line, column,
                       if original.None? then None
                       else Some(Original(source, original.value.0, original.value.1, name)));
      ghost var t := Tables(sources.items, names.items);
      ok := ValidMapping(m) && (original.None? ==> source == "" && name == "");
      if ok {
        Collect(sources, source);
        Collect(names, name);
        MappingsGrow(mappings, m, t, Tables(sources.items, names.items));
        mappings := mappings + [m];
      }
    }

    static method Collect(table: ArraySet, s: string)
      requires table.Valid() && NoDuplicates(table.items)
      modifies table
      ensures table.Valid() && NoDuplicates(table.items)
      ensures table.items == old(table.items) + if s == "" || s in old(table.items) then [] else [s]
    {
      hide FirstIndex;
      if s != "" && !table.Has(s) {
        table.Add(s, false);
      }
    }

    // Sorts the mappings in place and prints them.
    method SerializeMappings() returns (result: string)
      requires Valid()
      modifies this`mappings
      ensures Valid() && mappings == Sort(old(mappings))
      ensures LinesSorted(mappings)
      ensures result == SerializeFrom(mappings, 0, START, Tables(sources.items, names.items))
    {
      SortSorts(mappings);
      SortKeeps(mappings, Tables(sources.items, names.items));
      SortedIsLinesSorted(Sort(mappings));
      mappings := Sort(mappings);
      result := PrintMappings();
    }

    method PrintMappings() returns (result: string)
      requires Valid() && LinesSorted(mappings)
      ensures result == SerializeFrom(mappings, 0, START, Tables(sources.items, names.items))
    {
      hide Encode, CompareByGenerated, Deltas, Known, Advance, FirstIndex, Separators, Repeated, EncodeAll, AtLine,
           SerializeFrom;
      ghost var t := Tables(sources.items, names.items);
      var r := START;
      result := "";
      var i := 0;
      while i < |mappings|
        invariant 0 <= i <= |mappings|
        invariant if i > 0 then r.line == mappings[i - 1].line else r == START
        invariant result + SerializeFrom(mappings, i, r, t) == SerializeFrom(mappings, 0, START, t)
      {
        var text, next := PrintMapping(i, r);
        SerializeOne(mappings, i, r, t, result, text, next);
        result, r := result + text, next;
        i := i + 1;
      }
      assert SerializeFrom(mappings, |mappings|, r, t) == "" by {
        SerializeNothing(mappings, r, t);
      }
    }

    method PrintMapping(i: nat, r: Running) returns (result: string, next: Running)
      requires sources.Valid() && names.Valid() && i < |mappings| && r.line <= mappings[i].line
      requires Known(mappings[i], Tables(sources.items, names.items))
      ensures var t := Tables(sources.items, names.items);
              if Repeated(mappings, i, r) then result == "" && next == r
              else result == Separators(mappings[i], i, r) + EncodeAll(Deltas(mappings[i], AtLine(mappings[i], r), t))
                   && next == Advance(mappings[i], r, t)
      ensures next.line == mappings[i].line
    {
      hide Encode, CompareByGenerated, Deltas, Known, FirstIndex;
      var m := mappings[i];
      result, next := "", r;
      if m.line != r.line {
        result, next := PrintSemicolons(m, r);
      } else if i > 0 {
        if CompareByGenerated(m, mappings[i - 1]) == 0 {
          return;
        }
        result := ",";
      }
      var segment;
      segment, next := PrintSegment(m, next);
      result := result + segment;
    }

    method PrintSemicolons(m: Mapping, r: Running) returns (result: string, next: Running)
      requires r.line < m.line
      ensures result == Semicolons(m.line - r.line) && next == AtLine(m, r)
    {
      result, next := "", r.(column := 0);
      while m.line != next.line
        invariant next.line <= m.line && next == r.(line := next.line, column := 0)
        invariant result + Semicolons(m.line - next.line) == Semicolons(m.line - r.line)
        decreases m.line - next.line
      {
        result := result + ";";
        next := next.(line := next.line + 1);
      }
    }

    method PrintSegment(m: Mapping, r: Running) returns (result: string, next: Running)
      requires sources.Valid() && names.Valid() && Known(m, Tables(sources.items, names.items)) && r.line == m.line
      ensures result == EncodeAll(Deltas(m, r, Tables(sources.items, names.items)))
      ensures next == Advance(m, r, Tables(sources.items, names.items))
    {
      hide Encode, OriginalDeltas, AdvanceOriginal;
      ghost var t := Tables(sources.items, names.items);
      result := EncodeLoop(m.column - r.column);
      next := r.(column := m.column);
      EncodeNext(Deltas(m, r, t), 0, "");
      if m.original.Some? {
        assert Deltas(m, r, t)[1..] == OriginalDeltas(m.original.value, r, t);
        SameOriginalDeltas(m.original.value, r, m.column - r.column, t);
        var text;
        text, next := PrintOriginal(m.original.value, next);
        result := result + text;
      }
    }

    method PrintOriginal(o: Original, r: Running) returns (result: string, next: Running)
      requires sources.Valid() && names.Valid() && o.source in sources.items && (o.name != "" ==> o.name in names.items)
      ensures result == EncodeAll(OriginalDeltas(o, r, Tables(sources.items, names.items)))
      ensures next == AdvanceOriginal(o, r, Tables(sources.items, names.items))
    {
      hide Encode, FirstIndex;
      ghost var ds := OriginalDeltas(o, r, Tables(sources.items, names.items));
      var source := sources.IndexOf(o.source).value;
      result := EncodeLoop(source - r.source);
      EncodeNext(ds, 0, "");
      next := r.(source := source);
      // lines are stored from 0
      var line := EncodeLoop(o.line - 1 - next.originalLine);
      EncodeNext(ds, 1, result);
      result, next := result + line, next.(originalLine := o.line - 1);
      var column := EncodeLoop(o.column - next.originalColumn);
      EncodeNext(ds, 2, result);
      result, next := result + column, next.(originalColumn := o.column);
      if o.name != "" {
        var index := names.IndexOf(o.name).value;
        var name := EncodeLoop(index - next.name);
        EncodeNext(ds, 3, result);
        result, next := result + name, next.(name := index);
      }
    }
  }

  lemma MappingsGrow(ms: seq<Mapping>, m: Mapping, t: Tables, t': Tables)
    requires AllValid(ms) && ValidMapping(m) && AllKnown(ms, t) && t.sources <= t'.sources && t.names <= t'.names
    requires m.original.Some? ==> m.original.value.source in t'.sources
    requires m.original.Some? && m.original.value.name != "" ==> m.original.value.name in t'.names
    ensures AllValid(ms + [m]) && AllKnown(ms + [m], t')
  {
    forall i | 0 <= i < |ms| ensures Known(ms[i], t') {
    }
  }

  lemma SerializeOne(ms: seq<Mapping>, i: nat, r: Running, t: Tables, before: string, text: string, next: Running)
    requires i < |ms| && AllKnown(ms, t) && LinesSorted(ms) && r.line <= ms[i].line && next.line == ms[i].line
    requires if Repeated(ms, i, r) then text == "" && next == r
             else text == Separators(ms[i], i, r) + EncodeAll(Deltas(ms[i], AtLine(ms[i], r), t))
                  && next == Advance(ms[i], r, t)
    ensures before + SerializeFrom(ms, i, r, t) == before + text + SerializeFrom(ms, i + 1, next, t)
  {
    hide Encode, CompareByGenerated, Deltas, Known, Advance, Separators, Repeated, EncodeAll, AtLine;
  }

  lemma SerializeNothing(ms: seq<Mapping>, r: Running, t: Tables)
    requires AllKnown(ms, t) && LinesSorted(ms)
    ensures SerializeFrom(ms, |ms|, r, t) == ""
  {
  }

  lemma EncodeNext(ds: seq<int>, k: nat, before: string)
    requires k < |ds|
    ensures before + EncodeAll(ds[k..]) == before + Encode(ds[k]) + EncodeAll(ds[k + 1..])
    ensures EncodeAll(ds[|ds|..]) == ""
  {
    hide Encode;
    assert ds[k..][1..] == ds[k + 1..];
  }

  // ---------- the consumer ----------

  class SourceMapConsumer {
    const sources: ArraySet
    const names: ArraySet
    var generatedMappings: seq<Mapping>

    // The tables may hold duplicates: an index then names the same string wherever it first was.
    constructor (sourceList: seq<string>, nameList: seq<string>)
      ensures sources.items == sourceList && names.items == nameList && generatedMappings == []
      ensures fresh(sources) && fresh(names)
    {
      var s := ArraySet.FromArray(sourceList, true);
      var n := ArraySet.FromArray(nameList, true);
      sources, names, generatedMappings := s, n, [];
    }

    // Reads the string from the left; an exception leaves the mappings read so far in place.
    method ParseMappings(text: string) returns (error: Option<ParseError>)
      modifies this`generatedMappings
      ensures var p := ParseFrom(text, START, Tables(sources.items, names.items));
              if p.Success? then error.None? && generatedMappings == old(generatedMappings) + p.value
              else error == Some(p.error) && old(generatedMappings) <= generatedMappings
    {
      hide Decode, ParseSegment;
      ghost var t := Tables(sources.items, names.items);
      ghost var found: seq<Mapping> := [];
      var str, r := text, START;
      assert forall p :: After([], p) == p by {
        forall p: Result<seq<Mapping>, ParseError> ensures After([], p) == p {
          assert p.Success? ==> [] + p.value == p.value;
        }
      }
      while |str| > 0
        invariant generatedMappings == old(generatedMappings) + found
        invariant ParseFrom(text, START, t) == After(found, ParseFrom(str, r, t))
        decreases |str|
      {
        if str[0] == ';' {
          r := r.(line := r.line + 1, column := 0);
          str := str[1..];
        } else if str[0] == ',' {
          str := str[1..];
        } else {
          var p := ParseSegmentNow(str, r);
          if p.Failure? {
            return Some(p.error);
          }
          generatedMappings := generatedMappings + [p.value.mapping];
          AfterOneMore(found, p.value.mapping, ParseFrom(p.value.rest, p.value.running, t));
          found := found + [p.value.mapping];
          str, r := p.value.rest, p.value.running;
        }
      }
      return None;
    }

    method ParseSegmentNow(str: string, r: Running) returns (p: Result<Parsed, ParseError>)
      ensures p == ParseSegment(str, r, Tables(sources.items, names.items))
    {
      hide Decode;
      var column := DecodeLoop(str);
      if column.Failure? {
        return Failure(BadVlq(column.error));
      }
      var r' := r.(column := r.column + column.value.0);
      if AtSeparator(column.value.1) {
        return Success(Parsed(Mapping(r'.line, r'.column, None), r', column.value.1));
      }
      var source := DecodeLoop(column.value.1);
      if source.Failure? {
        return Failure(BadVlq(source.error));
      }
      r' := r'.(source := r'.source + source.value.0);
      var file := sources.At(r'.source);
      if file.None? {
        return Failure(NoElementAt(r'.source));
      }
      if AtSeparator(source.value.1) {
        return Failure(SourceWithoutPosition);
      }
      var line := DecodeLoop(source.value.1);
      if line.Failure? {
        return Failure(BadVlq(line.error));
      }
      if AtSeparator(line.value.1) {
        return Failure(LineWithoutColumn);
      }
      var originalColumn := DecodeLoop(line.value.1);
      if originalColumn.Failure? {
        return Failure(BadVlq(originalColumn.error));
      }
      r' := r'.(originalLine := r'.originalLine + line.value.0,
                originalColumn := r'.originalColumn + originalColumn.value.0);
      var o := Original(file.value, r'.originalLine + 1, r'.originalColumn, "");
      if AtSeparator(originalColumn.value.1) {
        return Success(Parsed(Mapping(r'.line, r'.column, Some(o)), r', originalColumn.value.1));
      }
      var name := DecodeLoop(originalColumn.value.1);
      if name.Failure? {
        return Failure(BadVlq(name.error));
      }
      r' := r'.(name := r'.name + name.value.0);
      var identifier := names.At(r'.name);
      if identifier.None? {
        return Failure(NoElementAt(r'.name));
      }
      return Success(Parsed(Mapping(r'.line, r'.column, Some(o.(name := identifier.value))), r', name.value.1));
    }
  }

  function After(found: seq<Mapping>, p: Result<seq<Mapping>, ParseError>): Result<seq<Mapping>, ParseError> {
    if p.Failure? then p else Success(found + p.value)
  }

  lemma AfterOneMore(found: seq<Mapping>, m: Mapping, p: Result<seq<Mapping>, ParseError>)
    ensures After(found, Prepend(m, p)) == After(found + [m], p)
  {
    if p.Success? {
      assert found + ([m] + p.value) == found + [m] + p.value;
    }
  }

  // ---------- the round trip ----------

  lemma {:induction false} StrictOrderIsUnique(a: seq<Mapping>, b: seq<Mapping>)
    requires AllValid(a) && AllValid(b) && StrictlySorted(a) && StrictlySorted(b)
    requires forall m :: m in a <==> m in b
    ensures a == b
  {
    hide CompareByGenerated;
    if b != [] {
      assert b[0] in a;
    }
    if a != [] {
      assert a[0] in b;
      ComparatorIsTotal(a[0], b[0]);
      assert a == [a[0]] + a[1..] && b == [b[0]] + b[1..];
      forall m ensures m in a[1..] <==> m in b[1..] {
        InTail(a, m);
        InTail(b, m);
      }
      StrictOrderIsUnique(a[1..], b[1..]);
    }
  }

  lemma InTail(ms: seq<Mapping>, m: Mapping)
    requires ms != [] && StrictlySorted(ms) && AllValid(ms)
    ensures m in ms[1..] <==> m in ms && m != ms[0]
  {
    hide CompareByGenerated;
    ComparatorIsTotal(ms[0], ms[0]);
  }

  ghost predicate ReadBack(p: Result<seq<Mapping>, ParseError>, ms: seq<Mapping>) {
    p.Success? && StrictlySorted(p.value) && forall m :: m in p.value <==> m in ms
  }

  // Parsing what is printed for the sorted mappings reads back exactly the mappings, in strict
  // generated order and each once, if and only if every printed difference is below 2^30.
  lemma MappingsRoundTrip(ms: seq<Mapping>, t: Tables)
    requires AllValid(ms) && AllKnown(ms, t) && NoDuplicates(t.sources) && NoDuplicates(t.names)
    ensures AllKnown(Sort(ms), t) && LinesSorted(Sort(ms)) && (Sort(ms) != [] ==> 1 <= Sort(ms)[0].line)
    ensures ReadBack(ParseFrom(SerializeFrom(Sort(ms), 0, START, t), START, t), ms) <==>
              DeltasFit(Sort(ms), 0, START, t)
  {
    hide CompareByGenerated, Encode, Decode, ParseFrom, SerializeFrom;
    SortSorts(ms);
    SortKeeps(ms, t);
    var sorted := Sort(ms);
    SortedIsLinesSorted(sorted);
    ParseSerialized(sorted, 0, START, t);
    DistinctOfSorted(sorted, 0);
    assert sorted[0..] == sorted;
    var p := ParseFrom(SerializeFrom(sorted, 0, START, t), START, t);
    var distinct := Distinct(sorted, 0);
    assert forall m :: m in distinct <==> m in ms;
    if ReadBack(p, ms) {
      forall k | 0 <= k < |p.value| ensures ValidMapping(p.value[k]) {
        assert p.value[k] in ms;
      }
      forall k | 0 <= k < |distinct| ensures ValidMapping(distinct[k]) {
        assert distinct[k] in ms;
      }
      StrictOrderIsUnique(p.value, distinct);
    }
  }

  // In particular whenever the numbers themselves are below 2^30.
  lemma MappingsBelowLimitRoundTrip(ms: seq<Mapping>, t: Tables)
    requires AllValid(ms) && AllKnown(ms, t) && NoDuplicates(t.sources) && NoDuplicates(t.names)
    requires (forall m :: m in ms ==> NumbersBelowLimit(m)) && |t.sources| <= LIMIT && |t.names| <= LIMIT
    ensures AllKnown(Sort(ms), t) && LinesSorted(Sort(ms)) && (Sort(ms) != [] ==> 1 <= Sort(ms)[0].line)
    ensures ReadBack(ParseFrom(SerializeFrom(Sort(ms), 0, START, t), START, t), ms)
  {
    hide CompareByGenerated, Encode, Decode, ParseFrom, SerializeFrom;
    MappingsRoundTrip(ms, t);
    SortSorts(ms);
    SortKeeps(ms, t);
    forall k | 0 <= k < |Sort(ms)| ensures NumbersBelowLimit(Sort(ms)[k]) {
      assert Sort(ms)[k] in ms;
    }
    NumbersBelowLimitFit(Sort(ms), 0, START, t);
  }

  // The two objects together: a generator prints, a consumer of its tables parses.
  method PrintThenParse(g: SourceMapGenerator) returns (c: SourceMapConsumer, error: Option<ParseError>)
    requires g.Valid()
    requires (forall m :: m in g.mappings ==> NumbersBelowLimit(m)) && |g.sources.items| <= LIMIT
    requires |g.names.items| <= LIMIT
    modifies g`mappings
    ensures error.None? && StrictlySorted(c.generatedMappings)
    ensures forall m :: m in c.generatedMappings <==> m in old(g.mappings)
  {
    hide CompareByGenerated, Encode, Decode, ParseFrom, SerializeFrom, DeltasFit;
    MappingsBelowLimitRoundTrip(g.mappings, Tables(g.sources.items, g.names.items));
    var text := g.SerializeMappings();
    c := new SourceMapConsumer(g.sources.items, g.names.items);
    error := c.ParseMappings(text);
  }
}
