// Replacing every match of an ":extend" target in a selector path
// (extra/lesscss/less-rhino-1.7.0.js, extendSelector).
module ExtendSplice {
  import opened Sequences
  import opened ExtendMatch
  import opened ExtendSpaces

  // The replacement takes the combinator of the first element that it replaces.
  function Replacement(combinator: string, replacement: Selector): Selector
    requires replacement != []
  {
    [Element(combinator, replacement[0].value)] + replacement[1..]
  }

  // The starts of matches of n elements each, in order and apart, from p on.
  ghost predicate Disjoint(starts: seq<nat>, n: nat, p: nat, length: nat) {
    && (forall i :: 0 <= i < |starts| ==> p <= starts[i] && starts[i] + n <= length)
    && (forall i, j :: 0 <= i < j < |starts| ==> starts[i] + n <= starts[j])
  }

  // The elements from p on, every match replaced.
  function Replace(flat: Selector, p: nat, starts: seq<nat>, n: nat, replacement: Selector): Selector
    requires n > 0 && replacement != [] && p <= |flat| && Disjoint(starts, n, p, |flat|)
    decreases |starts|, 1
  {
    if starts == [] then flat[p..] else flat[p..starts[0]] + ReplaceFirst(flat, starts, n, replacement)
  }

  function ReplaceFirst(flat: Selector, starts: seq<nat>, n: nat, replacement: Selector): Selector
    requires n > 0 && replacement != [] && starts != [] && Disjoint(starts, n, 0, |flat|)
    decreases |starts|, 0
  {
    Replacement(flat[starts[0]].combinator, replacement) + Replace(flat, starts[0] + n, starts[1..], n, replacement)
  }

  // ---------- pieces of the flattened path ----------

  lemma OffsetGrows(path: Path, a: nat, b: nat)
    requires a <= b <= |path|
    ensures Offset(path, a, 0) <= Offset(path, b, 0) <= |Flatten(path)|
    ensures Flatten(path[a..b]) == Flatten(path)[Offset(path, a, 0)..Offset(path, b, 0)]
    ensures Offset(path, |path|, 0) == |Flatten(path)|
  {
    hide Flatten;
    assert path[..b] == path[..a] + path[a..b];
    FlattenConcat(path[..a], path[a..b]);
    assert path == path[..b] + path[b..];
    FlattenConcat(path[..b], path[b..]);
    assert path[..|path|] == path;
  }

  lemma SelectorSlice(path: Path, k: nat, i: nat, j: nat)
    requires k < |path| && i <= j <= |path[k]|
    ensures Offset(path, k, j) <= |Flatten(path)|
    ensures path[k][i..j] == Flatten(path)[Offset(path, k, i)..Offset(path, k, j)]
    ensures Offset(path, k, |path[k]|) == Offset(path, k + 1, 0)
  {
    hide Flatten;
    SplitAt(path, k);
    var a, b := Flatten(path[..k]), Flatten(path[k + 1..]);
    SliceOfMiddle(Flatten(path), a, path[k], b, i, j);
  }

  // A position before another is in an earlier selector, or earlier in the same one.
  lemma OffsetOrder(path: Path, k: nat, i: nat, k': nat, i': nat)
    requires k <= |path| && (k < |path| ==> i < |path[k]|) && k' < |path| && i' < |path[k']|
    requires Offset(path, k, i) <= Offset(path, k', i')
    ensures k < k' || (k == k' && i <= i')
  {
    hide Flatten;
    if k > k' {
      OffsetGrows(path, k' + 1, k);
      SelectorSlice(path, k', 0, 0);
    }
  }

  // Appending to the last selector of a path appends to its flattened form.
  lemma AppendToLast(path: Path, elements: Selector)
    requires path != [] && WellFormed(path)
    ensures Flatten(path[|path| - 1 := path[|path| - 1] + elements]) == Flatten(path) + elements
    ensures WellFormed(path[|path| - 1 := path[|path| - 1] + elements])
  {
    hide Flatten;
    var front, last := path[..|path| - 1], path[|path| - 1];
    assert path == front + [last];
    assert path[|path| - 1 := last + elements] == front + [last + elements];
    FlattenConcat(front, [last]);
    FlattenConcat(front, [last + elements]);
    FlattenOne(last);
    FlattenOne(last + elements);
  }

  lemma AppendSelectors(path: Path, more: Path, last: Selector)
    requires WellFormed(path) && WellFormed(more) && last != []
    ensures Flatten(path + more + [last]) == Flatten(path) + Flatten(more) + last
    ensures WellFormed(path + more + [last]) && WellFormed(path + more)
    ensures Flatten(path + more) == Flatten(path) + Flatten(more)
  {
    hide Flatten;
    FlattenConcat(path, more);
    FlattenConcat(path + more, [last]);
    FlattenOne(last);
  }

  // Elements before the first match are copied.
  lemma ReplaceCopies(flat: Selector, p: nat, q: nat, starts: seq<nat>, n: nat, replacement: Selector)
    requires n > 0 && replacement != [] && p <= q <= |flat| && Disjoint(starts, n, q, |flat|)
    ensures Disjoint(starts, n, p, |flat|)
    ensures Replace(flat, p, starts, n, replacement) == flat[p..q] + Replace(flat, q, starts, n, replacement)
  {
    hide ReplaceFirst;
    if starts == [] {
      CutTail(flat, p, q);
    } else {
      Cut(flat, p, q, starts[0]);
      Assoc(flat[p..q], flat[q..starts[0]], ReplaceFirst(flat, starts, n, replacement));
    }
  }

  // ---------- the splicing ----------

  // The output so far and what is still to be replaced, from element ce of selector ci on.
  ghost predicate Spliced(out: Path, path: Path, ci: nat, ce: nat, starts: seq<nat>, n: nat, replacement: Selector,
                          whole: Selector)
    requires n > 0 && replacement != []
  {
    && WellFormed(out) && ci <= |path| && (if ci < |path| then ce < |path[ci]| else ce == 0)
    && Disjoint(starts, n, Offset(path, ci, ce), |Flatten(path)|)
    && Offset(path, ci, ce) <= |Flatten(path)|
    && whole == Flatten(out) + Replace(Flatten(path), Offset(path, ci, ce), starts, n, replacement)
  }

  // The rest of a selector that was cut by a match goes to the selector the match is in.
  method FinishSelector(out0: Path, path: Path, ci: nat, ce: nat, ghost starts: seq<nat>, ghost n: nat,
                        ghost replacement: Selector, ghost whole: Selector)
    returns (out: Path)
    requires n > 0 && replacement != [] && WellFormed(path) && out0 != []
    requires Spliced(out0, path, ci, ce, starts, n, replacement, whole)
    requires ci < |path| && Disjoint(starts, n, Offset(path, ci + 1, 0), |Flatten(path)|)
    ensures out != [] && Spliced(out, path, ci + 1, 0, starts, n, replacement, whole)
    ensures out == out0[|out0| - 1 := out0[|out0| - 1] + path[ci][ce..]]
  {
    hide Flatten, Replace, Disjoint;
    AppendToLast(out0, path[ci][ce..]);
    SelectorSlice(path, ci, ce, |path[ci]|);
    ReplaceCopies(Flatten(path), Offset(path, ci, ce), Offset(path, ci + 1, 0), starts, n, replacement);
    out := out0[|out0| - 1 := out0[|out0| - 1] + path[ci][ce..]];
  }

  // What lies between two positions: whole selectors, then the front of one.
  lemma Gap(path: Path, ci: nat, ce: nat, k: nat, i: nat)
    requires ci <= k < |path| && i <= |path[k]| && (if ci == k then ce <= i else ce == 0)
    ensures Offset(path, ci, ce) <= Offset(path, k, i) <= |Flatten(path)|
    ensures Flatten(path)[Offset(path, ci, ce)..Offset(path, k, i)] == Flatten(path[ci..k]) + path[k][ce..i]
  {
    if ci == k {
      SelectorSlice(path, k, ce, i);
      assert path[ci..k] == [];
      assert Flatten(path[ci..k]) == [];
    } else {
      hide Flatten;
      OffsetGrows(path, ci, k);
      SelectorSlice(path, k, 0, i);
      Cut(Flatten(path), Offset(path, ci, 0), Offset(path, k, 0), Offset(path, k, i));
    }
  }

  lemma ReplacementNotEmpty(combinator: string, replacement: Selector)
    requires replacement != []
    ensures Replacement(combinator, replacement) != []
  {
  }

  lemma NothingBetween(path: Path, k: nat, before: Selector)
    requires k <= |path|
    ensures before + Flatten(path[k..k]) == before
  {
    assert path[k..k] == [];
  }

  lemma Regroup(x: Selector, gap1: Selector, gap2: Selector, r: Selector, rest: Selector)
    ensures x + (gap1 + gap2 + (r + rest)) == x + gap1 + (gap2 + r) + rest
  {
    Assoc(gap1, gap2, r + rest);
    Assoc(gap2, r, rest);
    Assoc(x, gap1, gap2 + r + rest);
    Assoc(x + gap1, gap2 + r, rest);
  }

  lemma DisjointTail(starts: seq<nat>, n: nat, p: nat, length: nat)
    requires starts != [] && Disjoint(starts, n, p, length)
    ensures Disjoint(starts[1..], n, starts[0] + n, length) && starts[0] + n <= length
  {
  }

  // The text of the invariant after a match: gap and replacement move to the output.
  lemma MatchReplaced(path: Path, ci: nat, ce: nat, m: Match, starts: seq<nat>, n: nat, replacement: Selector,
                      before: Selector)
    requires n > 0 && replacement != [] && starts != [] && RecordOf(m, path, starts[0], n)
    requires ci <= m.pathIndex && (if ci == m.pathIndex then ce <= m.index else ce == 0)
    requires Disjoint(starts, n, Offset(path, ci, ce), |Flatten(path)|) && Offset(path, ci, ce) <= |Flatten(path)|
    ensures Disjoint(starts[1..], n, starts[0] + n, |Flatten(path)|)
    ensures before + Replace(Flatten(path), Offset(path, ci, ce), starts, n, replacement)
         == before + Flatten(path[ci..m.pathIndex])
            + (path[m.pathIndex][ce..m.index] + Replacement(m.initialCombinator, replacement))
            + Replace(Flatten(path), starts[0] + n, starts[1..], n, replacement)
  {
    hide Flatten, Replacement, Disjoint;
    DisjointTail(starts, n, Offset(path, ci, ce), |Flatten(path)|);
    Gap(path, ci, ce, m.pathIndex, m.index);
    ElementAtOffset(path, m.pathIndex, m.index);
    Regroup(before, Flatten(path[ci..m.pathIndex]), path[m.pathIndex][ce..m.index],
            Replacement(m.initialCombinator, replacement),
            Replace(Flatten(path), starts[0] + n, starts[1..], n, replacement));
  }

  // With a single match the selectors are kept as well: those the match touches become one.
  function ReplaceOne(m: Match, path: Path, replacement: Selector): Path
    requires replacement != [] && m.pathIndex < |path| && m.index < |path[m.pathIndex]|
    requires m.endPathIndex < |path| && m.endPathElementIndex <= |path[m.endPathIndex]|
  {
    path[..m.pathIndex]
    + [path[m.pathIndex][..m.index] + Replacement(m.initialCombinator, replacement)
       + path[m.endPathIndex][m.endPathElementIndex..]]
    + path[m.endPathIndex + 1..]
  }

  // The output after the first match, and where it goes on.
  ghost predicate AfterOne(out: Path, ci: nat, ce: nat, m: Match, path: Path, replacement: Selector)
    requires replacement != [] && m.pathIndex < |path| && m.index < |path[m.pathIndex]| && m.endPathIndex < |path|
  {
    && out == path[..m.pathIndex] + [path[m.pathIndex][..m.index] + Replacement(m.initialCombinator, replacement)]
    && GoesOn(m, path, ci, ce)
  }

  lemma OneReplaced(out: Path, ci: nat, ce: nat, m: Match, path: Path, replacement: Selector)
    requires replacement != [] && m.pathIndex < |path| && m.index < |path[m.pathIndex]|
    requires m.endPathIndex < |path| && 0 < m.endPathElementIndex <= |path[m.endPathIndex]|
    requires AfterOne(out, ci, ce, m, path, replacement)
    ensures ce > 0 ==>
              out[|out| - 1 := out[|out| - 1] + path[ci][ce..]] + path[ci + 1..] == ReplaceOne(m, path, replacement)
    ensures ce == 0 ==> out + path[ci..] == ReplaceOne(m, path, replacement)
  {
    hide Replacement;
    var front, last :=
      path[..m.pathIndex], path[m.pathIndex][..m.index] + Replacement(m.initialCombinator, replacement);
    if ce > 0 {
      assert out[|out| - 1 := last + path[ci][ce..]] == front + [last + path[ci][ce..]];
    } else {
      assert path[m.endPathIndex][m.endPathElementIndex..] == [];
      assert last + [] == last;
    }
  }

  function SplicedPath(out: Path, path: Path, ci: nat, ce: nat, m: Match, first: bool, replacement: Selector): Path
    requires replacement != [] && ci <= m.pathIndex < |path| && ce <= m.index < |path[m.pathIndex]|
    requires first || out != []
  {
    var newElements := path[m.pathIndex][ce..m.index] + Replacement(m.initialCombinator, replacement);
    if ci == m.pathIndex && !first then out[|out| - 1 := out[|out| - 1] + newElements]
    else out + path[ci..m.pathIndex] + [newElements]
  }

  // ---------- several matches, selector by selector ----------

  predicate InPath(m: Match, path: Path) {
    && m.pathIndex < |path| && m.index < |path[m.pathIndex]|
    && m.endPathIndex < |path| && m.endPathElementIndex <= |path[m.endPathIndex]|
  }

  // A match starts where another one ends, or later.
  predicate Turn(e: Match, m: Match) {
    e.endPathIndex < m.pathIndex || (e.endPathIndex == m.pathIndex && e.endPathElementIndex <= m.index)
  }

  ghost predicate InTurn(matches: seq<Match>, path: Path) {
    && (forall i :: 0 <= i < |matches| ==> InPath(matches[i], path))
    && forall i :: 0 < i < |matches| ==> Turn(matches[i - 1], matches[i])
  }

  // The path up to a match, which is replaced.
  function Front(m: Match, path: Path, replacement: Selector): (r: Path)
    requires replacement != [] && InPath(m, path)
    ensures |r| == m.pathIndex + 1
  {
    path[..m.pathIndex] + [path[m.pathIndex][..m.index] + Replacement(m.initialCombinator, replacement)]
  }

  // What follows a match goes on in the selector that the match is in, and with both so does the next one.
  function Attach(out: Path, m: Match, later: Path, both: bool): Path
    requires out != [] && m.endPathIndex + (if both then 1 else 0) < |later|
    requires m.endPathElementIndex <= |later[m.endPathIndex]|
  {
    var behind := later[m.endPathIndex][m.endPathElementIndex..] + if both then later[m.endPathIndex + 1] else [];
    AppendBoth(out, behind, later[m.endPathIndex + (if both then 2 else 1)..])
  }

  function AppendBoth(out: Path, elements: Selector, more: Path): Path
    requires out != []
  {
    out[..|out| - 1] + [out[|out| - 1] + elements] + more
  }

  // The next match starts in the selector behind the one where this match ends.
  predicate NextIsBehind(matches: seq<Match>, i: nat)
    requires i < |matches|
  {
    i + 1 < |matches| && matches[i + 1].pathIndex == matches[i].endPathIndex + 1
  }

  // The matches from i on replaced, the last one first: each makes one selector of those it touches, and
  // of the one behind them if the next match starts there.
  function ReplaceMany(matches: seq<Match>, path: Path, i: nat, replacement: Selector): (r: Path)
    requires replacement != [] && InTurn(matches, path) && i <= |matches|
    ensures i < |matches| ==>
              var p, x := matches[i].pathIndex, matches[i].index;
              p < |r| && r[..p] == path[..p] && x <= |r[p]| && r[p][..x] == path[p][..x]
    decreases |matches| - i
  {
    if i == |matches| then path
    else
      var later := ReplaceMany(matches, path, i + 1, replacement);
      assert i + 1 < |matches| && matches[i].endPathIndex < matches[i + 1].pathIndex ==>
          later[..matches[i + 1].pathIndex][matches[i].endPathIndex] == path[matches[i].endPathIndex];
      Attach(Front(matches[i], path, replacement), matches[i], later, NextIsBehind(matches, i))
  }

  lemma OneOfMany(m: Match, path: Path, replacement: Selector)
    requires replacement != [] && InPath(m, path)
    ensures ReplaceMany([m], path, 0, replacement) == ReplaceOne(m, path, replacement)
  {
    hide Replacement;
    var tail := path[m.endPathIndex][m.endPathElementIndex..];
    assert ReplaceMany([m], path, 1, replacement) == path;
    assert tail + [] == tail;
  }

  // What the loop does with a selector that was cut by a match, when the next match is in a later one.
  function CutOff(out: Path, path: Path, ci: nat, ce: nat, m: Match): (Path, nat, nat)
    requires ci <= m.pathIndex < |path| && (ce > 0 ==> ce <= |path[ci]| && out != [])
  {
    if m.pathIndex > ci && ce > 0 then (out[|out| - 1 := out[|out| - 1] + path[ci][ce..]], ci + 1, 0) else (out, ci, ce)
  }

  ghost predicate NextOutput(out: Path, out0: Path, path: Path, ci0: nat, ce0: nat, m: Match, replacement: Selector) {
    && replacement != [] && out0 != [] && ci0 <= m.pathIndex < |path| && m.index < |path[m.pathIndex]|
    && (ce0 > 0 ==> ce0 <= |path[ci0]|)
    && var (o, ci, ce) := CutOff(out0, path, ci0, ce0, m);
    ce <= m.index && out == SplicedPath(o, path, ci, ce, m, false, replacement)
  }

  // One turn of the loop moves a match from what follows to the output.
  lemma AttachNext(out: Path, out0: Path, path: Path, ci0: nat, ce0: nat, e: Match, m: Match, x: Selector, y: Path,
                   replacement: Selector)
    requires InPath(e, path) && InPath(m, path) && GoesOn(e, path, ci0, ce0) && 0 < e.endPathElementIndex
    requires NextOutput(out, out0, path, ci0, ce0, m, replacement)
    requires Turn(e, m)
    ensures var later := AppendBoth(Front(m, path, replacement), x, y);
            && e.endPathElementIndex <= |later[e.endPathIndex]|
            && Attach(out0, e, later, m.pathIndex == e.endPathIndex + 1) == AppendBoth(out, x, y)
  {
    hide Replacement;
    var later := AppendBoth(Front(m, path, replacement), x, y);
    var p, k, ei := m.pathIndex, e.endPathIndex, e.endPathElementIndex;
    var f := path[p][..m.index] + Replacement(m.initialCombinator, replacement);
    assert later == path[..p] + [f + x] + y;
    var last, tail := out0[|out0| - 1], path[k][ei..];
    var both := p == k + 1;
    if k == p {
      SameSelector(path[p], ei, m.index, Replacement(m.initialCombinator, replacement), x, last);
      assert later[k + 1..] == y;
    } else {
      assert later[k] == path[k] && (ce0 == 0 ==> tail == []);
      if both {
        JoinedSelector(last, tail, path[p][..m.index], Replacement(m.initialCombinator, replacement), x);
        assert later[k + 2..] == y && later[k + 1] == f + x;
        assert ce0 == 0 ==> last + tail == last;
        assert out == out0[|out0| - 1 := last + tail + f];
      } else {
        assert later[k + 1..] == path[k + 1..p] + [f + x] + y;
        assert tail + [] == tail && (ce0 == 0 ==> last + tail == last);
        assert out == out0[|out0| - 1 := last + tail] + path[k + 1..p] + [f];
        assert AppendBoth(out, x, y) == out0[..|out0| - 1] + [last + tail] + path[k + 1..p] + [f + x] + y;
      }
    }
  }

  lemma SameSelector(s: Selector, ei: nat, i: nat, r: Selector, x: Selector, last: Selector)
    requires ei <= i <= |s|
    ensures last + ((s[..i] + r + x)[ei..] + []) == last + (s[ei..i] + r) + x
  {
    assert (s[..i] + r + x)[ei..] == s[ei..i] + r + x;
    Assoc(last, s[ei..i] + r, x);
  }

  lemma JoinedSelector(last: Selector, a: Selector, b: Selector, r: Selector, x: Selector)
    ensures last + (a + (b + r + x)) == last + a + (b + r) + x
  {
    Assoc(last, a, b + r + x);
    Assoc(last + a, b + r, x);
  }

  // ---------- one turn of the loop ----------

  // One match: what is left in front of it in its selector, and the replacement.
  method SpliceMatch(out0: Path, path: Path, ci: nat, ce: nat, m: Match, first: bool, replacement: Selector,
                     ghost starts: seq<nat>, ghost n: nat, ghost whole: Selector)
    returns (out: Path, ci': nat, ce': nat)
    requires n > 0 && replacement != [] && WellFormed(path) && starts != []
    requires Spliced(out0, path, ci, ce, starts, n, replacement, whole)
    requires RecordOf(m, path, starts[0], n) && (first <==> out0 == [])
    requires ci <= m.pathIndex && (ci == m.pathIndex ==> ce <= m.index) && (ci < m.pathIndex || first ==> ce == 0)
    ensures out != [] && Spliced(out, path, ci', ce', starts[1..], n, replacement, whole)
    ensures first && ci == 0 ==> AfterOne(out, ci', ce', m, path, replacement)
    ensures out == SplicedPath(out0, path, ci, ce, m, first, replacement)
    ensures GoesOn(m, path, ci', ce')
    ensures Offset(path, ci', ce') == starts[0] + n
  {
    hide Flatten, Replace, Replacement, Disjoint;
    MatchReplaced(path, ci, ce, m, starts, n, replacement, Flatten(out0));
    DisjointTail(starts, n, Offset(path, ci, ce), |Flatten(path)|);
    SelectorSlice(path, m.endPathIndex, 0, m.endPathElementIndex);
    assert |Replacement(m.initialCombinator, replacement)| > 0 by {
      ReplacementNotEmpty(m.initialCombinator, replacement);
    }
    var newElements := path[m.pathIndex][ce..m.index] + Replacement(m.initialCombinator, replacement);
    if ci == m.pathIndex && !first {
      out := out0[|out0| - 1 := out0[|out0| - 1] + newElements];
      AppendToLast(out0, newElements);
      NothingBetween(path, ci, Flatten(out0));
    } else {
      out := out0 + path[ci..m.pathIndex] + [newElements];
      AppendSelectors(out0, path[ci..m.pathIndex], newElements);
    }
    ci', ce' := m.endPathIndex, m.endPathElementIndex;
    if ce' >= |path[ci']| {
      ce' := 0;
      ci' := ci' + 1;
    }
  }

  // ---------- the path as it is written out ----------

  // A match in the selector right after the one where the match before it ended is put into the same
  // selector as that one: the selector loses its space if its first element has no combinator.
  predicate LosesSpace(matches: seq<Match>, path: Path, i: nat)
    requires i < |matches| && matches[i].pathIndex < |path| && path[matches[i].pathIndex] != []
  {
    i > 0 && matches[i].pathIndex == matches[i - 1].endPathIndex + 1 && path[matches[i].pathIndex][0].combinator == ""
  }

  ghost predicate NoneLost(matches: seq<Match>, path: Path, n: nat)
    requires n <= |matches| && WellFormed(path) && forall i :: 0 <= i < |matches| ==> matches[i].pathIndex < |path|
  {
    forall i :: 0 <= i < n ==> !LosesSpace(matches, path, i)
  }

  lemma NoneLostNext(matches: seq<Match>, path: Path, i: nat, ci: nat, ce: nat)
    requires i < |matches| && WellFormed(path) && forall k :: 0 <= k < |matches| ==> matches[k].pathIndex < |path|
    requires ReadyFor(ci, ce, matches, i)
    ensures NoneLost(matches, path, i + 1)
         == (NoneLost(matches, path, i)
             && !(i != 0 && ci == matches[i].pathIndex && ce == 0 && path[ci][0].combinator == ""))
  {
    assert i > 0 && ci == matches[i].pathIndex && ce == 0 && path[ci][0].combinator == "" <==>
             LosesSpace(matches, path, i);
  }

  // Where the splicing goes on after a match.
  ghost predicate GoesOn(m: Match, path: Path, ci: nat, ce: nat)
    requires m.endPathIndex < |path|
  {
    if m.endPathElementIndex == |path[m.endPathIndex]| then ci == m.endPathIndex + 1 && ce == 0
    else ci == m.endPathIndex && ce == m.endPathElementIndex
  }

  // The output and the rest, written out, differ from the path with its matches replaced only where
  // a space was lost.
  ghost predicate WrittenSoFar(out: Path, path: Path, p: nat, starts: seq<nat>, n: nat, replacement: Selector,
                               whole: Selector, kept: bool)
    requires n > 0 && replacement != []
  {
    && p <= |Written(path)| && Disjoint(starts, n, p, |Written(path)|)
    && SameFrom(Written(out), Replace(Written(path), p, starts, n, replacement), whole, kept)
  }

  ghost predicate SameFrom(front: Selector, rest: Selector, whole: Selector, kept: bool) {
    && |front + rest| == |whole|
    && (forall j :: |front| <= j < |whole| ==> (front + rest)[j] == whole[j])
    && (kept <==> front + rest == whole)
  }

  lemma SameAfterMoving(front: Selector, x: Selector, rest: Selector, whole: Selector, kept: bool)
    requires SameFrom(front, x + rest, whole, kept)
    ensures SameFrom(front + x, rest, whole, kept)
  {
    Assoc(front, x, rest);
  }

  lemma SameAfterChange(front: Selector, x: Selector, y: Selector, rest: Selector, whole: Selector, kept: bool)
    requires SameFrom(front, x + rest, whole, kept) && |x| == |y| > 0 && x[0] != y[0] && x[1..] == y[1..]
    ensures SameFrom(front + y, rest, whole, false)
  {
    var l := front + y + rest;
    assert (front + (x + rest))[|front|] == x[0] && l[|front|] == y[0];
    forall j | |front + y| <= j < |whole| ensures l[j] == whole[j] {
      assert l[j] == (front + (x + rest))[j];
    }
  }

  lemma NothingSpliced(path: Path, starts: seq<nat>, n: nat, replacement: Selector)
    requires n > 0 && replacement != [] && Disjoint(starts, n, 0, |Written(path)|)
    ensures WrittenSoFar([], path, 0, starts, n, replacement, Replace(Written(path), 0, starts, n, replacement), true)
  {
    hide Replace;
    var all := Replace(Written(path), 0, starts, n, replacement);
    assert Written([]) + all == all;
  }

  lemma FinishWritten(out: Path, path: Path, ci: nat, ce: nat, starts: seq<nat>, n: nat, replacement: Selector,
                      whole: Selector, kept: bool)
    requires n > 0 && replacement != [] && out != [] && WellFormed(out) && ci < |path| && 0 < ce < |path[ci]|
    requires WrittenSoFar(out, path, Offset(path, ci, ce), starts, n, replacement, whole, kept)
    requires Disjoint(starts, n, Offset(path, ci + 1, 0), |Flatten(path)|)
    ensures WrittenSoFar(out[|out| - 1 := out[|out| - 1] + path[ci][ce..]], path, Offset(path, ci + 1, 0), starts, n,
                         replacement, whole, kept)
  {
    hide Flatten, Written, Replace, Disjoint;
    WrittenAppendToLast(out, path[ci][ce..]);
    WrittenLength(path);
    WrittenSelector(path, ci, ce, |path[ci]|);
    SelectorSlice(path, ci, ce, |path[ci]|);
    ReplaceCopies(Written(path), Offset(path, ci, ce), Offset(path, ci + 1, 0), starts, n, replacement);
    SameAfterMoving(Written(out), path[ci][ce..],
                    Replace(Written(path), Offset(path, ci + 1, 0), starts, n, replacement), whole, kept);
  }

  lemma ReplaceNext(flat: Selector, p: nat, starts: seq<nat>, n: nat, replacement: Selector)
    requires n > 0 && replacement != [] && p <= |flat| && Disjoint(starts, n, p, |flat|) && starts != []
    ensures Disjoint(starts[1..], n, starts[0] + n, |flat|) && p <= starts[0] < |flat| && starts[0] + n <= |flat|
    ensures Replace(flat, p, starts, n, replacement)
         == flat[p..starts[0]] + Replacement(flat[starts[0]].combinator, replacement)
            + Replace(flat, starts[0] + n, starts[1..], n, replacement)
  {
    hide Replacement;
    Assoc(flat[p..starts[0]], Replacement(flat[starts[0]].combinator, replacement),
          Replace(flat, starts[0] + n, starts[1..], n, replacement));
  }

  // The combinator of a match as it is written.
  lemma WrittenCombinator(path: Path, k: nat, i: nat)
    requires k < |path| && i < |path[k]|
    ensures Offset(path, k, i) < |Written(path)|
    ensures Written(path)[Offset(path, k, i)].combinator
         == if i == 0 then OrSpace(path[k][0].combinator) else path[k][i].combinator
  {
    hide Written, Flatten;
    WrittenSelector(path, k, i, i + 1);
    var o := Offset(path, k, i);
    assert Written(path)[o..o + 1][0] == Written(path)[o];
  }

  lemma SpacedReplacement(front: Selector, combinator: string, replacement: Selector)
    requires replacement != []
    ensures Spaced(front + Replacement(combinator, replacement))
         == Spaced(front) + Replacement(if front == [] then OrSpace(combinator) else combinator, replacement)
  {
    var r := Replacement(combinator, replacement);
    if front == [] {
      assert front + r == r;
    } else {
      SpacedPush(front, r);
    }
  }

  lemma MatchWritten(out: Path, path: Path, ci: nat, ce: nat, m: Match, first: bool, replacement: Selector,
                     starts: seq<nat>, n: nat, whole: Selector, kept: bool)
    requires n > 0 && replacement != [] && WellFormed(out) && starts != [] && RecordOf(m, path, starts[0], n)
    requires (first <==> out == []) && ci <= m.pathIndex && (ci == m.pathIndex ==> ce <= m.index)
    requires ci < m.pathIndex || first ==> ce == 0
    requires WrittenSoFar(out, path, Offset(path, ci, ce), starts, n, replacement, whole, kept)
    ensures WrittenSoFar(SplicedPath(out, path, ci, ce, m, first, replacement), path, starts[0] + n, starts[1..], n,
                         replacement, whole,
                         kept && !(!first && ci == m.pathIndex && ce == 0 && path[ci][0].combinator == ""))
  {
    hide Flatten, Written, Replace, Disjoint, Spaced, Replacement, SameFrom;
    var k, i := m.pathIndex, m.index;
    var flat, p, r := Written(path), Offset(path, ci, ce), Replacement(m.initialCombinator, replacement);
    ReplaceNext(flat, p, starts, n, replacement);
    var added, rest := path[k][ce..i] + r, Replace(flat, starts[0] + n, starts[1..], n, replacement);
    WrittenGap(path, ci, ce, k, i);
    WrittenCombinator(path, k, i);
    SpacedReplacement(path[k][..i], m.initialCombinator, replacement);
    assert ce == 0 ==> path[k][ce..i] == path[k][..i];
    var written := if ce == 0 then Spaced(added) else added;
    Assoc(Written(path[ci..k]), if ce == 0 then Spaced(path[k][..i]) else path[k][ce..i],
          Replacement(flat[starts[0]].combinator, replacement));
    assert Replace(flat, p, starts, n, replacement) == Written(path[ci..k]) + written + rest;
    if ci == k && !first {
      WrittenAppendToLast(out, added);
      NothingWritten(path, k, written);
      FirstAdded(path[k], ce, i, replacement);
      AppendWritten(Written(out), added, rest, ce, path[k][0].combinator, whole, kept);
    } else {
      WrittenAppend(out, path[ci..k], added);
      Assoc(Written(path[ci..k]), written, rest);
      SameAfterMoving(Written(out), Written(path[ci..k]) + written, rest, whole, kept);
      Assoc(Written(out), Written(path[ci..k]), written);
    }
  }

  lemma FirstAdded(s: Selector, ce: nat, i: nat, replacement: Selector)
    requires ce <= i < |s| && replacement != []
    ensures var added := s[ce..i] + Replacement(s[i].combinator, replacement);
            added != [] && added[0].combinator == s[ce].combinator
  {
  }

  lemma NothingWritten(path: Path, k: nat, s: Selector)
    requires k <= |path|
    ensures Written(path[k..k]) + s == s
  {
    assert path[k..k] == [];
  }

  lemma AppendWritten(front: Selector, added: Selector, rest: Selector, ce: nat, combinator: string, whole: Selector,
                      kept: bool)
    requires added != [] && (ce == 0 ==> added[0].combinator == combinator)
    requires SameFrom(front, (if ce == 0 then Spaced(added) else added) + rest, whole, kept)
    ensures SameFrom(front + added, rest, whole, kept && !(ce == 0 && combinator == ""))
  {
    hide SameFrom;
    if ce == 0 && combinator == "" {
      assert Spaced(added)[0].combinator == " ";
      SameAfterChange(front, Spaced(added), added, rest, whole, kept);
    } else {
      assert ce == 0 ==> Spaced(added) == added;
      SameAfterMoving(front, added, rest, whole, kept);
    }
  }

  lemma LastWritten(out: Path, path: Path, ci: nat, n: nat, replacement: Selector, whole: Selector, kept: bool)
    requires n > 0 && replacement != [] && ci <= |path|
    requires WrittenSoFar(out, path, Offset(path, ci, 0), [], n, replacement, whole, kept)
    ensures kept <==> Written(out + path[ci..]) == whole
  {
    hide Written, Flatten;
    WrittenSlice(path, ci, |path|);
    WrittenConcat(out, path[ci..]);
    assert path[ci..] == path[ci..|path|];
    var flat, p := Written(path), Offset(path, ci, 0);
    assert flat[p..] == flat[p..|flat|];
  }

  // What the loop keeps after i matches.
  ghost predicate SplicedUpTo(out: Path, path: Path, ci: nat, ce: nat, matches: seq<Match>, i: nat,
                              starts: seq<nat>, n: nat, replacement: Selector)
    requires n > 0 && replacement != [] && RecordsOf(matches, path, starts, n) && WellFormed(path) && i <= |matches|
    requires Disjoint(starts, n, 0, |Flatten(path)|) && Disjoint(starts, n, 0, |Written(path)|)
  {
    && (if i == 0 then out == [] && ci == ce == 0 else out != [] && GoesOn(matches[i - 1], path, ci, ce))
    && (i == 1 ==> AfterOne(out, ci, ce, matches[0], path, replacement))
    && Spliced(out, path, ci, ce, starts[i..], n, replacement, Replace(Flatten(path), 0, starts, n, replacement))
    && WrittenSoFar(out, path, Offset(path, ci, ce), starts[i..], n, replacement,
                    Replace(Written(path), 0, starts, n, replacement),
                    NoneLost(matches, path, i))
  }

  // Where match i finds the splicing: in its own selector, or at the start of one.
  ghost predicate ReadyFor(ci: nat, ce: nat, matches: seq<Match>, i: nat)
    requires i < |matches|
  {
    var m := matches[i];
    && ci <= m.pathIndex && (ci == m.pathIndex ==> ce <= m.index) && (ci < m.pathIndex || i == 0 ==> ce == 0)
    && (i > 0 ==> (ci == m.pathIndex && ce == 0 <==> m.pathIndex == matches[i - 1].endPathIndex + 1))
  }

  // The rest of a selector that the match before cut goes to the output first.
  method FinishCut(out0: Path, path: Path, ci0: nat, ce0: nat, matches: seq<Match>, i: nat,
                   ghost replacement: Selector, ghost starts: seq<nat>, ghost n: nat)
    returns (out: Path, ci: nat, ce: nat)
    requires n > 0 && replacement != [] && WellFormed(path) && RecordsOf(matches, path, starts, n) && i < |matches|
    requires Disjoint(starts, n, 0, |Flatten(path)|) && Disjoint(starts, n, 0, |Written(path)|)
    requires SplicedUpTo(out0, path, ci0, ce0, matches, i, starts, n, replacement)
    ensures ReadyFor(ci, ce, matches, i) && (i == 0 <==> out == []) && (i == 0 ==> ci == ce == 0)
    ensures Spliced(out, path, ci, ce, starts[i..], n, replacement, Replace(Flatten(path), 0, starts, n, replacement))
    ensures WrittenSoFar(out, path, Offset(path, ci, ce), starts[i..], n, replacement,
                         Replace(Written(path), 0, starts, n, replacement),
                         NoneLost(matches, path, i))
    ensures i > 0 ==> ci0 <= matches[i].pathIndex && (ce0 > 0 ==> ce0 <= |path[ci0]|)
    ensures i > 0 ==> out0 != [] && (out, ci, ce) == CutOff(out0, path, ci0, ce0, matches[i])
  {
    hide Flatten, Replace, Replacement, ReplaceOne, Written, SameFrom, NoneLost;
    ghost var whole, written := Replace(Flatten(path), 0, starts, n, replacement),
      Replace(Written(path), 0, starts, n, replacement);
    ghost var kept := NoneLost(matches, path, i);
    out, ci, ce := out0, ci0, ce0;
    var m := matches[i];
    assert starts[i..][0] == starts[i];
    OffsetOrder(path, ci, ce, m.pathIndex, m.index);
    if m.pathIndex > ci && ce > 0 {
      NextSelector(path, ci, m.pathIndex, m.index, starts[i..], n, Offset(path, ci, ce));
      FinishWritten(out, path, ci, ce, starts[i..], n, replacement, written, kept);
      out := FinishSelector(out, path, ci, ce, starts[i..], n, replacement, whole);
      ce := 0;
      ci := ci + 1;
    }
  }

  method SpliceNext(out0: Path, path: Path, ci0: nat, ce0: nat, matches: seq<Match>, i: nat, replacement: Selector,
                    ghost starts: seq<nat>, ghost n: nat)
    returns (out: Path, ci: nat, ce: nat)
    requires n > 0 && replacement != [] && WellFormed(path) && RecordsOf(matches, path, starts, n) && i < |matches|
    requires Disjoint(starts, n, 0, |Flatten(path)|) && Disjoint(starts, n, 0, |Written(path)|)
    requires SplicedUpTo(out0, path, ci0, ce0, matches, i, starts, n, replacement)
    ensures SplicedUpTo(out, path, ci, ce, matches, i + 1, starts, n, replacement)
    ensures i > 0 ==> NextOutput(out, out0, path, ci0, ce0, matches[i], replacement)
  {
    hide Flatten, Replace, Replacement, ReplaceOne, Written, SameFrom, SplicedPath, Disjoint, Spliced, WrittenSoFar,
         GoesOn, AfterOne, NoneLost;
    out, ci, ce := FinishCut(out0, path, ci0, ce0, matches, i, replacement, starts, n);
    ghost var kept := NoneLost(matches, path, i);
    var m := matches[i];
    ghost var whole, written := Replace(Flatten(path), 0, starts, n, replacement),
      Replace(Written(path), 0, starts, n, replacement);
    assert starts[i..][0] == starts[i] && starts[i..][1..] == starts[i + 1..];
    SplicedIsWellFormed(out, path, ci, ce, starts[i..], n, replacement, whole);
    MatchWritten(out, path, ci, ce, m, i == 0, replacement, starts[i..], n, written, kept);
    NoneLostNext(matches, path, i, ci, ce);
    out, ci, ce := SpliceMatch(out, path, ci, ce, m, i == 0, replacement, starts[i..], n, whole);
  }

  lemma SplicedIsWellFormed(out: Path, path: Path, ci: nat, ce: nat, starts: seq<nat>, n: nat, replacement: Selector,
                            whole: Selector)
    requires n > 0 && replacement != [] && Spliced(out, path, ci, ce, starts, n, replacement, whole)
    ensures WellFormed(out)
  {
  }

  // What is left behind the last match.
  method SpliceRest(out0: Path, path: Path, ci0: nat, ce0: nat, ghost n: nat, ghost replacement: Selector,
                    ghost whole: Selector, ghost written: Selector, ghost kept: bool)
    returns (out: Path)
    requires n > 0 && replacement != [] && WellFormed(path) && (ce0 > 0 ==> out0 != [])
    requires Spliced(out0, path, ci0, ce0, [], n, replacement, whole)
    requires WrittenSoFar(out0, path, Offset(path, ci0, ce0), [], n, replacement, written, kept)
    ensures WellFormed(out) && Flatten(out) == whole && (Written(out) == written <==> kept)
    ensures out == if ce0 == 0 then out0 + path[ci0..]
                   else out0[|out0| - 1 := out0[|out0| - 1] + path[ci0][ce0..]] + path[ci0 + 1..]
  {
    hide Flatten, Replace, Written, SameFrom;
    var ci, ce := ci0, ce0;
    out := out0;
    if ci < |path| && ce > 0 {
      OffsetGrows(path, ci + 1, |path|);
      FinishWritten(out, path, ci, ce, [], n, replacement, written, kept);
      out := FinishSelector(out, path, ci, ce, [], n, replacement, whole);
      ce := 0;
      ci := ci + 1;
    }
    LastSelectors(out, path, ci, n, replacement, whole);
    LastWritten(out, path, ci, n, replacement, written, kept);
    out := out + path[ci..];
  }

  // Matches in order and apart are in turn.
  lemma RecordsInTurn(matches: seq<Match>, path: Path, starts: seq<nat>, n: nat)
    requires WellFormed(path) && RecordsOf(matches, path, starts, n) && Disjoint(starts, n, 0, |Flatten(path)|)
    ensures InTurn(matches, path)
  {
    hide Flatten, Offset, WellFormed;
    forall i | 0 < i < |matches| ensures Turn(matches[i - 1], matches[i]) {
      RecordInTurn(matches[i - 1], matches[i], path, starts[i - 1], starts[i], n);
    }
  }

  lemma RecordInTurn(e: Match, m: Match, path: Path, s: nat, s': nat, n: nat)
    requires WellFormed(path) && RecordOf(e, path, s, n) && RecordOf(m, path, s', n) && s + n <= s'
    ensures Turn(e, m)
  {
    hide Flatten;
    if e.endPathElementIndex < |path[e.endPathIndex]| {
      OffsetOrder(path, e.endPathIndex, e.endPathElementIndex, m.pathIndex, m.index);
    } else {
      SelectorSlice(path, e.endPathIndex, 0, 0);
      OffsetOrder(path, e.endPathIndex + 1, 0, m.pathIndex, m.index);
    }
  }

  // What the output will be once what follows match i - 1 is attached to it.
  ghost predicate ManySoFar(out: Path, matches: seq<Match>, path: Path, i: nat, replacement: Selector)
    requires replacement != [] && InTurn(matches, path) && 0 < i <= |matches|
  {
    var e, later, both := matches[i - 1], ReplaceMany(matches, path, i, replacement), NextIsBehind(matches, i - 1);
    && out != [] && e.endPathIndex + (if both then 1 else 0) < |later|
    && e.endPathElementIndex <= |later[e.endPathIndex]|
    && Attach(out, e, later, both) == ReplaceMany(matches, path, 0, replacement)
  }

  lemma ManyStarts(out: Path, ci: nat, ce: nat, matches: seq<Match>, path: Path, replacement: Selector)
    requires replacement != [] && InTurn(matches, path) && matches != []
    requires AfterOne(out, ci, ce, matches[0], path, replacement)
    ensures ManySoFar(out, matches, path, 1, replacement)
  {
    hide Replacement, Attach;
    assert out == Front(matches[0], path, replacement);
    AttachesLater(matches, path, 0, replacement);
  }

  lemma AttachesLater(matches: seq<Match>, path: Path, i: nat, replacement: Selector)
    requires replacement != [] && InTurn(matches, path) && i < |matches|
    ensures var e, later := matches[i], ReplaceMany(matches, path, i + 1, replacement);
            var both := NextIsBehind(matches, i);
            && e.endPathIndex + (if both then 1 else 0) < |later| && e.endPathElementIndex <= |later[e.endPathIndex]|
            && ReplaceMany(matches, path, i, replacement) == Attach(Front(e, path, replacement), e, later, both)
  {
    hide Attach, Front;
    var later := ReplaceMany(matches, path, i + 1, replacement);
    if i + 1 < |matches| && matches[i].endPathIndex < matches[i + 1].pathIndex {
      assert later[..matches[i + 1].pathIndex][matches[i].endPathIndex] == path[matches[i].endPathIndex];
    }
  }

  lemma ManyGoOn(out: Path, out0: Path, path: Path, ci0: nat, ce0: nat, matches: seq<Match>, i: nat,
                 replacement: Selector)
    requires replacement != [] && InTurn(matches, path) && 0 < i < |matches|
    requires 0 < matches[i - 1].endPathElementIndex && GoesOn(matches[i - 1], path, ci0, ce0)
    requires ManySoFar(out0, matches, path, i, replacement)
    requires NextOutput(out, out0, path, ci0, ce0, matches[i], replacement)
    ensures out != [] ==> ManySoFar(out, matches, path, i + 1, replacement)
  {
    hide Front, Replacement, NextOutput, ReplaceMany, InTurn;
    var e, m, both := matches[i - 1], matches[i], NextIsBehind(matches, i);
    var later := ReplaceMany(matches, path, i + 1, replacement);
    AttachesLater(matches, path, i, replacement);
    var x := later[m.endPathIndex][m.endPathElementIndex..] + if both then later[m.endPathIndex + 1] else [];
    var y := later[m.endPathIndex + (if both then 2 else 1)..];
    Neighbours(matches, path, i);
    AttachNext(out, out0, path, ci0, ce0, e, m, x, y, replacement);
  }

  lemma Neighbours(matches: seq<Match>, path: Path, i: nat)
    requires InTurn(matches, path) && 0 < i < |matches|
    ensures InPath(matches[i - 1], path) && InPath(matches[i], path) && Turn(matches[i - 1], matches[i])
  {
  }

  lemma AllReplaced(matches: seq<Match>, path: Path, replacement: Selector)
    requires replacement != [] && InTurn(matches, path)
    ensures ReplaceMany(matches, path, |matches|, replacement) == path
  {
  }

  lemma ManyEnd(out: Path, out0: Path, path: Path, ci: nat, ce: nat, matches: seq<Match>, replacement: Selector)
    requires replacement != [] && InTurn(matches, path) && matches != []
    requires GoesOn(matches[|matches| - 1], path, ci, ce) && 0 < matches[|matches| - 1].endPathElementIndex
    requires ManySoFar(out0, matches, path, |matches|, replacement)
    requires out == if ce == 0 then out0 + path[ci..]
                    else out0[|out0| - 1 := out0[|out0| - 1] + path[ci][ce..]] + path[ci + 1..]
    ensures out == ReplaceMany(matches, path, 0, replacement)
  {
    hide Front, ReplaceMany, InTurn;
    AllReplaced(matches, path, replacement);
    var e := matches[|matches| - 1];
    var tail, last := path[e.endPathIndex][e.endPathElementIndex..], out0[|out0| - 1];
    assert tail + [] == tail && (ce == 0 ==> tail == [] && last + tail == last);
  }

  // Every match is replaced: the result flattens to the flattened path with each match replaced. As it
  // is written out it is the path with each match replaced exactly when no selector lost its space. The
  // selectors are those of ReplaceMany.
  method ExtendSelector(matches: seq<Match>, path: Path, replacement: Selector, ghost starts: seq<nat>, ghost n: nat)
    returns (out: Path)
    requires n > 0 && replacement != [] && WellFormed(path)
    requires RecordsOf(matches, path, starts, n) && Disjoint(starts, n, 0, |Flatten(path)|)
    ensures WellFormed(out)
    ensures Flatten(out) == Replace(Flatten(path), 0, starts, n, replacement)
    ensures InTurn(matches, path) && out == ReplaceMany(matches, path, 0, replacement)
    ensures |matches| == 1 ==> out == ReplaceOne(matches[0], path, replacement)
    ensures Disjoint(starts, n, 0, |Written(path)|)
    ensures Written(out) == Replace(Written(path), 0, starts, n, replacement)
            <==> NoneLost(matches, path, |matches|)
  {
    hide Flatten, Replace, Replacement, ReplaceOne, Written, SameFrom, SplicedPath, LosesSpace, Disjoint,
         ReplaceMany, ManySoFar, InTurn, NextOutput, WrittenSoFar, AfterOne;
    RecordsInTurn(matches, path, starts, n);
    WrittenLength(path);
    NothingSpliced(path, starts, n, replacement);
    assert starts[0..] == starts;
    var ci: nat, ce: nat := 0, 0;
    out := [];
    OffsetOfStart(path);
    for i := 0 to |matches|
      invariant SplicedUpTo(out, path, ci, ce, matches, i, starts, n, replacement)
      invariant i > 0 ==> ManySoFar(out, matches, path, i, replacement)
    {
      ghost var out0, ci0, ce0 := out, ci, ce;
      out, ci, ce := SpliceNext(out, path, ci, ce, matches, i, replacement, starts, n);
      if i == 0 {
        ManyStarts(out, ci, ce, matches, path, replacement);
      } else {
        assert RecordOf(matches[i - 1], path, starts[i - 1], n);
        ManyGoOn(out, out0, path, ci0, ce0, matches, i, replacement);
      }
    }
    ghost var out0 := out;
    if |matches| == 1 {
      OneReplaced(out, ci, ce, matches[0], path, replacement);
    }
    assert starts[|matches|..] == [];
    out := SpliceRest(out, path, ci, ce, n, replacement, Replace(Flatten(path), 0, starts, n, replacement),
                      Replace(Written(path), 0, starts, n, replacement), NoneLost(matches, path, |matches|));
    if matches != [] {
      assert RecordOf(matches[|matches| - 1], path, starts[|matches| - 1], n);
      ManyEnd(out, out0, path, ci, ce, matches, replacement);
    } else {
      NoneOfMany(path, replacement);
    }
  }

  lemma NoneOfMany(path: Path, replacement: Selector)
    requires replacement != []
    ensures ReplaceMany([], path, 0, replacement) == path == [] + path[0..]
  {
  }

  // The next match is past the selector that was cut.
  lemma NextSelector(path: Path, ci: nat, k: nat, i: nat, starts: seq<nat>, n: nat, p: nat)
    requires ci < k < |path| && i < |path[k]| && starts != [] && starts[0] == Offset(path, k, i)
    requires Disjoint(starts, n, p, |Flatten(path)|)
    ensures Disjoint(starts, n, Offset(path, ci + 1, 0), |Flatten(path)|)
  {
    hide Flatten;
    OffsetGrows(path, ci + 1, k);
  }

  lemma LastSelectors(out: Path, path: Path, ci: nat, n: nat, replacement: Selector, whole: Selector)
    requires n > 0 && replacement != [] && WellFormed(path) && Spliced(out, path, ci, 0, [], n, replacement, whole)
    ensures WellFormed(out + path[ci..]) && Flatten(out + path[ci..]) == whole
  {
    hide Flatten;
    OffsetGrows(path, ci, |path|);
    FlattenConcat(out, path[ci..]);
    assert path[ci..] == path[ci..|path|];
  }

  // ---------- the whole extension ----------

  // Finding and replacing: the flattened result is the flattened path with its leftmost,
  // non-overlapping matches replaced, whichever selectors they lie in.
  method Extended(x: Extend, path: Path, replacement: Selector) returns (matches: seq<Match>, out: Path)
    requires x.needle != [] && replacement != [] && WellFormed(path)
    ensures Disjoint(Greedy(x, path, 0), |x.needle|, 0, |Flatten(path)|)
    ensures RecordsOf(matches, path, Greedy(x, path, 0), |x.needle|)
    ensures WellFormed(out)
    ensures Flatten(out) == Replace(Flatten(path), 0, Greedy(x, path, 0), |x.needle|, replacement)
    ensures InTurn(matches, path) && out == ReplaceMany(matches, path, 0, replacement)
    ensures Disjoint(Greedy(x, path, 0), |x.needle|, 0, |Written(path)|)
    ensures Written(out) == Replace(Written(path), 0, Greedy(x, path, 0), |x.needle|, replacement)
            <==> NoneLost(matches, path, |matches|)
  {
    GreedyFits(x, path);
    matches := FindMatch(x, path);
    out := ExtendSelector(matches, path, replacement, Greedy(x, path, 0), |x.needle|);
  }

  // It happens: of ".a .a", both elements matched, the second selector loses its space.
  lemma SpaceCanBeLost(a: Value)
    ensures var e := Element("", a);
            var path, m, m' := [[e], [e]], Match(0, 0, 1, "", 0, 1), Match(1, 0, 1, "", 1, 1);
            && RecordsOf([m, m'], path, [0, 1], 1) && Disjoint([0, 1], 1, 0, |Flatten(path)|)
            && !NoneLost([m, m'], path, 2)
  {
    var e := Element("", a);
    var path := [[e], [e]];
    assert path[..0] == [] && path[..1] == [[e]] && path[1..] == [[e]] && [[e]][1..] == [];
    assert Flatten([[e]]) == [e] && Flatten(path) == [e] + [e];
    var m, m' := Match(0, 0, 1, "", 0, 1), Match(1, 0, 1, "", 1, 1);
    assert LosesSpace([m, m'], path, 1);
  }

  lemma GreedyFits(x: Extend, path: Path)
    requires x.needle != []
    ensures Disjoint(Greedy(x, path, 0), |x.needle|, 0, |Flatten(path)|)
  {
    hide Flatten, Targets;
    GreedyIsDisjoint(x, path, 0);
    forall i | 0 <= i < |Greedy(x, path, 0)| ensures Greedy(x, path, 0)[i] + |x.needle| <= |Flatten(path)| {
      assert Greedy(x, path, 0)[i] in Greedy(x, path, 0);
    }
  }
}
