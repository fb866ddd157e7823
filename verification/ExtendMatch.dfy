// Finding the target of an ":extend" in a selector path, as the extend visitor of LESS does
// (extra/lesscss/less-rhino-1.7.0.js, findMatch and isElementValuesEqual).
module ExtendMatch {
  import opened Sequences

  // A value is a text, an attribute test or a selector in parentheses; an attribute without an
  // operator or an operand has the empty string there.
  datatype Value =
    | Text(text: string)
    | Attribute(key: string, op: string, operand: string)
    | Paren(elements: seq<Element>)

  datatype Element = Element(combinator: string, value: Value)

  type Selector = seq<Element>
  type Path = seq<Selector>

  // ---------- equality of element values ----------

  // Inside parentheses, a missing combinator and a space are the same in front of the first element.
  predicate ValuesEqual(a: Value, b: Value)
    decreases a
  {
    match a
    case Text(t) => b.Text? && t == b.text
    case Attribute(key, op, operand) => b.Attribute? && op == b.op && key == b.key && operand == b.operand
    case Paren(es) =>
      && b.Paren? && |es| == |b.elements|
      && forall i :: 0 <= i < |es| ==>
           && (es[i].combinator == b.elements[i].combinator
               || (i == 0 && OrSpace(es[i].combinator) == OrSpace(b.elements[i].combinator)))
           && ValuesEqual(es[i].value, b.elements[i].value)
  }

  function OrSpace(combinator: string): string {
    if combinator == "" then " " else combinator
  }

  // ---------- the flattened path ----------

  function Flatten(path: Path): Selector {
    if path == [] then [] else path[0] + Flatten(path[1..])
  }

  // The combinator that a path element ends up with: the first of a selector gets a space.
  function TargetCombinators(s: Selector): seq<string> {
    seq(|s|, i requires 0 <= i < |s| => if i == 0 then OrSpace(s[i].combinator) else s[i].combinator)
  }

  function Targets(path: Path): seq<string> {
    if path == [] then [] else TargetCombinators(path[0]) + Targets(path[1..])
  }

  // The place in the flattened path of element i of selector k.
  function Offset(path: Path, k: nat, i: nat): nat
    requires k <= |path|
  {
    |Flatten(path[..k])| + i
  }

  // Selectors are never empty.
  ghost predicate WellFormed(path: Path) {
    forall k :: 0 <= k < |path| ==> path[k] != []
  }

  lemma {:induction false} FlattenConcat(a: Path, b: Path)
    ensures Flatten(a + b) == Flatten(a) + Flatten(b)
    ensures Targets(a + b) == Targets(a) + Targets(b)
  {
    hide TargetCombinators, Flatten, Targets;
    if a == [] {
      assert a + b == b;
      FlattenEmpty();
    } else {
      FlattenConcat(a[1..], b);
      assert (a + b)[1..] == a[1..] + b && (a + b)[0] == a[0];
      FlattenHead(a);
      FlattenHead(a + b);
      Assoc(a[0], Flatten(a[1..]), Flatten(b));
      Assoc(TargetCombinators(a[0]), Targets(a[1..]), Targets(b));
    }
  }

  lemma FlattenEmpty()
    ensures Flatten([]) == [] && Targets([]) == []
  {
  }

  lemma FlattenHead(path: Path)
    requires path != []
    ensures Flatten(path) == path[0] + Flatten(path[1..])
    ensures Targets(path) == TargetCombinators(path[0]) + Targets(path[1..])
  {
  }

  lemma {:induction false} TargetsLength(path: Path)
    ensures |Targets(path)| == |Flatten(path)|
  {
    if path != [] {
      TargetsLength(path[1..]);
    }
  }

  // Selector k sits in the flattened path between what is before it and what is after it.
  lemma SplitAt(path: Path, k: nat)
    requires k < |path|
    ensures Flatten(path) == Flatten(path[..k]) + path[k] + Flatten(path[k + 1..])
    ensures Flatten(path[..k + 1]) == Flatten(path[..k]) + path[k]
  {
    hide Flatten;
    Around(path, k);
    FlattenAround(path[..k], path[k], path[k + 1..]);
  }

  lemma SplitTargets(path: Path, k: nat)
    requires k < |path|
    ensures Targets(path) == Targets(path[..k]) + TargetCombinators(path[k]) + Targets(path[k + 1..])
  {
    hide TargetCombinators, Targets;
    Around(path, k);
    FlattenAround(path[..k], path[k], path[k + 1..]);
  }

  lemma FlattenAround(a: Path, s: Selector, b: Path)
    ensures Flatten(a + [s]) == Flatten(a) + s
    ensures Flatten(a + [s] + b) == Flatten(a) + s + Flatten(b)
    ensures Targets(a + [s] + b) == Targets(a) + TargetCombinators(s) + Targets(b)
  {
    hide TargetCombinators, Flatten, Targets;
    FlattenOne(s);
    FlattenConcat(a, [s]);
    FlattenConcat(a + [s], b);
  }

  lemma FlattenOne(s: Selector)
    ensures Flatten([s]) == s && Targets([s]) == TargetCombinators(s)
  {
    hide TargetCombinators;
  }

  lemma OffsetOfStart(path: Path)
    ensures Offset(path, 0, 0) == 0
  {
  }

  // Element i of selector k is where Offset says.
  lemma ElementAtOffset(path: Path, k: nat, i: nat)
    requires k < |path| && i < |path[k]|
    ensures |Targets(path)| == |Flatten(path)|
    ensures Offset(path, k, i) < |Flatten(path)|
    ensures Flatten(path)[Offset(path, k, i)] == path[k][i]
    ensures Targets(path)[Offset(path, k, i)] == TargetCombinators(path[k])[i]
    ensures Offset(path, k + 1, 0) == Offset(path, k, |path[k]|)
  {
    hide Flatten, Targets;
    TargetsLength(path);
    TargetsLength(path[..k]);
    SplitAt(path, k);
    SplitTargets(path, k);
    assert |TargetCombinators(path[k])| == |path[k]|;
  }

  // Only the very first element is at 0, and only the very last one at the end.
  lemma EndsOfPath(path: Path, k: nat, i: nat)
    requires k < |path| && i < |path[k]| && WellFormed(path)
    ensures Offset(path, k, i) == 0 <==> k == 0 && i == 0
    ensures Offset(path, k, i) + 1 == |Flatten(path)| <==> k + 1 == |path| && i + 1 == |path[k]|
  {
    SplitAt(path, k);
    if k > 0 {
      NonEmpty(path[..k]);
    } else {
      assert path[..k] == [];
    }
    if k + 1 < |path| {
      NonEmpty(path[k + 1..]);
    } else {
      assert path[k + 1..] == [];
    }
  }

  lemma NonEmpty(path: Path)
    requires WellFormed(path) && path != []
    ensures Flatten(path) != []
  {
  }

  // ---------- what a match is ----------

  datatype Extend = Extend(needle: Selector, allowBefore: bool, allowAfter: bool)

  // The first n elements of the needle agree with the path from s on.
  ghost predicate Agrees(needle: Selector, path: Path, s: nat, n: nat)
    requires n <= |needle|
  {
    && s + n <= |Flatten(path)| == |Targets(path)|
    && forall j :: 0 <= j < n ==>
         && ValuesEqual(needle[j].value, Flatten(path)[s + j].value)
         && (j > 0 ==> needle[j].combinator == Targets(path)[s + j])
  }

  // The needle occurs at s, where the option allows it.
  ghost predicate MatchAt(x: Extend, path: Path, s: nat) {
    && Agrees(x.needle, path, s, |x.needle|)
    && (x.allowBefore || s == 0)
    && (x.allowAfter || s + |x.needle| == |Flatten(path)|)
  }

  // The leftmost match from p on, then the leftmost after its end, and so on.
  ghost function Greedy(x: Extend, path: Path, p: nat): seq<nat>
    requires x.needle != []
    decreases |Flatten(path)| - p
  {
    if p >= |Flatten(path)| then []
    else if MatchAt(x, path, p) then [p] + Greedy(x, path, p + |x.needle|)
    else Greedy(x, path, p + 1)
  }

  lemma PrependStarts(p: nat, n: nat, rest: seq<nat>)
    requires forall s :: s in rest ==> p + n <= s
    requires forall i, j :: 0 <= i < j < |rest| ==> rest[i] + n <= rest[j]
    ensures forall i, j :: 0 <= i < j < |rest| + 1 ==> ([p] + rest)[i] + n <= ([p] + rest)[j]
  {
    forall j | 0 <= j < |rest| ensures p + n <= rest[j] {
      assert rest[j] in rest;
    }
  }

  lemma MatchesAreInside(x: Extend, path: Path)
    requires x.needle != []
    ensures forall s: nat :: MatchAt(x, path, s) ==> s < |Flatten(path)|
  {
  }

  // The chosen matches are matches and none overlaps another.
  lemma {:induction false} GreedyIsDisjoint(x: Extend, path: Path, p: nat)
    requires x.needle != []
    ensures forall s :: s in Greedy(x, path, p) ==> p <= s && MatchAt(x, path, s)
    ensures forall i, j ::
              0 <= i < j < |Greedy(x, path, p)| ==> Greedy(x, path, p)[i] + |x.needle| <= Greedy(x, path, p)[j]
    decreases |Flatten(path)| - p
  {
    hide MatchAt, Flatten;
    if p < |Flatten(path)| {
      if MatchAt(x, path, p) {
        GreedyIsDisjoint(x, path, p + |x.needle|);
        PrependStarts(p, |x.needle|, Greedy(x, path, p + |x.needle|));
      } else {
        GreedyIsDisjoint(x, path, p + 1);
      }
    }
  }

  lemma GreedyStep(x: Extend, path: Path, p: nat)
    requires x.needle != [] && p < |Flatten(path)|
    ensures MatchAt(x, path, p) ==> p in Greedy(x, path, p)
    ensures forall t :: t in Greedy(x, path, p + if MatchAt(x, path, p) then |x.needle| else 1) ==>
                          t in Greedy(x, path, p)
  {
    hide MatchAt, Flatten;
  }

  lemma MatchIsInside(x: Extend, path: Path, s: nat)
    requires x.needle != [] && MatchAt(x, path, s)
    ensures s < |Flatten(path)|
  {
    hide MatchAt, Flatten;
    MatchesAreInside(x, path);
  }

  // A match that was not chosen overlaps a chosen one that starts before it.
  lemma {:induction false} GreedyIsMaximal(x: Extend, path: Path, p: nat, s: nat) returns (t: nat)
    requires x.needle != [] && p <= s && MatchAt(x, path, s)
    ensures t in Greedy(x, path, p) && t <= s < t + |x.needle|
    decreases |Flatten(path)| - p
  {
    hide MatchAt, Flatten, Greedy;
    MatchIsInside(x, path, s);
    GreedyStep(x, path, p);
    if MatchAt(x, path, p) {
      if s < p + |x.needle| {
        t := p;
      } else {
        t := GreedyIsMaximal(x, path, p + |x.needle|, s);
      }
    } else {
      t := GreedyIsMaximal(x, path, p + 1, s);
    }
  }

  // Positions without a match can be skipped.
  lemma {:induction false} GreedySkips(x: Extend, path: Path, p: nat, s: nat)
    requires x.needle != [] && p <= s
    requires forall q :: p <= q < s ==> !MatchAt(x, path, q)
    ensures Greedy(x, path, p) == Greedy(x, path, s)
    decreases s - p
  {
    if p < s && p < |Flatten(path)| {
      GreedySkips(x, path, p + 1, s);
    }
  }

  // ---------- the search ----------

  // A match record; while the match is being found, the last two fields are not used yet.
  datatype Match = Match(pathIndex: nat, index: nat, matched: nat, initialCombinator: string,
                         endPathIndex: nat, endPathElementIndex: nat)

  // The record names the element at s of the path as its first.
  ghost predicate StartsAt(m: Match, path: Path, s: nat) {
    && m.pathIndex < |path| && m.index < |path[m.pathIndex]|
    && Offset(path, m.pathIndex, m.index) == s
    && m.initialCombinator == path[m.pathIndex][m.index].combinator
  }

  // The record is that of a needle of n elements at s: its end is one past its last element.
  ghost predicate RecordOf(m: Match, path: Path, s: nat, n: nat) {
    && StartsAt(m, path, s) && m.matched == n
    && m.endPathIndex < |path| && 0 < m.endPathElementIndex <= |path[m.endPathIndex]|
    && Offset(path, m.endPathIndex, m.endPathElementIndex) == s + n
  }

  ghost predicate RecordsOf(ms: seq<Match>, path: Path, starts: seq<nat>, n: nat) {
    |ms| == |starts| && forall i :: 0 <= i < |ms| ==> RecordOf(ms[i], path, starts[i], n)
  }

  // A start that is still being matched when the elements before p have been looked at.
  ghost predicate Candidate(x: Extend, path: Path, s: nat, p: nat) {
    && s <= p < s + |x.needle|
    && (x.allowBefore || s == 0)
    && Agrees(x.needle, path, s, p - s)
  }

  // The records in ms are those of starts, in ascending order, matched up to p.
  ghost predicate Tracks(ms: seq<Match>, starts: seq<nat>, path: Path, p: nat) {
    && |ms| == |starts|
    && (forall i :: 0 <= i < |ms| ==> StartsAt(ms[i], path, starts[i]) && ms[i].matched + starts[i] == p)
    && (forall i, j :: 0 <= i < j < |starts| ==> starts[i] < starts[j])
  }

  // The potential matches are the candidates from lo up to hi.
  ghost predicate Potentials(ms: seq<Match>, starts: seq<nat>, x: Extend, path: Path, lo: nat, hi: nat, p: nat) {
    && Tracks(ms, starts, path, p)
    && (forall s :: s in starts <==> lo <= s < hi && Candidate(x, path, s, p))
  }

  // Whether the next element of the needle agrees with element i of selector k.
  predicate ElementMatches(needle: Selector, matched: nat, path: Path, k: nat, i: nat)
    requires matched < |needle| && k < |path| && i < |path[k]|
  {
    var e := path[k][i];
    var target := if e.combinator == "" && i == 0 then " " else e.combinator;
    ValuesEqual(needle[matched].value, e.value) && !(matched > 0 && needle[matched].combinator != target)
  }

  lemma AgreesOneMore(needle: Selector, path: Path, s: nat, matched: nat, k: nat, i: nat)
    requires matched < |needle| && k < |path| && i < |path[k]| && s + matched == Offset(path, k, i)
    ensures Agrees(needle, path, s, matched + 1) <==>
              Agrees(needle, path, s, matched) && ElementMatches(needle, matched, path, k, i)
  {
    hide ValuesEqual, Flatten, Targets;
    ElementAtOffset(path, k, i);
  }

  lemma MatchWasCandidate(x: Extend, path: Path, s: nat, p: nat)
    requires MatchAt(x, path, s) && s <= p < s + |x.needle|
    ensures Candidate(x, path, s, p)
  {
    hide ValuesEqual, Flatten, Targets;
  }

  datatype Outcome = Dropped | Advanced(advanced: Match) | Complete(complete: Match)

  // What the next element of the path does to one potential match.
  method TryPotential(x: Extend, path: Path, k: nat, i: nat, m: Match, ghost s: nat) returns (o: Outcome)
    requires x.needle != [] && WellFormed(path) && k < |path| && i < |path[k]|
    requires StartsAt(m, path, s) && m.matched + s == Offset(path, k, i) && Candidate(x, path, s, Offset(path, k, i))
    ensures o.Advanced? <==> Candidate(x, path, s, Offset(path, k, i) + 1)
    ensures o.Complete? <==> MatchAt(x, path, s) && s + |x.needle| == Offset(path, k, i) + 1
    ensures o.Advanced? ==> o.advanced == m.(matched := m.matched + 1)
    ensures o.Complete? ==> RecordOf(o.complete, path, s, |x.needle|)
  {
    hide ValuesEqual, Flatten, Targets, ElementMatches, Agrees;
    AgreesOneMore(x.needle, path, s, m.matched, k, i);
    EndsOfPath(path, k, i);
    if !ElementMatches(x.needle, m.matched, path, k, i) {
      return Dropped;
    }
    var m' := m.(matched := m.matched + 1);
    var finished := m'.matched == |x.needle|;
    if finished && !x.allowAfter && (i + 1 < |path[k]| || k + 1 < |path|) {
      return Dropped;
    }
    if finished {
      return Complete(m'.(endPathIndex := k, endPathElementIndex := i + 1));
    }
    return Advanced(m');
  }

  // The first records of the list have been advanced past p, the others still stand at p.
  ghost predicate Progress(ms: seq<Match>, q: nat, c: nat, starts: seq<nat>, ms0: seq<Match>, starts0: seq<nat>,
                           x: Extend, path: Path, p: nat) {
    && q <= c <= |starts0| == |ms0| && |ms| == q + |starts0| - c && |starts| == q
    && ms[q..] == ms0[c..]
    && (forall j :: 0 <= j < q ==> StartsAt(ms[j], path, starts[j]) && ms[j].matched + starts[j] == p + 1)
    && (forall i, j :: 0 <= i < j < q ==> starts[i] < starts[j])
    && (forall s :: s in starts <==> s in starts0[..c] && Candidate(x, path, s, p + 1))
    && (forall s :: s in starts0[..c] && s + |x.needle| == p + 1 ==> !MatchAt(x, path, s))
  }

  lemma Keep(ms: seq<Match>, q: nat, c: nat, starts: seq<nat>, ms0: seq<Match>, starts0: seq<nat>,
             x: Extend, path: Path, p: nat, m: Match)
    requires Progress(ms, q, c, starts, ms0, starts0, x, path, p) && Tracks(ms0, starts0, path, p) && c < |starts0|
    requires m == ms0[c].(matched := ms0[c].matched + 1) && Candidate(x, path, starts0[c], p + 1)
    requires !(MatchAt(x, path, starts0[c]) && starts0[c] + |x.needle| == p + 1)
    ensures Progress(ms[..q] + [m] + ms[q + 1..], q + 1, c + 1, starts + [starts0[c]], ms0, starts0, x, path, p)
  {
    hide Candidate, MatchAt;
    assert starts0[..c + 1] == starts0[..c] + [starts0[c]];
    assert ms[q..][1..] == ms0[c..][1..] == ms0[c + 1..];
    forall j | 0 <= j < q ensures starts[j] < starts0[c] {
      assert starts[j] in starts0[..c];
    }
  }

  lemma Drop(ms: seq<Match>, q: nat, c: nat, starts: seq<nat>, ms0: seq<Match>, starts0: seq<nat>,
             x: Extend, path: Path, p: nat)
    requires Progress(ms, q, c, starts, ms0, starts0, x, path, p) && c < |starts0|
    requires !Candidate(x, path, starts0[c], p + 1)
    requires !(MatchAt(x, path, starts0[c]) && starts0[c] + |x.needle| == p + 1)
    ensures Progress(ms[..q] + ms[q + 1..], q, c + 1, starts, ms0, starts0, x, path, p)
  {
    hide Candidate, MatchAt;
    assert starts0[..c + 1] == starts0[..c] + [starts0[c]];
    assert ms[q..][1..] == ms0[c..][1..] == ms0[c + 1..];
  }

  // One element of the path: every potential match is advanced, dropped, or found to be complete.
  // A complete one clears the list, since matches do not overlap.
  method TryElement(x: Extend, path: Path, k: nat, i: nat, potentials0: seq<Match>, ghost starts0: seq<nat>,
                    ghost lo: nat)
    returns (potentials: seq<Match>, found: seq<Match>, ghost starts: seq<nat>)
    requires x.needle != [] && WellFormed(path) && k < |path| && i < |path[k]|
    requires Potentials(potentials0, starts0, x, path, lo, Offset(path, k, i) + 1, Offset(path, k, i))
    ensures var p := Offset(path, k, i);
            || (found == []
                && Potentials(potentials, starts, x, path, lo, p + 1, p + 1)
                && forall s :: lo <= s && s + |x.needle| == p + 1 ==> !MatchAt(x, path, s))
            || (potentials == [] && |found| == 1 && p + 1 >= |x.needle| + lo
                && MatchAt(x, path, p + 1 - |x.needle|) && RecordOf(found[0], path, p + 1 - |x.needle|, |x.needle|))
  {
    hide Offset, Candidate, MatchAt, StartsAt, RecordOf;
    ghost var p := Offset(path, k, i);
    potentials, found, starts := potentials0, [], [];
    var q := 0;
    ghost var c := 0;  // how many of the potential matches have been looked at
    while q < |potentials|
      invariant Progress(potentials, q, c, starts, potentials0, starts0, x, path, p)
      decreases |potentials| - q
    {
      var m := potentials[q];
      assert m == potentials[q..][0] == potentials0[c];
      assert starts0[c] in starts0;
      var o := TryPotential(x, path, k, i, m, starts0[c]);
      match o {
        case Complete(done) =>
          return [], [done], [];
        case Advanced(m') =>
          Keep(potentials, q, c, starts, potentials0, starts0, x, path, p, m');
          potentials := potentials[..q] + [m'] + potentials[q + 1..];
          starts := starts + [starts0[c]];
          q := q + 1;
        case Dropped =>
          Drop(potentials, q, c, starts, potentials0, starts0, x, path, p);
          potentials := potentials[..q] + potentials[q + 1..];
      }
      c := c + 1;
    }
    AllTried(potentials, starts, potentials0, starts0, x, path, lo, p);
  }

  lemma AllTried(ms: seq<Match>, starts: seq<nat>, ms0: seq<Match>, starts0: seq<nat>, x: Extend, path: Path, lo: nat,
                 p: nat)
    requires x.needle != []
    requires Potentials(ms0, starts0, x, path, lo, p + 1, p)
    requires Progress(ms, |ms|, |starts0|, starts, ms0, starts0, x, path, p)
    ensures Potentials(ms, starts, x, path, lo, p + 1, p + 1)
    ensures forall s :: lo <= s && s + |x.needle| == p + 1 ==> !MatchAt(x, path, s)
  {
    hide ValuesEqual, Flatten, Targets, Agrees;
    assert starts0[..|starts0|] == starts0;
    forall s: nat | lo <= s <= p && s + |x.needle| > p && (Candidate(x, path, s, p + 1) || MatchAt(x, path, s))
      ensures s in starts0
    {
      if MatchAt(x, path, s) {
        MatchWasCandidate(x, path, s, p);
      } else {
        CandidateBefore(x, path, s, p);
      }
    }
  }

  lemma CandidateBefore(x: Extend, path: Path, s: nat, p: nat)
    requires Candidate(x, path, s, p + 1) && s <= p
    ensures Candidate(x, path, s, p)
  {
    hide ValuesEqual, Flatten, Targets;
  }

  // Where the search stands before the element at p: the matches found are the first greedy ones,
  // the others start at lo or later, and none of them ends by p.
  ghost predicate Searched(matches: seq<Match>, found: seq<nat>, potentials: seq<Match>, starts: seq<nat>,
                           x: Extend, path: Path, lo: nat, p: nat)
    requires x.needle != []
  {
    && RecordsOf(matches, path, found, |x.needle|)
    && Potentials(potentials, starts, x, path, lo, p, p)
    && lo <= p
    && Greedy(x, path, 0) == found + Greedy(x, path, lo)
    && forall s :: lo <= s && s + |x.needle| <= p ==> !MatchAt(x, path, s)
  }

  // Whether a potential match may start at the element, and what the list is then.
  lemma PushStart(potentials: seq<Match>, starts: seq<nat>, x: Extend, path: Path, lo: nat, k: nat, i: nat)
    requires x.needle != [] && WellFormed(path) && k < |path| && i < |path[k]| && lo <= Offset(path, k, i)
    requires Potentials(potentials, starts, x, path, lo, Offset(path, k, i), Offset(path, k, i))
    ensures var p := Offset(path, k, i);
            if x.allowBefore || (k == 0 && i == 0)
            then Potentials(potentials + [Match(k, i, 0, path[k][i].combinator, 0, 0)], starts + [p], x, path, lo,
                            p + 1, p)
            else Potentials(potentials, starts, x, path, lo, p + 1, p)
  {
    hide ValuesEqual, Flatten, Targets;
    EndsOfPath(path, k, i);
    ElementAtOffset(path, k, i);
    var p := Offset(path, k, i);
    if x.allowBefore || (k == 0 && i == 0) {
      assert Candidate(x, path, p, p);
      forall j | 0 <= j < |starts| ensures starts[j] < p {
        assert starts[j] in starts;
      }
    }
  }

  lemma FoundOne(matches: seq<Match>, found: seq<nat>, m: Match, x: Extend, path: Path, lo: nat, s: nat)
    requires x.needle != [] && lo <= s && MatchAt(x, path, s) && RecordOf(m, path, s, |x.needle|)
    requires RecordsOf(matches, path, found, |x.needle|) && Greedy(x, path, 0) == found + Greedy(x, path, lo)
    requires forall q :: lo <= q < s ==> !MatchAt(x, path, q)
    ensures Searched(matches + [m], found + [s], [], [], x, path, s + |x.needle|, s + |x.needle|)
  {
    hide MatchAt, Flatten, RecordOf, Candidate;
    GreedySkips(x, path, lo, s);
    MatchesAreInside(x, path);
    assert Greedy(x, path, s) == [s] + Greedy(x, path, s + |x.needle|);
  }

  lemma SearchedAll(matches: seq<Match>, found: seq<nat>, potentials: seq<Match>, starts: seq<nat>, x: Extend,
                    path: Path, lo: nat)
    requires x.needle != [] && Searched(matches, found, potentials, starts, x, path, lo, |Flatten(path)|)
    ensures RecordsOf(matches, path, Greedy(x, path, 0), |x.needle|)
  {
    hide Flatten, ValuesEqual, Targets;
    GreedySkips(x, path, lo, |Flatten(path)|);
    assert found + [] == found;
  }

  // The matches of the whole path: one pass over its elements.
  method FindMatch(x: Extend, path: Path) returns (matches: seq<Match>)
    requires x.needle != [] && WellFormed(path)
    ensures RecordsOf(matches, path, Greedy(x, path, 0), |x.needle|)
  {
    hide Flatten, MatchAt, Candidate, RecordOf, StartsAt, Greedy;
    matches := [];
    var potentials: seq<Match> := [];
    ghost var starts: seq<nat>, found: seq<nat>, lo: nat := [], [], 0;
    OffsetOfStart(path);
    for k := 0 to |path|
      invariant Searched(matches, found, potentials, starts, x, path, lo, Offset(path, k, 0))
    {
      var selector := path[k];
      ElementAtOffset(path, k, 0);
      for i := 0 to |selector|
        invariant Searched(matches, found, potentials, starts, x, path, lo, Offset(path, k, i))
      {
        PushStart(potentials, starts, x, path, lo, k, i);
        if x.allowBefore || (k == 0 && i == 0) {
          potentials := potentials + [Match(k, i, 0, selector[i].combinator, 0, 0)];
          starts := starts + [Offset(path, k, i)];
        }
        var done;
        potentials, done, starts := TryElement(x, path, k, i, potentials, starts, lo);
        if done != [] {
          ghost var s := Offset(path, k, i) + 1 - |x.needle|;
          FoundOne(matches, found, done[0], x, path, lo, s);
          found, lo, starts := found + [s], Offset(path, k, i) + 1, [];
        }
        matches := matches + done;
      }
    }
    assert path[..|path|] == path;
    SearchedAll(matches, found, potentials, starts, x, path, lo);
  }
}
