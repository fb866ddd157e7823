// Mappings between generated and original positions, and the order in which they are serialized.
module Mappings {
  import opened Wrappers
  import opened Sequences
  import opened Strings

  // The position a piece of generated code came from. No name is the empty name: the library tests
  // source and name for truth, so an absent and an empty one are the same to it.
  datatype Original = Original(source: string, line: int, column: int, name: string)

  datatype Mapping = Mapping(line: int, column: int, original: Option<Original>)

  // What _validateMapping accepts.
  predicate ValidMapping(m: Mapping) {
    && m.line > 0 && m.column >= 0
    && (m.original.Some? ==>
          && m.original.value.line > 0 && m.original.value.column >= 0
          && m.original.value.source != "")
  }

  // ---------- the comparator ----------

  // strcmp: -1, 0 or 1
  function StrCmp(a: string, b: string): int {
    (if StrLess(b, a) then 1 else 0) - (if StrLess(a, b) then 1 else 0)
  }

  function Source(m: Mapping): string { if m.original.Some? then m.original.value.source else "" }
  function Name(m: Mapping): string { if m.original.Some? then m.original.value.name else "" }
  // a missing original line or column counts as 0 in a subtraction
  function OriginalLine(m: Mapping): int { if m.original.Some? then m.original.value.line else 0 }
  function OriginalColumn(m: Mapping): int { if m.original.Some? then m.original.value.column else 0 }

  function CompareByGenerated(a: Mapping, b: Mapping): int {
    if a.line != b.line then a.line - b.line
    else if a.column != b.column then a.column - b.column
    else if StrCmp(Source(a), Source(b)) != 0 then StrCmp(Source(a), Source(b))
    else if OriginalLine(a) != OriginalLine(b) then OriginalLine(a) - OriginalLine(b)
    else if OriginalColumn(a) != OriginalColumn(b) then OriginalColumn(a) - OriginalColumn(b)
    else StrCmp(Name(a), Name(b))
  }

  predicate Before(a: Mapping, b: Mapping) {
    CompareByGenerated(a, b) < 0
  }

  // The comparator is a total order: any two mappings compare, opposite ways, and as equal only
  // when they are the same valid mapping.
  lemma ComparatorIsTotal(a: Mapping, b: Mapping)
    requires ValidMapping(a) && ValidMapping(b)
    ensures CompareByGenerated(a, b) == 0 <==> a == b
    ensures Before(a, b) <==> CompareByGenerated(b, a) > 0
    ensures Before(a, b) || a == b || Before(b, a)
  {
    StrLessOrder(Source(a), Source(b));
    StrLessOrder(Name(a), Name(b));
  }

  lemma ComparatorIsTransitive(a: Mapping, b: Mapping, c: Mapping)
    requires Before(a, b) && Before(b, c)
    ensures Before(a, c)
  {
    StrLessOrder(Source(a), Source(b));
    StrLessOrder(Source(b), Source(c));
    StrLessOrder(Source(a), Source(c));
    StrLessOrder(Name(a), Name(b));
    StrLessOrder(Name(b), Name(c));
    StrLessOrder(Name(a), Name(c));
    if StrLess(Source(a), Source(b)) && StrLess(Source(b), Source(c)) {
      StrLessTransitive(Source(a), Source(b), Source(c));
    }
    if StrLess(Name(a), Name(b)) && StrLess(Name(b), Name(c)) {
      StrLessTransitive(Name(a), Name(b), Name(c));
    }
  }

  // ---------- sorting ----------

  ghost predicate AllValid(ms: seq<Mapping>) {
    forall i :: 0 <= i < |ms| ==> ValidMapping(ms[i])
  }

  ghost predicate Sorted(ms: seq<Mapping>) {
    forall i, j :: 0 <= i < j < |ms| ==> !Before(ms[j], ms[i])
  }

  ghost predicate StrictlySorted(ms: seq<Mapping>) {
    forall i, j :: 0 <= i < j < |ms| ==> Before(ms[i], ms[j])
  }

  function Insert(m: Mapping, ms: seq<Mapping>): seq<Mapping> {
    if ms == [] || !Before(ms[0], m) then [m] + ms else [ms[0]] + Insert(m, ms[1..])
  }

  // Array.prototype.sort with the comparator: JavaScript leaves the algorithm open, and
  // SortedPermutationIsUnique says that the choice does not matter.
  function Sort(ms: seq<Mapping>): seq<Mapping> {
    if ms == [] then [] else Insert(ms[0], Sort(ms[1..]))
  }

  lemma {:induction false} InsertSorts(m: Mapping, ms: seq<Mapping>)
    requires ValidMapping(m) && AllValid(ms) && Sorted(ms)
    ensures AllValid(Insert(m, ms)) && Sorted(Insert(m, ms))
    ensures multiset(Insert(m, ms)) == multiset(ms) + multiset{m}
  {
    hide CompareByGenerated;
    if ms == [] {
    } else if !Before(ms[0], m) {
      forall j | 0 <= j < |ms| ensures !Before(ms[j], m) {
        if Before(ms[j], m) {
          ComparatorIsTotal(ms[0], m);
          ComparatorIsTotal(ms[0], ms[j]);
          if ms[0] != m { ComparatorIsTransitive(ms[j], m, ms[0]); }
        }
      }
    } else {
      assert ms == [ms[0]] + ms[1..];
      InsertSorts(m, ms[1..]);
      var rest := Insert(m, ms[1..]);
      ComparatorIsTotal(m, ms[0]);
      forall j | 0 <= j < |rest| ensures !Before(rest[j], ms[0]) {
        assert rest[j] in multiset(rest);
      }
    }
  }

  lemma {:induction false} SortSorts(ms: seq<Mapping>)
    requires AllValid(ms)
    ensures AllValid(Sort(ms)) && Sorted(Sort(ms)) && multiset(Sort(ms)) == multiset(ms)
  {
    hide CompareByGenerated;
    if ms != [] {
      SortSorts(ms[1..]);
      InsertSorts(ms[0], Sort(ms[1..]));
      assert ms == [ms[0]] + ms[1..];
    }
  }

  // Whatever sort the engine uses, the sorted array is the same.
  lemma {:induction false} SortedPermutationIsUnique(a: seq<Mapping>, b: seq<Mapping>)
    requires AllValid(a) && AllValid(b) && Sorted(a) && Sorted(b) && multiset(a) == multiset(b)
    ensures a == b
  {
    hide CompareByGenerated;
    assert |multiset(a)| == |multiset(b)|;
    if a != [] {
      HeadsAgree(a, b);
      SameTails(a, b);
      SortedPermutationIsUnique(a[1..], b[1..]);
      assert a == [a[0]] + a[1..] && b == [b[0]] + b[1..];
    }
  }

  lemma HeadsAgree(a: seq<Mapping>, b: seq<Mapping>)
    requires AllValid(a) && AllValid(b) && Sorted(a) && Sorted(b) && multiset(a) == multiset(b)
    requires a != [] && b != []
    ensures a[0] == b[0]
  {
    hide CompareByGenerated;
    assert b[0] in multiset(a) && a[0] in multiset(b);
    FirstIsLeast(a, b[0]);
    FirstIsLeast(b, a[0]);
    ComparatorIsTotal(a[0], b[0]);
  }

  lemma FirstIsLeast(ms: seq<Mapping>, m: Mapping)
    requires Sorted(ms) && AllValid(ms) && m in ms
    ensures !Before(m, ms[0])
  {
    hide CompareByGenerated;
    ComparatorIsTotal(m, m);
  }
}
