// Selector paths as they are written out: a selector starts with a space unless its first element
// has a combinator of its own (extra/lesscss/less-rhino-1.7.0.js, the comment in findMatch).
module ExtendSpaces {
  import opened Sequences
  import opened ExtendMatch

  function Spaced(s: Selector): Selector {
    if s == [] then [] else [Element(OrSpace(s[0].combinator), s[0].value)] + s[1..]
  }

  // The elements of the path, each with the combinator it ends up with.
  function Written(path: Path): Selector {
    if path == [] then [] else Spaced(path[0]) + Written(path[1..])
  }

  lemma {:induction false} WrittenConcat(a: Path, b: Path)
    ensures Written(a + b) == Written(a) + Written(b)
  {
    hide Spaced;
    if a == [] {
      assert a + b == b;
    } else {
      WrittenConcat(a[1..], b);
      assert (a + b)[1..] == a[1..] + b && (a + b)[0] == a[0];
      Assoc(Spaced(a[0]), Written(a[1..]), Written(b));
    }
  }

  lemma WrittenOne(s: Selector)
    ensures Written([s]) == Spaced(s)
  {
  }

  lemma {:induction false} WrittenLength(path: Path)
    ensures |Written(path)| == |Flatten(path)|
  {
    if path != [] {
      WrittenLength(path[1..]);
    }
  }

  lemma SpacedPush(s: Selector, more: Selector)
    requires s != []
    ensures Spaced(s + more) == Spaced(s) + more
  {
    assert (s + more)[1..] == s[1..] + more;
  }

  // What is added to the last selector is written as it is.
  lemma WrittenAppendToLast(path: Path, elements: Selector)
    requires path != [] && WellFormed(path)
    ensures Written(path[|path| - 1 := path[|path| - 1] + elements]) == Written(path) + elements
  {
    hide Written, Spaced;
    var front, last := path[..|path| - 1], path[|path| - 1];
    assert path == front + [last];
    assert path[|path| - 1 := last + elements] == front + [last + elements];
    WrittenConcat(front, [last]);
    WrittenConcat(front, [last + elements]);
    WrittenOne(last);
    WrittenOne(last + elements);
    SpacedPush(last, elements);
    Assoc(Written(front), Spaced(last), elements);
  }

  lemma WrittenAppend(path: Path, more: Path, last: Selector)
    ensures Written(path + more + [last]) == Written(path) + Written(more) + Spaced(last)
  {
    hide Written;
    WrittenConcat(path, more);
    WrittenConcat(path + more, [last]);
    WrittenOne(last);
  }

  lemma WrittenSlice(path: Path, a: nat, b: nat)
    requires a <= b <= |path|
    ensures Offset(path, a, 0) <= Offset(path, b, 0) <= |Written(path)|
    ensures Written(path[a..b]) == Written(path)[Offset(path, a, 0)..Offset(path, b, 0)]
    ensures Offset(path, |path|, 0) == |Written(path)|
  {
    hide Written, Flatten;
    assert path[..b] == path[..a] + path[a..b];
    WrittenConcat(path[..a], path[a..b]);
    assert path == path[..b] + path[b..];
    WrittenConcat(path[..b], path[b..]);
    assert path[..|path|] == path;
    WrittenLength(path[..a]);
    WrittenLength(path[..b]);
    WrittenLength(path);
  }

  // The elements of one selector: the first with its space, the others as they are.
  lemma WrittenSelector(path: Path, k: nat, i: nat, j: nat)
    requires k < |path| && i <= j <= |path[k]|
    ensures Offset(path, k, j) <= |Written(path)|
    ensures Written(path)[Offset(path, k, i)..Offset(path, k, j)]
         == if i == 0 then Spaced(path[k][..j]) else path[k][i..j]
  {
    hide Written, Flatten;
    WrittenSlice(path, k, k + 1);
    assert path[k..k + 1] == [path[k]];
    WrittenOne(path[k]);
    WrittenSlice(path, k + 1, |path|);
    SplitAt(path, k);
    var s := Spaced(path[k]);
    assert |s| == |path[k]|;
    SliceOfSlice(Written(path), Offset(path, k, 0), Offset(path, k + 1, 0), i, j);
    if i == 0 {
      assert s[0..j] == Spaced(path[k][..j]);
    } else {
      assert s[i..j] == path[k][i..j];
    }
  }

  // What lies between two positions: whole selectors, then the front of one.
  lemma WrittenGap(path: Path, ci: nat, ce: nat, k: nat, i: nat)
    requires ci <= k < |path| && i <= |path[k]| && (if ci == k then ce <= i else ce == 0)
    ensures Offset(path, ci, ce) <= Offset(path, k, i) <= |Written(path)|
    ensures Written(path)[Offset(path, ci, ce)..Offset(path, k, i)]
         == Written(path[ci..k]) + if ce == 0 then Spaced(path[k][..i]) else path[k][ce..i]
  {
    hide Flatten;
    if ci == k {
      WrittenSelector(path, k, ce, i);
      assert path[ci..k] == [];
    } else {
      hide Written;
      WrittenSlice(path, ci, k);
      WrittenSelector(path, k, 0, i);
      Cut(Written(path), Offset(path, ci, 0), Offset(path, k, 0), Offset(path, k, i));
    }
  }
}
