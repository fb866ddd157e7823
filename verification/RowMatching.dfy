// How RowFixture of Fit pairs the rows a test expects with the rows the system under test computed
// (src/fit/RowFixture.java). Parsing a cell and reading a property may fail, so the key of a row in
// a column is optional; a key that is null fails to be binned and counts as unreadable. A column is
// unbound from the first header on that names no property; the fixture skips it when it matches, but
// not when it compares the cells of two rows, and then a cell in such a column ends the whole matching.
module RowMatching {
  import opened Wrappers

  // A row with its number of cells and its key in each column.
  datatype Row = Row(id: int, cells: nat, keys: seq<Option<string>>)

  function Key(row: Row, col: nat): Option<string> {
    if col < |row.keys| then row.keys[col] else None
  }

  // ---------- binning rows by a key ----------

  function If(condition: bool, row: Row): seq<Row> {
    if condition then [row] else []
  }

  function WithKey(rows: seq<Row>, col: nat, k: string): seq<Row> {
    if rows == [] then [] else If(Key(rows[0], col) == Some(k), rows[0]) + WithKey(rows[1..], col, k)
  }

  function Unreadable(rows: seq<Row>, col: nat): seq<Row> {
    if rows == [] then [] else If(Key(rows[0], col) == None, rows[0]) + Unreadable(rows[1..], col)
  }

  predicate HasKeyIn(row: Row, col: nat, ks: set<string>) {
    Key(row, col).Some? && Key(row, col).value in ks
  }

  function InKeys(rows: seq<Row>, col: nat, ks: set<string>): seq<Row> {
    if rows == [] then [] else If(HasKeyIn(rows[0], col, ks), rows[0]) + InKeys(rows[1..], col, ks)
  }

  lemma {:induction false} WithKeyMembers(rows: seq<Row>, col: nat, k: string, x: Row)
    ensures x in WithKey(rows, col, k) <==> x in rows && Key(x, col) == Some(k)
  {
    if rows != [] {
      WithKeyMembers(rows[1..], col, k, x);
    }
  }

  lemma {:induction false} UnreadableMembers(rows: seq<Row>, col: nat, x: Row)
    ensures x in Unreadable(rows, col) <==> x in rows && Key(x, col) == None
  {
    if rows != [] {
      UnreadableMembers(rows[1..], col, x);
    }
  }

  lemma {:induction false} InNoKeys(rows: seq<Row>, col: nat)
    ensures InKeys(rows, col, {}) == []
  {
    if rows != [] {
      InNoKeys(rows[1..], col);
    }
  }

  lemma {:induction false} InOneMoreKey(rows: seq<Row>, col: nat, ks: set<string>, k: string)
    requires k !in ks
    ensures multiset(InKeys(rows, col, ks + {k})) == multiset(InKeys(rows, col, ks)) + multiset(WithKey(rows, col, k))
  {
    hide Key;
    if rows != [] {
      InOneMoreKey(rows[1..], col, ks, k);
    }
  }

  // Every row has one of the keys or none.
  lemma {:induction false} InAllKeys(rows: seq<Row>, col: nat, ks: set<string>)
    requires forall x :: x in rows && Key(x, col).Some? ==> Key(x, col).value in ks
    ensures multiset(rows) == multiset(InKeys(rows, col, ks)) + multiset(Unreadable(rows, col))
  {
    hide Key, HasKeyIn, If;
    if rows != [] {
      var x, tail := rows[0], rows[1..];
      InAllKeys(tail, col, ks);
      assert rows == [x] + tail;
      assert multiset(InKeys(rows, col, ks)) == multiset(If(HasKeyIn(x, col, ks), x)) + multiset(InKeys(tail, col, ks));
      assert multiset(Unreadable(rows, col)) == multiset(If(Key(x, col) == None, x)) + multiset(Unreadable(tail, col));
      EitherOf(x, col, ks);
    }
  }

  lemma EitherOf(x: Row, col: nat, ks: set<string>)
    requires Key(x, col).Some? ==> Key(x, col).value in ks
    ensures multiset(If(HasKeyIn(x, col, ks), x)) + multiset(If(Key(x, col) == None, x)) == multiset{x}
  {
    hide Key;
  }

  lemma {:induction false} WithKeyAppend(rows: seq<Row>, x: Row, col: nat, k: string)
    ensures WithKey(rows + [x], col, k) == WithKey(rows, col, k) + If(Key(x, col) == Some(k), x)
  {
    hide Key, If;
    if rows == [] {
      assert rows + [x] == [x];
      assert WithKey([x], col, k) == If(Key(x, col) == Some(k), x) + WithKey([], col, k);
    } else {
      WithKeyAppend(rows[1..], x, col, k);
      assert (rows + [x])[1..] == rows[1..] + [x];
    }
  }

  lemma {:induction false} UnreadableAppend(rows: seq<Row>, x: Row, col: nat)
    ensures Unreadable(rows + [x], col) == Unreadable(rows, col) + If(Key(x, col) == None, x)
  {
    hide Key, If;
    if rows == [] {
      assert rows + [x] == [x];
      assert Unreadable([x], col) == If(Key(x, col) == None, x) + Unreadable([], col);
    } else {
      UnreadableAppend(rows[1..], x, col);
      assert (rows + [x])[1..] == rows[1..] + [x];
    }
  }

  // The map of one list per key, in the order of the rows, and the rows without a key.
  ghost predicate Binned(bins: map<string, seq<Row>>, bad: seq<Row>, rows: seq<Row>, col: nat) {
    && (forall k :: k in bins <==> WithKey(rows, col, k) != [])
    && (forall k :: k in bins ==> bins[k] == WithKey(rows, col, k))
    && bad == Unreadable(rows, col)
  }

  function Bin(bins: map<string, seq<Row>>, k: string, row: Row): map<string, seq<Row>> {
    if k in bins then bins[k := bins[k] + [row]] else bins[k := [row]]
  }

  lemma BinOne(bins: map<string, seq<Row>>, bad: seq<Row>, rows: seq<Row>, row: Row, col: nat)
    requires Binned(bins, bad, rows, col)
    ensures Key(row, col) == None ==> Binned(bins, bad + [row], rows + [row], col)
    ensures forall k :: Key(row, col) == Some(k) ==> Binned(Bin(bins, k, row), bad, rows + [row], col)
  {
    hide Key, WithKey, Unreadable;
    UnreadableAppend(rows, row, col);
    forall j ensures WithKey(rows + [row], col, j) == WithKey(rows, col, j) + If(Key(row, col) == Some(j), row) {
      WithKeyAppend(rows, row, col, j);
    }
    if Key(row, col).Some? {
      var k := Key(row, col).value;
      var bins' := Bin(bins, k, row);
      forall j ensures j in bins' <==> WithKey(rows + [row], col, j) != [] {
        assert WithKey(rows + [row], col, j) == WithKey(rows, col, j) + If(k == j, row);
      }
      forall j | j in bins' ensures bins'[j] == WithKey(rows + [row], col, j) {
        assert WithKey(rows + [row], col, j) == WithKey(rows, col, j) + If(k == j, row);
      }
    }
  }

  method BinRows(rows: seq<Row>, col: nat) returns (bins: map<string, seq<Row>>, bad: seq<Row>)
    ensures Binned(bins, bad, rows, col)
  {
    bins, bad := map[], [];
    for i := 0 to |rows|
      invariant Binned(bins, bad, rows[..i], col)
    {
      hide Binned, WithKey, Key;
      var row := rows[i];
      assert rows[..i + 1] == rows[..i] + [row];
      BinOne(bins, bad, rows[..i], row, col);
      match Key(row, col) {
        case None => bad := bad + [row];
        case Some(k) => bins := Bin(bins, k, row);
      }
    }
    assert rows[..|rows|] == rows;
  }

  // ---------- keys over several columns ----------

  // The keys of a row in the bound columns from col up to end.
  function Prefix(row: Row, col: nat, end: nat, bound: seq<bool>): seq<Option<string>>
    requires end <= |bound|
    decreases end - col
  {
    if col >= end then []
    else if bound[col] then [Key(row, col)] + Prefix(row, col + 1, end, bound)
    else Prefix(row, col + 1, end, bound)
  }

  ghost predicate Readable(keys: seq<Option<string>>) {
    forall i :: 0 <= i < |keys| ==> keys[i].Some?
  }

  function Count(rows: seq<Row>, col: nat, end: nat, bound: seq<bool>, t: seq<Option<string>>): nat
    requires end <= |bound|
  {
    if rows == [] then 0
    else (if Prefix(rows[0], col, end, bound) == t then 1 else 0) + Count(rows[1..], col, end, bound, t)
  }

  // A group counts the rows of the whole list that start with its key.
  lemma {:induction false} CountGroup(rows: seq<Row>, col: nat, end: nat, bound: seq<bool>, k: string,
                                      t: seq<Option<string>>)
    requires col < end <= |bound| && bound[col]
    ensures Count(WithKey(rows, col, k), col + 1, end, bound, t) == Count(rows, col, end, bound, [Some(k)] + t)
  {
    hide Key;
    if rows != [] {
      CountGroup(rows[1..], col, end, bound, k, t);
      var tail := WithKey(rows[1..], col, k);
      assert Prefix(rows[0], col, end, bound) == [Key(rows[0], col)] + Prefix(rows[0], col + 1, end, bound);
      if Key(rows[0], col) == Some(k) {
        assert ([rows[0]] + tail)[1..] == tail;
        HeadAndTail(Some(k), Prefix(rows[0], col + 1, end, bound), t);
      } else {
        assert ([Key(rows[0], col)] + Prefix(rows[0], col + 1, end, bound))[0] != ([Some(k)] + t)[0];
        assert WithKey(rows, col, k) == tail;
      }
    }
  }

  lemma HeadAndTail<T>(x: T, a: seq<T>, b: seq<T>)
    ensures [x] + a == [x] + b <==> a == b
  {
    if [x] + a == [x] + b {
      assert a == ([x] + a)[1..] == ([x] + b)[1..] == b;
    }
  }

  lemma {:induction false} CountUnbound(rows: seq<Row>, col: nat, end: nat, bound: seq<bool>, t: seq<Option<string>>)
    requires col < end <= |bound| && !bound[col]
    ensures Count(rows, col, end, bound, t) == Count(rows, col + 1, end, bound, t)
  {
    if rows != [] {
      CountUnbound(rows[1..], col, end, bound, t);
    }
  }

  lemma {:induction false} CountAll(rows: seq<Row>, col: nat, bound: seq<bool>)
    requires col <= |bound|
    ensures Count(rows, col, col, bound, []) == |rows|
  {
    if rows != [] {
      CountAll(rows[1..], col, bound);
    }
  }

  // ---------- what a matching is ----------

  datatype Outcome = Outcome(missing: seq<Row>, surplus: seq<Row>, paired: seq<(Row, Row)>, failed: seq<Row>)

  const NOTHING := Outcome([], [], [], [])

  function Join(a: Outcome, b: Outcome): Outcome {
    Outcome(a.missing + b.missing, a.surplus + b.surplus, a.paired + b.paired, a.failed + b.failed)
  }

  function Firsts(pairs: seq<(Row, Row)>): seq<Row> {
    seq(|pairs|, i requires 0 <= i < |pairs| => pairs[i].0)
  }

  function Seconds(pairs: seq<(Row, Row)>): seq<Row> {
    seq(|pairs|, i requires 0 <= i < |pairs| => pairs[i].1)
  }

  // No row is lost and none is used twice.
  ghost predicate Conserves(expected: multiset<Row>, computed: multiset<Row>, o: Outcome) {
    && expected == multiset(o.missing) + multiset(o.failed) + multiset(Firsts(o.paired))
    && computed == multiset(o.surplus) + multiset(Seconds(o.paired))
  }

  ghost predicate SameKeys(e: Row, c: Row, col: nat, end: nat, bound: seq<bool>)
    requires end <= |bound|
  {
    Prefix(e, col, end, bound) == Prefix(c, col, end, bound) && Readable(Prefix(e, col, end, bound))
  }

  // A missing row and a surplus row differ in some bound column, or a key of theirs is unreadable.
  ghost predicate Apart(o: Outcome, col: nat, bound: seq<bool>) {
    forall e, c :: e in o.missing && c in o.surplus ==> !SameKeys(e, c, col, |bound|, bound)
  }

  // Two rows are paired on full agreement, or when up to a column where they agree no other
  // row has these keys, on either side.
  ghost predicate JustifiedAt(e: Row, c: Row, expected: seq<Row>, computed: seq<Row>, col: nat, end: nat,
                              bound: seq<bool>)
  {
    && end <= |bound| && SameKeys(e, c, col, end, bound)
    && (end == |bound|
        || (Count(expected, col, end, bound, Prefix(e, col, end, bound)) == 1
            && Count(computed, col, end, bound, Prefix(e, col, end, bound)) == 1))
  }

  ghost predicate Justified(o: Outcome, expected: seq<Row>, computed: seq<Row>, col: nat, bound: seq<bool>) {
    forall e, c :: (e, c) in o.paired ==> exists end :: JustifiedAt(e, c, expected, computed, col, end, bound)
  }

  // The computed rows have the keys of the expected ones in another order, all of them readable.
  ghost predicate Reordered(expected: seq<Row>, computed: seq<Row>, col: nat, bound: seq<bool>) {
    && (forall e :: e in expected ==> Readable(Prefix(e, col, |bound|, bound)))
    && (forall t :: Count(expected, col, |bound|, bound, t) == Count(computed, col, |bound|, bound, t))
  }

  ghost predicate Matched(expected: seq<Row>, computed: seq<Row>, col: nat, bound: seq<bool>, o: Outcome) {
    && Conserves(multiset(expected), multiset(computed), o)
    && Apart(o, col, bound)
    && Justified(o, expected, computed, col, bound)
    && (Reordered(expected, computed, col, bound) ==> o.missing == [] && o.surplus == [] && o.failed == [])
  }

  // ---------- reordered rows ----------

  lemma {:induction false} CountMember(rows: seq<Row>, col: nat, end: nat, bound: seq<bool>, t: seq<Option<string>>)
    requires end <= |bound|
    ensures Count(rows, col, end, bound, t) > 0 <==> exists x :: x in rows && Prefix(x, col, end, bound) == t
  {
    hide Prefix;
    if rows != [] {
      CountMember(rows[1..], col, end, bound, t);
      assert rows[0] in rows;
    }
  }

  lemma {:induction false} CountRemove(rows: seq<Row>, j: nat, col: nat, end: nat, bound: seq<bool>,
                                       t: seq<Option<string>>)
    requires end <= |bound| && j < |rows|
    ensures Count(rows, col, end, bound, t)
         == Count(rows[..j] + rows[j + 1..], col, end, bound, t)
            + if Prefix(rows[j], col, end, bound) == t then 1 else 0
  {
    hide Prefix;
    if j == 0 {
      assert rows[..0] + rows[1..] == rows[1..];
    } else {
      CountRemove(rows[1..], j - 1, col, end, bound, t);
      var less := rows[..j] + rows[j + 1..];
      assert less[0] == rows[0] && less[1..] == rows[1..][..j - 1] + rows[1..][j..];
    }
  }

  // Lists in which every tuple of keys occurs equally often are equally long.
  lemma {:induction false} SameCountsSameSize(a: seq<Row>, b: seq<Row>, col: nat, bound: seq<bool>)
    requires forall t :: Count(a, col, |bound|, bound, t) == Count(b, col, |bound|, bound, t)
    ensures |a| == |b|
  {
    hide Prefix;
    var n := |bound|;
    if a == [] {
      if b != [] {
        CountMember(b, col, n, bound, Prefix(b[0], col, n, bound));
      }
    } else {
      var t0 := Prefix(a[0], col, n, bound);
      CountMember(a, col, n, bound, t0);
      CountMember(b, col, n, bound, t0);
      var x :| x in b && Prefix(x, col, n, bound) == t0;
      var j :| 0 <= j < |b| && b[j] == x;
      forall t ensures Count(a[1..], col, n, bound, t) == Count(b[..j] + b[j + 1..], col, n, bound, t) {
        CountRemove(b, j, col, n, bound, t);
      }
      SameCountsSameSize(a[1..], b[..j] + b[j + 1..], col, bound);
    }
  }

  // The rows of one key are reordered rows of that key, and no key is unreadable.
  lemma ReorderedGroup(expected: seq<Row>, computed: seq<Row>, col: nat, bound: seq<bool>, k: string)
    requires Reordered(expected, computed, col, bound) && col < |bound| && bound[col]
    ensures Reordered(WithKey(expected, col, k), WithKey(computed, col, k), col + 1, bound)
  {
    hide Key, WithKey, Count;
    var n := |bound|;
    forall e | e in WithKey(expected, col, k) ensures Readable(Prefix(e, col + 1, n, bound)) {
      WithKeyMembers(expected, col, k, e);
      var tail := Prefix(e, col + 1, n, bound);
      assert Prefix(e, col, n, bound) == [Key(e, col)] + tail;
      assert forall i :: 0 <= i < |tail| ==> tail[i] == Prefix(e, col, n, bound)[i + 1];
    }
    var es, cs, next := WithKey(expected, col, k), WithKey(computed, col, k), col + 1;
    forall t ensures Count(es, next, n, bound, t) == Count(cs, next, n, bound, t) {
      CountGroup(expected, col, n, bound, k, t);
      CountGroup(computed, col, n, bound, k, t);
    }
  }

  lemma PrefixFirst(row: Row, col: nat, bound: seq<bool>)
    requires col < |bound| && bound[col]
    ensures Prefix(row, col, |bound|, bound) != [] && Prefix(row, col, |bound|, bound)[0] == Key(row, col)
  {
  }

  lemma ReorderedReadable(expected: seq<Row>, computed: seq<Row>, col: nat, bound: seq<bool>)
    requires Reordered(expected, computed, col, bound) && col < |bound| && bound[col]
    ensures Unreadable(expected, col) == [] && Unreadable(computed, col) == []
  {
    hide Prefix, Key;
    var n := |bound|;
    forall e | e in expected ensures Key(e, col).Some? {
      PrefixFirst(e, col, bound);
    }
    forall c | c in computed ensures Key(c, col).Some? {
      var t := Prefix(c, col, n, bound);
      CountMember(computed, col, n, bound, t);
      CountMember(expected, col, n, bound, t);
      PrefixFirst(c, col, bound);
    }
    AllReadable(expected, col);
    AllReadable(computed, col);
  }

  lemma {:induction false} AllReadable(rows: seq<Row>, col: nat)
    requires forall x :: x in rows ==> Key(x, col).Some?
    ensures Unreadable(rows, col) == []
  {
    if rows != [] {
      AllReadable(rows[1..], col);
    }
  }

  // ---------- pairing what is left ----------

  // The lists are paired from the front; what remains of one of them is missing or surplus.
  function Zipped(expected: seq<Row>, computed: seq<Row>): Outcome {
    if expected == [] then NOTHING.(surplus := computed)
    else if computed == [] then NOTHING.(missing := expected)
    else Join(NOTHING.(paired := [(expected[0], computed[0])]), Zipped(expected[1..], computed[1..]))
  }

  lemma {:induction false} ZippedConserves(expected: seq<Row>, computed: seq<Row>)
    ensures Conserves(multiset(expected), multiset(computed), Zipped(expected, computed))
  {
    hide Conserves;
    if expected == [] {
      OnlySurplus(computed);
    } else if computed == [] {
      OnlyMissing(expected);
    } else {
      var e, c := expected[0], computed[0];
      ZippedConserves(expected[1..], computed[1..]);
      PairConserves(e, c, multiset(expected[1..]), multiset(computed[1..]), Zipped(expected[1..], computed[1..]));
      assert expected == [e] + expected[1..] && computed == [c] + computed[1..];
    }
  }

  lemma OnlySurplus(computed: seq<Row>)
    ensures Conserves(multiset{}, multiset(computed), NOTHING.(surplus := computed))
  {
  }

  lemma OnlyMissing(expected: seq<Row>)
    ensures Conserves(multiset(expected), multiset{}, NOTHING.(missing := expected))
  {
  }

  lemma PairConserves(e: Row, c: Row, expected: multiset<Row>, computed: multiset<Row>, o: Outcome)
    requires Conserves(expected, computed, o)
    ensures Conserves(multiset{e} + expected, multiset{c} + computed, Join(NOTHING.(paired := [(e, c)]), o))
  {
    hide Conserves;
    var first := NOTHING.(paired := [(e, c)]);
    OnePair(e, c);
    JoinConserves(multiset{e}, multiset{c}, first, expected, computed, o);
  }

  lemma OnePair(e: Row, c: Row)
    ensures Conserves(multiset{e}, multiset{c}, NOTHING.(paired := [(e, c)]))
  {
    assert Firsts([(e, c)]) == [e] && Seconds([(e, c)]) == [c];
  }

  lemma {:induction false} ZippedProperties(expected: seq<Row>, computed: seq<Row>)
    ensures var o := Zipped(expected, computed);
            && (o.missing == [] || o.surplus == []) && o.failed == []
            && (|expected| == |computed| ==> o.missing == [] && o.surplus == [])
  {
    if expected != [] && computed != [] {
      ZippedProperties(expected[1..], computed[1..]);
    }
  }

  // With no bound column left, any pairing is a matching.
  lemma ZippedMatches(expected: seq<Row>, computed: seq<Row>, col: nat, bound: seq<bool>)
    requires col >= |bound|
    ensures Matched(expected, computed, col, bound, Zipped(expected, computed))
  {
    ZippedProperties(expected, computed);
    ZippedConserves(expected, computed);
    var o := Zipped(expected, computed);
    forall e, c | (e, c) in o.paired ensures exists end :: JustifiedAt(e, c, expected, computed, col, end, bound) {
      assert JustifiedAt(e, c, expected, computed, col, |bound|, bound);
    }
    if Reordered(expected, computed, col, bound) {
      SameCountsSameSize(expected, computed, col, bound);
    }
  }

  // ---------- one group of rows ----------

  // What the rows with key k in column col contribute to a matching of the whole lists.
  ghost predicate GroupMatched(expected: seq<Row>, computed: seq<Row>, col: nat, bound: seq<bool>, k: string,
                               g: Outcome)
  {
    && Conserves(multiset(WithKey(expected, col, k)), multiset(WithKey(computed, col, k)), g)
    && Apart(g, col, bound)
    && Justified(g, expected, computed, col, bound)
    && (Reordered(expected, computed, col, bound) ==> g.missing == [] && g.surplus == [] && g.failed == [])
  }

  lemma GroupMissing(expected: seq<Row>, computed: seq<Row>, col: nat, bound: seq<bool>, k: string)
    requires col < |bound| && bound[col]
    ensures var es, cs := WithKey(expected, col, k), WithKey(computed, col, k);
            && (es == [] ==> GroupMatched(expected, computed, col, bound, k, NOTHING.(surplus := cs)))
            && (cs == [] ==> GroupMatched(expected, computed, col, bound, k, NOTHING.(missing := es)))
  {
    hide Prefix, WithKey;
    OnlySurplus(WithKey(computed, col, k));
    OnlyMissing(WithKey(expected, col, k));
    if Reordered(expected, computed, col, bound) {
      ReorderedGroup(expected, computed, col, bound, k);
      SameCountsSameSize(WithKey(expected, col, k), WithKey(computed, col, k), col + 1, bound);
    }
  }

  // The only two rows with a key are paired whatever their other keys are.
  lemma GroupOfOne(expected: seq<Row>, computed: seq<Row>, col: nat, bound: seq<bool>, k: string)
    requires col < |bound| && bound[col]
    requires |WithKey(expected, col, k)| == 1 && |WithKey(computed, col, k)| == 1
    ensures GroupMatched(expected, computed, col, bound, k,
                         Zipped(WithKey(expected, col, k), WithKey(computed, col, k)))
  {
    hide WithKey, Conserves;
    var es, cs := WithKey(expected, col, k), WithKey(computed, col, k);
    ZippedProperties(es, cs);
    ZippedConserves(es, cs);
    WithKeyMembers(expected, col, k, es[0]);
    WithKeyMembers(computed, col, k, cs[0]);
    assert Zipped(es, cs).paired == [(es[0], cs[0])];
    CountGroup(expected, col, col + 1, bound, k, []);
    CountGroup(computed, col, col + 1, bound, k, []);
    CountAll(es, col + 1, bound);
    CountAll(cs, col + 1, bound);
    assert Prefix(es[0], col, col + 1, bound) == [Some(k)] + [] == Prefix(cs[0], col, col + 1, bound);
    assert JustifiedAt(es[0], cs[0], expected, computed, col, col + 1, bound);
  }

  lemma SameKeysInGroup(e: Row, c: Row, col: nat, end: nat, bound: seq<bool>, k: string)
    requires col < end <= |bound| && bound[col] && Key(e, col) == Key(c, col) == Some(k)
    ensures SameKeys(e, c, col, end, bound) <==> SameKeys(e, c, col + 1, end, bound)
  {
    var pe, pc := Prefix(e, col + 1, end, bound), Prefix(c, col + 1, end, bound);
    HeadAndTail(Some(k), pe, pc);
    assert Prefix(e, col, end, bound) == [Some(k)] + pe && Prefix(c, col, end, bound) == [Some(k)] + pc;
    assert Readable([Some(k)] + pe) <==> Readable(pe) by {
      assert forall i :: 0 <= i < |pe| ==> ([Some(k)] + pe)[i + 1] == pe[i];
    }
  }

  // A matching of the rows of one key, from the next column on.
  lemma GroupMatchedFurther(expected: seq<Row>, computed: seq<Row>, col: nat, bound: seq<bool>, k: string, g: Outcome)
    requires col < |bound| && bound[col]
    requires Matched(WithKey(expected, col, k), WithKey(computed, col, k), col + 1, bound, g)
    ensures GroupMatched(expected, computed, col, bound, k, g)
  {
    hide WithKey, Prefix, Key;
    var es, cs, n := WithKey(expected, col, k), WithKey(computed, col, k), |bound|;
    forall e, c | e in g.missing && c in g.surplus ensures !SameKeys(e, c, col, n, bound) {
      InGroup(expected, computed, col, k, g, e, c);
      SameKeysInGroup(e, c, col, n, bound, k);
    }
    forall e, c | (e, c) in g.paired ensures exists end :: JustifiedAt(e, c, expected, computed, col, end, bound) {
      var end :| JustifiedAt(e, c, es, cs, col + 1, end, bound);
      InGroup(expected, computed, col, k, g, e, c);
      JustifiedFurther(expected, computed, col, bound, k, e, c, end);
    }
    if Reordered(expected, computed, col, bound) {
      ReorderedGroup(expected, computed, col, bound, k);
    }
  }

  lemma InGroup(expected: seq<Row>, computed: seq<Row>, col: nat, k: string, g: Outcome, e: Row, c: Row)
    requires Conserves(multiset(WithKey(expected, col, k)), multiset(WithKey(computed, col, k)), g)
    requires (e in g.missing && c in g.surplus) || (e, c) in g.paired
    ensures Key(e, col) == Key(c, col) == Some(k)
  {
    hide WithKey, Key;
    if (e, c) in g.paired {
      var i :| 0 <= i < |g.paired| && g.paired[i] == (e, c);
      assert Firsts(g.paired)[i] == e && Seconds(g.paired)[i] == c;
      assert e in multiset(Firsts(g.paired)) && c in multiset(Seconds(g.paired));
    }
    assert e in multiset(WithKey(expected, col, k)) && c in multiset(WithKey(computed, col, k));
    WithKeyMembers(expected, col, k, e);
    WithKeyMembers(computed, col, k, c);
  }

  lemma JustifiedFurther(expected: seq<Row>, computed: seq<Row>, col: nat, bound: seq<bool>, k: string, e: Row,
                         c: Row, end: nat)
    requires col < |bound| && bound[col] && Key(e, col) == Key(c, col) == Some(k)
    requires JustifiedAt(e, c, WithKey(expected, col, k), WithKey(computed, col, k), col + 1, end, bound)
    ensures exists end' :: JustifiedAt(e, c, expected, computed, col, end', bound)
  {
    hide WithKey, Key;
    var end' := if end <= col then col + 1 else end;
    SameKeysInGroup(e, c, col, end', bound, k);
    CountGroup(expected, col, end', bound, k, Prefix(e, col + 1, end', bound));
    CountGroup(computed, col, end', bound, k, Prefix(e, col + 1, end', bound));
    assert Prefix(e, col, end', bound) == [Some(k)] + Prefix(e, col + 1, end', bound);
    if end <= col {
      CountEmpty(WithKey(expected, col, k), col + 1, end, bound);
      CountEmpty(WithKey(computed, col, k), col + 1, end, bound);
      CountEmpty(WithKey(expected, col, k), col + 1, end', bound);
      CountEmpty(WithKey(computed, col, k), col + 1, end', bound);
    }
    assert JustifiedAt(e, c, expected, computed, col, end', bound);
  }

  lemma {:induction false} CountEmpty(rows: seq<Row>, col: nat, end: nat, bound: seq<bool>)
    requires end <= |bound| && end <= col
    ensures Count(rows, col, end, bound, []) == |rows|
  {
    if rows != [] {
      CountEmpty(rows[1..], col, end, bound);
    }
  }

  // ---------- all groups ----------

  // The outcome once the groups of the keys in done have been matched.
  ghost predicate Partial(expected: seq<Row>, computed: seq<Row>, col: nat, bound: seq<bool>, done: set<string>,
                          o: Outcome)
  {
    && Conserves(multiset(InKeys(expected, col, done)) + multiset(Unreadable(expected, col)),
                 multiset(InKeys(computed, col, done)) + multiset(Unreadable(computed, col)), o)
    && (forall e :: e in o.missing ==> HasKeyIn(e, col, done))
    && (forall c :: c in o.surplus && Key(c, col).Some? ==> HasKeyIn(c, col, done))
    && Apart(o, col, bound)
    && Justified(o, expected, computed, col, bound)
    && (Reordered(expected, computed, col, bound) ==> o.missing == [] && o.surplus == [] && o.failed == [])
  }

  lemma PartialStarts(expected: seq<Row>, computed: seq<Row>, col: nat, bound: seq<bool>)
    requires col < |bound| && bound[col]
    ensures Partial(expected, computed, col, bound, {},
                    NOTHING.(failed := Unreadable(expected, col), surplus := Unreadable(computed, col)))
  {
    hide Prefix, Key;
    InNoKeys(expected, col);
    InNoKeys(computed, col);
    forall c | c in Unreadable(computed, col) ensures Key(c, col).None? {
      UnreadableMembers(computed, col, c);
    }
    if Reordered(expected, computed, col, bound) {
      ReorderedReadable(expected, computed, col, bound);
    }
  }

  lemma JoinConserves(e1: multiset<Row>, c1: multiset<Row>, o1: Outcome, e2: multiset<Row>, c2: multiset<Row>,
                      o2: Outcome)
    requires Conserves(e1, c1, o1) && Conserves(e2, c2, o2)
    ensures Conserves(e1 + e2, c1 + c2, Join(o1, o2))
  {
    assert Firsts(o1.paired + o2.paired) == Firsts(o1.paired) + Firsts(o2.paired);
    assert Seconds(o1.paired + o2.paired) == Seconds(o1.paired) + Seconds(o2.paired);
  }

  // The rows a group leaves over have its key.
  lemma GroupLeaves(expected: seq<Row>, computed: seq<Row>, col: nat, bound: seq<bool>, k: string, g: Outcome)
    requires GroupMatched(expected, computed, col, bound, k, g)
    ensures forall e :: e in g.missing ==> Key(e, col) == Some(k)
    ensures forall c :: c in g.surplus ==> Key(c, col) == Some(k)
  {
    hide Key, WithKey, Prefix;
    forall e | e in g.missing ensures Key(e, col) == Some(k) {
      assert e in multiset(WithKey(expected, col, k));
      WithKeyMembers(expected, col, k, e);
    }
    forall c | c in g.surplus ensures Key(c, col) == Some(k) {
      assert c in multiset(WithKey(computed, col, k));
      WithKeyMembers(computed, col, k, c);
    }
  }

  lemma PartialGrows(expected: seq<Row>, computed: seq<Row>, col: nat, bound: seq<bool>, done: set<string>,
                     o: Outcome, k: string, g: Outcome)
    requires col < |bound| && bound[col] && k !in done
    requires Partial(expected, computed, col, bound, done, o) && GroupMatched(expected, computed, col, bound, k, g)
    ensures Partial(expected, computed, col, bound, done + {k}, Join(o, g))
  {
    hide Prefix, Key, Conserves, WithKey, InKeys, Unreadable, Reordered, JustifiedAt;
    InOneMoreKey(expected, col, done, k);
    InOneMoreKey(computed, col, done, k);
    var bad, badC := multiset(Unreadable(expected, col)), multiset(Unreadable(computed, col));
    var e1, c1 := multiset(InKeys(expected, col, done)) + bad, multiset(InKeys(computed, col, done)) + badC;
    var e2, c2 := multiset(WithKey(expected, col, k)), multiset(WithKey(computed, col, k));
    JoinConserves(e1, c1, o, e2, c2, g);
    assert e1 + e2 == multiset(InKeys(expected, col, done + {k})) + bad;
    assert c1 + c2 == multiset(InKeys(computed, col, done + {k})) + badC;
    GroupLeaves(expected, computed, col, bound, k, g);
    forall e, c | e in Join(o, g).missing && c in Join(o, g).surplus ensures !SameKeys(e, c, col, |bound|, bound) {
      if Key(e, col) != Key(c, col) {
        DifferentKeys(e, c, col, bound);
      }
      if Key(c, col).None? {
        UnreadableKey(c, col, bound);
      }
    }
  }

  lemma DifferentKeys(e: Row, c: Row, col: nat, bound: seq<bool>)
    requires col < |bound| && bound[col] && Key(e, col) != Key(c, col)
    ensures !SameKeys(e, c, col, |bound|, bound)
  {
    hide Key;
    PrefixFirst(e, col, bound);
    PrefixFirst(c, col, bound);
  }

  lemma UnreadableKey(c: Row, col: nat, bound: seq<bool>)
    requires col < |bound| && bound[col] && Key(c, col).None?
    ensures forall e :: !SameKeys(e, c, col, |bound|, bound)
  {
    hide Key;
    PrefixFirst(c, col, bound);
  }

  lemma PartialEnds(expected: seq<Row>, computed: seq<Row>, col: nat, bound: seq<bool>, done: set<string>, o: Outcome)
    requires Partial(expected, computed, col, bound, done, o)
    requires forall k :: WithKey(expected, col, k) != [] || WithKey(computed, col, k) != [] ==> k in done
    ensures Matched(expected, computed, col, bound, o)
  {
    hide Key, WithKey, Prefix, Conserves, InKeys, Unreadable;
    forall x | (x in expected || x in computed) && Key(x, col).Some? ensures Key(x, col).value in done {
      WithKeyMembers(expected, col, Key(x, col).value, x);
      WithKeyMembers(computed, col, Key(x, col).value, x);
    }
    InAllKeys(expected, col, done);
    InAllKeys(computed, col, done);
  }

  lemma SkipUnbound(expected: seq<Row>, computed: seq<Row>, col: nat, bound: seq<bool>, o: Outcome)
    requires col < |bound| && !bound[col] && Matched(expected, computed, col + 1, bound, o)
    ensures Matched(expected, computed, col, bound, o)
  {
    hide Conserves;
    forall e, c | (e, c) in o.paired ensures exists end :: JustifiedAt(e, c, expected, computed, col, end, bound) {
      var end :| JustifiedAt(e, c, expected, computed, col + 1, end, bound);
      if col < end {
        CountUnbound(expected, col, end, bound, Prefix(e, col, end, bound));
        CountUnbound(computed, col, end, bound, Prefix(e, col, end, bound));
        assert JustifiedAt(e, c, expected, computed, col, end, bound);
      } else {
        CountEmpty(expected, col + 1, end, bound);
        CountEmpty(computed, col + 1, end, bound);
        CountEmpty(expected, col, end, bound);
        CountEmpty(computed, col, end, bound);
        assert JustifiedAt(e, c, expected, computed, col, end, bound);
      }
    }
    if Reordered(expected, computed, col, bound) {
      var next, n := col + 1, |bound|;
      forall t ensures Count(expected, next, n, bound, t) == Count(computed, next, n, bound, t) {
        CountUnbound(expected, col, n, bound, t);
        CountUnbound(computed, col, n, bound, t);
      }
    }
  }

  // ---------- rows that cannot be compared ----------

  // A cell of the row is in an unbound column.
  predicate Breaks(row: Row, bound: seq<bool>) {
    exists i :: 0 <= i < |bound| && i < row.cells && !bound[i]
  }

  // The expected row is compared with a computed one: it is among the first rows of a group without
  // bound columns left, or it is the only expected row with its key for the only computed one.
  ghost predicate Checked(e: Row, expected: seq<Row>, computed: seq<Row>, col: nat, bound: seq<bool>)
    decreases |bound| - col
  {
    if col >= |bound| then exists i :: 0 <= i < |expected| && i < |computed| && expected[i] == e
    else if !bound[col] then Checked(e, expected, computed, col + 1, bound)
    else Key(e, col).Some? && CheckedInGroup(e, expected, computed, col, bound, Key(e, col).value)
  }

  ghost predicate CheckedInGroup(e: Row, expected: seq<Row>, computed: seq<Row>, col: nat, bound: seq<bool>, k: string)
    requires col < |bound|
    decreases |bound| - col, 0
  {
    var es, cs := WithKey(expected, col, k), WithKey(computed, col, k);
    es != [] && cs != [] && if |es| == 1 && |cs| == 1 then e in es else Checked(e, es, cs, col + 1, bound)
  }

  ghost predicate NoneBreaks(expected: seq<Row>, computed: seq<Row>, col: nat, bound: seq<bool>) {
    forall e :: Checked(e, expected, computed, col, bound) ==> !Breaks(e, bound)
  }

  ghost predicate PairsAreChecked(o: Outcome, expected: seq<Row>, computed: seq<Row>, col: nat, bound: seq<bool>) {
    forall e :: e in Firsts(o.paired) <==> Checked(e, expected, computed, col, bound)
  }

  // No row is used twice, but on each side at least one is lost.
  ghost predicate Loses(expected: multiset<Row>, computed: multiset<Row>, o: Outcome) {
    && multiset(o.missing) + multiset(o.failed) + multiset(Firsts(o.paired)) < expected
    && multiset(o.surplus) + multiset(Seconds(o.paired)) < computed
  }

  ghost predicate Ends(expected: seq<Row>, computed: seq<Row>, bound: seq<bool>) {
    forall i :: 0 <= i < |expected| && i < |computed| ==> !Breaks(expected[i], bound)
  }

  // The pair at n is the first one that cannot be compared.
  ghost predicate StopsAt(expected: seq<Row>, computed: seq<Row>, bound: seq<bool>, n: nat) {
    n < |expected| && n < |computed| && Breaks(expected[n], bound) && Ends(expected[..n], computed[..n], bound)
  }

  ghost predicate StoppedWith(expected: seq<Row>, computed: seq<Row>, bound: seq<bool>, n: nat, o: Outcome) {
    StopsAt(expected, computed, bound, n) && o == Zipped(expected[..n], computed[..n])
  }

  lemma StopsLater(expected: seq<Row>, computed: seq<Row>, bound: seq<bool>, n: nat, o: Outcome)
    requires expected != [] && computed != [] && !Breaks(expected[0], bound)
    requires StoppedWith(expected[1..], computed[1..], bound, n, o)
    ensures StoppedWith(expected, computed, bound, n + 1, Join(NOTHING.(paired := [(expected[0], computed[0])]), o))
  {
    hide Breaks, Join;
    assert expected[..n + 1][1..] == expected[1..][..n] && computed[..n + 1][1..] == computed[1..][..n];
    forall i | 0 <= i < n + 1 ensures !Breaks(expected[i], bound) {
      assert i > 0 ==> expected[i] == expected[1..][..n][i - 1];
    }
  }

  lemma StoppedLoses(expected: seq<Row>, computed: seq<Row>, bound: seq<bool>, o: Outcome)
    requires exists n: nat :: StoppedWith(expected, computed, bound, n, o)
    ensures Loses(multiset(expected), multiset(computed), o) && !Ends(expected, computed, bound)
  {
    hide Zipped, Breaks;
    var n: nat :| StoppedWith(expected, computed, bound, n, o);
    ZippedConserves(expected[..n], computed[..n]);
    ProperPrefix(expected, n);
    ProperPrefix(computed, n);
  }

  lemma ProperPrefix(rows: seq<Row>, n: nat)
    requires n < |rows|
    ensures multiset(rows[..n]) < multiset(rows)
  {
    assert rows == rows[..n] + rows[n..] && rows[n] in rows[n..];
    assert multiset(rows) == multiset(rows[..n]) + multiset(rows[n..]);
    assert rows[n] in multiset(rows[n..]);
  }

  lemma {:induction false} ZippedFirsts(expected: seq<Row>, computed: seq<Row>, e: Row)
    ensures e in Firsts(Zipped(expected, computed).paired)
       <==> exists i :: 0 <= i < |expected| && i < |computed| && expected[i] == e
  {
    if expected != [] && computed != [] {
      var rest := Zipped(expected[1..], computed[1..]);
      ZippedFirsts(expected[1..], computed[1..], e);
      assert Firsts(Zipped(expected, computed).paired) == [expected[0]] + Firsts(rest.paired);
      if i :| 0 <= i < |expected| && i < |computed| && expected[i] == e {
        assert i > 0 ==> expected[1..][i - 1] == e;
      }
    }
  }

  // With no bound column left the rows compared are those that have a partner.
  lemma CheckAll(expected: seq<Row>, computed: seq<Row>, col: nat, bound: seq<bool>)
    requires col >= |bound|
    ensures NoneBreaks(expected, computed, col, bound) <==> Ends(expected, computed, bound)
    ensures PairsAreChecked(Zipped(expected, computed), expected, computed, col, bound)
  {
    hide Breaks, Zipped;
    forall e ensures e in Firsts(Zipped(expected, computed).paired) <==> Checked(e, expected, computed, col, bound) {
      ZippedFirsts(expected, computed, e);
    }
    if NoneBreaks(expected, computed, col, bound) {
      forall i | 0 <= i < |expected| && i < |computed| ensures !Breaks(expected[i], bound) {
        assert Checked(expected[i], expected, computed, col, bound);
      }
    }
  }

  lemma {:induction false} CheckedIsExpected(e: Row, expected: seq<Row>, computed: seq<Row>, col: nat, bound: seq<bool>)
    requires Checked(e, expected, computed, col, bound)
    ensures e in expected
    decreases |bound| - col
  {
    if col < |bound| {
      if !bound[col] {
        CheckedIsExpected(e, expected, computed, col + 1, bound);
      } else {
        var k := Key(e, col).value;
        var es, cs := WithKey(expected, col, k), WithKey(computed, col, k);
        if !(|es| == 1 && |cs| == 1) {
          CheckedIsExpected(e, es, cs, col + 1, bound);
        }
        WithKeyMembers(expected, col, k, e);
      }
    }
  }

  // ---------- the rows compared within a group ----------

  ghost predicate GroupBreaksNot(expected: seq<Row>, computed: seq<Row>, col: nat, bound: seq<bool>, k: string)
    requires col < |bound|
  {
    forall e :: CheckedInGroup(e, expected, computed, col, bound, k) ==> !Breaks(e, bound)
  }

  ghost predicate GroupPairs(expected: seq<Row>, computed: seq<Row>, col: nat, bound: seq<bool>, k: string, g: Outcome)
    requires col < |bound|
  {
    forall e :: e in Firsts(g.paired) <==> CheckedInGroup(e, expected, computed, col, bound, k)
  }

  lemma CheckOne(expected: seq<Row>, computed: seq<Row>, col: nat, bound: seq<bool>, k: string)
    requires col < |bound| && |WithKey(expected, col, k)| == 1 && |WithKey(computed, col, k)| == 1
    ensures var es, cs := WithKey(expected, col, k), WithKey(computed, col, k);
            && (GroupBreaksNot(expected, computed, col, bound, k) <==> Ends(es, cs, bound))
            && GroupPairs(expected, computed, col, bound, k, Zipped(es, cs))
  {
    hide WithKey, Breaks;
    var es, cs := WithKey(expected, col, k), WithKey(computed, col, k);
    assert Zipped(es, cs).paired == [(es[0], cs[0])];
    assert Firsts(Zipped(es, cs).paired) == [es[0]] == es;
    assert CheckedInGroup(es[0], expected, computed, col, bound, k);
  }

  lemma CheckGroup(expected: seq<Row>, computed: seq<Row>, col: nat, bound: seq<bool>, k: string, g: Outcome)
    requires col < |bound|
    requires var es, cs := WithKey(expected, col, k), WithKey(computed, col, k);
             es != [] && cs != [] && !(|es| == 1 && |cs| == 1)
    ensures var es, cs := WithKey(expected, col, k), WithKey(computed, col, k);
            && (GroupBreaksNot(expected, computed, col, bound, k) <==> NoneBreaks(es, cs, col + 1, bound))
            && (GroupPairs(expected, computed, col, bound, k, g) <==> PairsAreChecked(g, es, cs, col + 1, bound))
  {
    hide WithKey, Breaks, Checked;
    var es, cs := WithKey(expected, col, k), WithKey(computed, col, k);
    assert forall e :: CheckedInGroup(e, expected, computed, col, bound, k) <==> Checked(e, es, cs, col + 1, bound);
  }

  // A row compared in the group of k has the key k.
  lemma CheckedHasKey(e: Row, expected: seq<Row>, computed: seq<Row>, col: nat, bound: seq<bool>, k: string)
    requires col < |bound| && CheckedInGroup(e, expected, computed, col, bound, k)
    ensures Key(e, col) == Some(k) && e in WithKey(expected, col, k)
  {
    hide WithKey, Checked, Key;
    var es, cs := WithKey(expected, col, k), WithKey(computed, col, k);
    if !(|es| == 1 && |cs| == 1) {
      CheckedIsExpected(e, es, cs, col + 1, bound);
    }
    WithKeyMembers(expected, col, k, e);
  }

  lemma GroupBreaks(expected: seq<Row>, computed: seq<Row>, col: nat, bound: seq<bool>, k: string)
    requires col < |bound| && bound[col] && !GroupBreaksNot(expected, computed, col, bound, k)
    ensures !NoneBreaks(expected, computed, col, bound)
  {
    hide CheckedInGroup, Breaks, Key;
    var e :| CheckedInGroup(e, expected, computed, col, bound, k) && Breaks(e, bound);
    CheckedHasKey(e, expected, computed, col, bound, k);
    assert Checked(e, expected, computed, col, bound);
  }

  // The pairs made once the groups of the keys in done have been matched.
  ghost predicate GroupsPaired(expected: seq<Row>, computed: seq<Row>, col: nat, bound: seq<bool>, done: set<string>,
                               o: Outcome)
  {
    forall e :: e in Firsts(o.paired) <==> HasKeyIn(e, col, done) && Checked(e, expected, computed, col, bound)
  }

  lemma GroupsPairedStart(expected: seq<Row>, computed: seq<Row>, col: nat, bound: seq<bool>, o: Outcome)
    requires o.paired == []
    ensures GroupsPaired(expected, computed, col, bound, {}, o)
  {
    hide Checked, Key;
  }

  lemma GroupsPairedGrow(expected: seq<Row>, computed: seq<Row>, col: nat, bound: seq<bool>, done: set<string>,
                         o: Outcome, k: string, g: Outcome)
    requires col < |bound| && bound[col]
    requires GroupsPaired(expected, computed, col, bound, done, o) && GroupPairs(expected, computed, col, bound, k, g)
    ensures GroupsPaired(expected, computed, col, bound, done + {k}, Join(o, g))
  {
    hide CheckedInGroup, Key;
    assert Firsts(Join(o, g).paired) == Firsts(o.paired) + Firsts(g.paired);
    forall e ensures e in Firsts(g.paired) <==> Key(e, col) == Some(k) && Checked(e, expected, computed, col, bound) {
      if e in Firsts(g.paired) {
        CheckedHasKey(e, expected, computed, col, bound, k);
      }
    }
  }

  lemma GroupsPairedEnd(expected: seq<Row>, computed: seq<Row>, col: nat, bound: seq<bool>, done: set<string>,
                        o: Outcome)
    requires col < |bound| && bound[col]
    requires forall k :: WithKey(expected, col, k) != [] || WithKey(computed, col, k) != [] ==> k in done
    requires GroupsPaired(expected, computed, col, bound, done, o)
    requires forall k :: k in done ==> GroupBreaksNot(expected, computed, col, bound, k)
    ensures NoneBreaks(expected, computed, col, bound) && PairsAreChecked(o, expected, computed, col, bound)
  {
    hide CheckedInGroup, Key, WithKey, Breaks;
    forall e | Checked(e, expected, computed, col, bound) ensures HasKeyIn(e, col, done) && !Breaks(e, bound) {
      var k := Key(e, col).value;
      CheckedHasKey(e, expected, computed, col, bound, k);
      assert k in done && GroupBreaksNot(expected, computed, col, bound, k);
    }
  }

  lemma {:induction false} InFewerKeys(rows: seq<Row>, col: nat, ks: set<string>, all: set<string>)
    requires ks <= all
    ensures multiset(InKeys(rows, col, ks)) <= multiset(InKeys(rows, col, all))
  {
    if rows != [] {
      InFewerKeys(rows[1..], col, ks, all);
    }
  }

  // The rows of some of the keys and the rows without a key are among all rows.
  lemma InSomeKeys(rows: seq<Row>, col: nat, ks: set<string>)
    ensures multiset(InKeys(rows, col, ks)) + multiset(Unreadable(rows, col)) <= multiset(rows)
  {
    hide InKeys, Unreadable, Key;
    var all := ks + set x | x in rows && Key(x, col).Some? :: Key(x, col).value;
    InFewerKeys(rows, col, ks, all);
    InAllKeys(rows, col, all);
  }

  lemma PartialLoses(expected: seq<Row>, computed: seq<Row>, col: nat, bound: seq<bool>, done: set<string>, o: Outcome,
                     k: string, g: Outcome)
    requires k !in done && Partial(expected, computed, col, bound, done, o)
    requires Loses(multiset(WithKey(expected, col, k)), multiset(WithKey(computed, col, k)), g)
    ensures Loses(multiset(expected), multiset(computed), Join(o, g))
  {
    hide Key, WithKey, InKeys, Unreadable, Apart, Justified, Reordered;
    InOneMoreKey(expected, col, done, k);
    InOneMoreKey(computed, col, done, k);
    InSomeKeys(expected, col, done + {k});
    InSomeKeys(computed, col, done + {k});
    var bad, badC := multiset(Unreadable(expected, col)), multiset(Unreadable(computed, col));
    var e1, c1 := multiset(InKeys(expected, col, done)) + bad, multiset(InKeys(computed, col, done)) + badC;
    JoinLoses(e1, c1, o, multiset(WithKey(expected, col, k)), multiset(WithKey(computed, col, k)), g);
  }

  lemma JoinLoses(e1: multiset<Row>, c1: multiset<Row>, o: Outcome, e2: multiset<Row>, c2: multiset<Row>, g: Outcome)
    requires Conserves(e1, c1, o) && Loses(e2, c2, g)
    ensures Loses(e1 + e2, c1 + c2, Join(o, g))
  {
    assert Firsts(o.paired + g.paired) == Firsts(o.paired) + Firsts(g.paired);
    assert Seconds(o.paired + g.paired) == Seconds(o.paired) + Seconds(g.paired);
    var m, f, p := multiset(g.missing), multiset(g.failed), multiset(Firsts(g.paired));
    var m', f', p' := multiset(o.missing), multiset(o.failed), multiset(Firsts(o.paired));
    assert multiset(Join(o, g).missing) + multiset(Join(o, g).failed) + multiset(Firsts(Join(o, g).paired))
        == (m' + f' + p') + (m + f + p);
    var s, q, s', q' :=
      multiset(g.surplus), multiset(Seconds(g.paired)), multiset(o.surplus), multiset(Seconds(o.paired));
    assert multiset(Join(o, g).surplus) + multiset(Seconds(Join(o, g).paired)) == (s' + q') + (s + q);
    ProperSum(e1, m + f + p, e2);
    ProperSum(c1, s + q, c2);
  }

  lemma ProperSum(a: multiset<Row>, b: multiset<Row>, c: multiset<Row>)
    requires b < c
    ensures a + b < a + c
  {
    if a + b == a + c {
      CancelSum(a, b, c);
    }
  }

  lemma CancelSum(a: multiset<Row>, b: multiset<Row>, c: multiset<Row>)
    requires a + b == a + c
    ensures b == c
  {
    assert forall x :: (a + b)[x] == a[x] + b[x] && (a + c)[x] == a[x] + c[x];
  }

  // ---------- the fixture ----------

  class RowFixture {
    const bound: seq<bool>  // which columns are bound to a property
    var missing: seq<Row>
    var surplus: seq<Row>
    ghost var paired: seq<(Row, Row)>  // the rows whose cells were compared
    ghost var failed: seq<Row>  // the expected rows marked with an exception

    constructor (bound: seq<bool>)
      ensures this.bound == bound && Results() == NOTHING
    {
      this.bound := bound;
      missing, surplus, paired, failed := [], [], [], [];
    }

    ghost function Results(): Outcome
      reads this
    {
      Outcome(missing, surplus, paired, failed)
    }

    // The cells of an expected row, compared with the properties of the row it is paired with.
    method CompareCells(row: Row) returns (ok: bool)
      ensures ok <==> !Breaks(row, bound)
    {
      for i := 0 to |bound|
        invariant i <= row.cells && forall j :: 0 <= j < i ==> bound[j]
      {
        if i == row.cells {
          return true;
        }
        if !bound[i] {
          return false;
        }
      }
      return true;
    }

    method Check(expected: seq<Row>, computed: seq<Row>) returns (ghost o: Outcome, ok: bool)
      modifies this
      ensures Results() == Join(old(Results()), o)
      ensures ok ==> Ends(expected, computed, bound) && o == Zipped(expected, computed)
      ensures !ok ==> exists n: nat :: StoppedWith(expected, computed, bound, n, o)
      decreases |expected|
    {
      if expected == [] {
        surplus := surplus + computed;
        return Zipped(expected, computed), true;
      }
      if computed == [] {
        missing := missing + expected;
        return Zipped(expected, computed), true;
      }
      ok := CompareCells(expected[0]);
      if !ok {
        o := NOTHING;
        assert StoppedWith(expected, computed, bound, 0, o);
        return;
      }
      ghost var first := NOTHING.(paired := [(expected[0], computed[0])]);
      paired := paired + [(expected[0], computed[0])];
      o, ok := Check(expected[1..], computed[1..]);
      JoinAssoc(old(Results()), first, o);
      if !ok {
        ghost var n: nat :| StoppedWith(expected[1..], computed[1..], bound, n, o);
        StopsLater(expected, computed, bound, n, o);
      }
      o := Join(first, o);
    }

    // Sorts both lists by their keys in a column and matches the rows of each key further on. The
    // matching ends unless a row it compares has a cell in an unbound column; then rows are lost.
    method Match(expected: seq<Row>, computed: seq<Row>, col: nat) returns (ghost o: Outcome, ok: bool)
      modifies this
      ensures Results() == Join(old(Results()), o)
      ensures ok <==> NoneBreaks(expected, computed, col, bound)
      ensures (forall i :: 0 <= i < |bound| ==> bound[i]) ==> ok
      ensures ok ==> Matched(expected, computed, col, bound, o) && PairsAreChecked(o, expected, computed, col, bound)
      ensures !ok ==> Loses(multiset(expected), multiset(computed), o)
      decreases |bound| - col, 1
    {
      hide Matched, Zipped, Partial, Join, Loses, Ends, StoppedWith;
      if col >= |bound| {
        o, ok := Check(expected, computed);
        ZippedMatches(expected, computed, col, bound);
        CheckAll(expected, computed, col, bound);
        if !ok {
          StoppedLoses(expected, computed, bound, o);
        }
      } else if !bound[col] {
        o, ok := Match(expected, computed, col + 1);
        if ok {
          SkipUnbound(expected, computed, col, bound, o);
        }
      } else {
        o, ok := MatchGroups(expected, computed, col);
      }
    }

    method MatchGroups(expected: seq<Row>, computed: seq<Row>, col: nat) returns (ghost o: Outcome, ok: bool)
      requires col < |bound| && bound[col]
      modifies this
      ensures Results() == Join(old(Results()), o)
      ensures ok <==> NoneBreaks(expected, computed, col, bound)
      ensures ok ==> Matched(expected, computed, col, bound, o) && PairsAreChecked(o, expected, computed, col, bound)
      ensures !ok ==> Loses(multiset(expected), multiset(computed), o)
      decreases |bound| - col, 0
    {
      hide Matched, Partial, Join, WithKey, Unreadable, Loses, GroupBreaksNot, GroupPairs, GroupsPaired, NoneBreaks;
      var eMap, bad := BinRows(expected, col);
      var cMap, badC := BinRows(computed, col);
      failed := failed + bad;
      surplus := surplus + badC;
      o := NOTHING.(failed := bad, surplus := badC);
      JoinFailed(old(Results()), bad, badC);
      PartialStarts(expected, computed, col, bound);
      var keys := eMap.Keys + cMap.Keys;
      ghost var done: set<string> := {};
      GroupsPairedStart(expected, computed, col, bound, o);
      while keys != {}
        invariant keys !! done && keys + done == eMap.Keys + cMap.Keys
        invariant Results() == Join(old(Results()), o)
        invariant Partial(expected, computed, col, bound, done, o)
        invariant GroupsPaired(expected, computed, col, bound, done, o)
        invariant forall k :: k in done ==> GroupBreaksNot(expected, computed, col, bound, k)
      {
        var k :| k in keys;
        ghost var g;
        g, ok := MatchGroup(expected, computed, col, k, eMap, cMap);
        JoinAssoc(old(Results()), o, g);
        if !ok {
          PartialLoses(expected, computed, col, bound, done, o, k, g);
          GroupBreaks(expected, computed, col, bound, k);
          o := Join(o, g);
          return;
        }
        PartialGrows(expected, computed, col, bound, done, o, k, g);
        GroupsPairedGrow(expected, computed, col, bound, done, o, k, g);
        o := Join(o, g);
        keys := keys - {k};
        done := done + {k};
      }
      PartialEnds(expected, computed, col, bound, done, o);
      GroupsPairedEnd(expected, computed, col, bound, done, o);
      ok := true;
    }

    method MatchGroup(ghost expected: seq<Row>, ghost computed: seq<Row>, col: nat, k: string,
                      eMap: map<string, seq<Row>>, cMap: map<string, seq<Row>>)
      returns (ghost g: Outcome, ok: bool)
      requires col < |bound| && bound[col] && (k in eMap || k in cMap)
      requires Binned(eMap, Unreadable(expected, col), expected, col)
      requires Binned(cMap, Unreadable(computed, col), computed, col)
      modifies this
      ensures Results() == Join(old(Results()), g)
      ensures ok <==> GroupBreaksNot(expected, computed, col, bound, k)
      ensures ok ==>
                GroupMatched(expected, computed, col, bound, k, g) && GroupPairs(expected, computed, col, bound, k, g)
      ensures !ok ==> Loses(multiset(WithKey(expected, col, k)), multiset(WithKey(computed, col, k)), g)
      decreases |bound| - col - 1, 2
    {
      hide Matched, WithKey, Unreadable, GroupMatched, Zipped, Loses, Checked, Ends, StoppedWith, Key;
      GroupMissing(expected, computed, col, bound, k);
      if k !in eMap {
        g, ok := NOTHING.(surplus := cMap[k]), true;
        surplus := surplus + cMap[k];
      } else if k !in cMap {
        g, ok := NOTHING.(missing := eMap[k]), true;
        missing := missing + eMap[k];
      } else if |eMap[k]| == 1 && |cMap[k]| == 1 {
        g, ok := Check(eMap[k], cMap[k]);
        GroupOfOne(expected, computed, col, bound, k);
        CheckOne(expected, computed, col, bound, k);
        if !ok {
          StoppedLoses(eMap[k], cMap[k], bound, g);
        }
      } else {
        g, ok := Match(eMap[k], cMap[k], col + 1);
        if ok {
          GroupMatchedFurther(expected, computed, col, bound, k, g);
        }
        CheckGroup(expected, computed, col, bound, k, g);
      }
    }
  }

  lemma JoinAssoc(a: Outcome, b: Outcome, c: Outcome)
    ensures Join(Join(a, b), c) == Join(a, Join(b, c))
  {
  }

  lemma JoinFailed(a: Outcome, bad: seq<Row>, badC: seq<Row>)
    ensures Join(a, NOTHING.(failed := bad, surplus := badC))
            == a.(failed := a.failed + bad, surplus := a.surplus + badC)
  {
  }

  // One expected and one computed row with the same key, and a cell in an unbound column: both rows
  // end neither paired nor missing, surplus or failed.
  method LoseOneRow(id: int, other: int, key: string) returns (fixture: RowFixture, ok: bool)
    ensures !ok && fixture.missing == [] && fixture.surplus == [] && fixture.paired == [] && fixture.failed == []
  {
    hide NoneBreaks, Matched, Loses;
    fixture := new RowFixture([true, false]);
    var e, c := Row(id, 2, [Some(key)]), Row(other, 2, [Some(key)]);
    OneRowBreaks(e, c, key);
    ghost var o;
    o, ok := fixture.Match([e], [c], 0);
    OnlyRowLost(e, c, o);
  }

  lemma OneRowBreaks(e: Row, c: Row, key: string)
    requires e.cells == 2 && Key(e, 0) == Key(c, 0) == Some(key)
    ensures !NoneBreaks([e], [c], 0, [true, false])
  {
    hide Key;
    assert WithKey([e], 0, key) == [e] && WithKey([c], 0, key) == [c];
    assert Checked(e, [e], [c], 0, [true, false]);
    assert ![true, false][1];
  }

  lemma OnlyRowLost(e: Row, c: Row, o: Outcome)
    requires Loses(multiset{e}, multiset{c}, o)
    ensures o == NOTHING
  {
    BelowOne(multiset(o.missing) + multiset(o.failed) + multiset(Firsts(o.paired)), e);
    BelowOne(multiset(o.surplus) + multiset(Seconds(o.paired)), c);
    assert |multiset(o.missing) + multiset(o.failed) + multiset(Firsts(o.paired))| == 0;
    assert |multiset(o.surplus) + multiset(Seconds(o.paired))| == 0;
  }

  lemma BelowOne(rows: multiset<Row>, x: Row)
    requires rows < multiset{x}
    ensures rows == multiset{}
  {
    NoneOrOne(rows, x);
  }

  lemma NoneOrOne(rows: multiset<Row>, x: Row)
    requires rows <= multiset{x}
    ensures rows == multiset{} || rows == multiset{x}
  {
    if rows[x] == 0 {
      assert rows == multiset{};
    } else {
      assert rows == multiset{x};
    }
  }
}
