// Numbers with units (extra/lesscss/less-rhino-1.7.0.js, tree.Dimension and tree.Unit), over exact reals.
module Units {
  import opened Wrappers
  import opened Sequences
  import opened Strings

  // ---------- the conversion table ----------

  datatype Group = Length | Duration | Angle

  const PI: real := 3.141592653589793115997963468544185161590576171875

  function Entry(u: string): (e: Option<(Group, real)>)
    ensures e.Some? ==> e.value.1 > 0.0
  {
    if u == "m" then Some((Length, 1.0))
    else if u == "cm" then Some((Length, 0.01))
    else if u == "mm" then Some((Length, 0.001))
    else if u == "in" then Some((Length, 0.0254))
    else if u == "px" then Some((Length, 0.0254 / 96.0))
    else if u == "pt" then Some((Length, 0.0254 / 72.0))
    else if u == "pc" then Some((Length, 0.0254 / 72.0 * 12.0))
    else if u == "s" then Some((Duration, 1.0))
    else if u == "ms" then Some((Duration, 0.001))
    else if u == "rad" then Some((Angle, 1.0 / (2.0 * PI)))
    else if u == "deg" then Some((Angle, 1.0 / 360.0))
    else if u == "grad" then Some((Angle, 1.0 / 400.0))
    else if u == "turn" then Some((Angle, 1.0))
    else None
  }

  function GroupOf(u: string): Option<Group> {
    if Entry(u).None? then None else Some(Entry(u).value.0)
  }

  // A unit outside the table is a scale of its own.
  function Scale(u: string): (s: real)
    ensures s > 0.0
  {
    if Entry(u).None? then 1.0 else Entry(u).value.1
  }

  // ---------- units and quantities ----------

  // No backup unit is the empty string: the library tests it for truth.
  datatype UnitParts = UnitParts(numerator: seq<string>, denominator: seq<string>, backupUnit: string)

  datatype Dimension = Dimension(value: real, unit: UnitParts)

  function Product(us: seq<string>): (p: real)
    ensures p > 0.0
  {
    if us == [] then 1.0 else Times(Scale(us[0]), Product(us[1..]))
  }

  function Times(a: real, b: real): (p: real)
    ensures a > 0.0 && b > 0.0 ==> p > 0.0
  {
    a * b
  }

  // The physical quantity: the value times the scales above the line over those below it.
  function Quantity(d: Dimension): real {
    Fraction(d.value, Product(d.unit.numerator), Product(d.unit.denominator))
  }

  function Fraction(v: real, n: real, d: real): real
    requires d > 0.0
  {
    v * n / d
  }

  // What a unit measures: units of one group measure the same, any other unit measures itself.
  datatype Kind = InGroup(group: Group) | Own(unit: string)

  function KindOf(u: string): Kind {
    if GroupOf(u).Some? then InGroup(GroupOf(u).value) else Own(u)
  }

  function CountOf(us: seq<string>, k: Kind): nat {
    if us == [] then 0 else (if KindOf(us[0]) == k then 1 else 0) + CountOf(us[1..], k)
  }

  function Exponent(p: UnitParts, k: Kind): int {
    CountOf(p.numerator, k) - CountOf(p.denominator, k)
  }

  ghost predicate SameKind(p: UnitParts, q: UnitParts) {
    forall k :: Exponent(p, k) == Exponent(q, k)
  }

  // ---------- products and counts do not depend on the order ----------

  lemma {:induction false} ProductOfConcat(a: seq<string>, b: seq<string>)
    ensures Product(a + b) == Times(Product(a), Product(b))
  {
    hide Scale, Times;
    if a == [] {
      assert a + b == b;
      TimesOne(Product(b));
    } else {
      ProductOfConcat(a[1..], b);
      assert (a + b)[1..] == a[1..] + b;
      TimesAssociates(Scale(a[0]), Product(a[1..]), Product(b));
    }
  }

  lemma TimesOne(a: real)
    ensures Times(1.0, a) == a
  {
  }

  lemma TimesAssociates(a: real, b: real, c: real)
    ensures Times(a, Times(b, c)) == Times(Times(a, b), c)
    ensures Times(a, Times(b, c)) == Times(b, Times(a, c))
    ensures a * (b * c) == a * b * c == b * (a * c)
  {
  }

  lemma {:induction false} CountOfConcat(a: seq<string>, b: seq<string>, k: Kind)
    ensures CountOf(a + b, k) == CountOf(a, k) + CountOf(b, k)
  {
    hide KindOf;
    if a == [] {
      assert a + b == b;
    } else {
      CountOfConcat(a[1..], b, k);
      assert (a + b)[1..] == a[1..] + b;
    }
  }

  lemma TakeOut(us: seq<string>, x: string) returns (i: nat)
    requires x in us
    ensures i < |us| && us[i] == x
    ensures us == us[..i] + ([x] + us[i + 1..])
    ensures multiset(us[..i] + us[i + 1..]) == multiset(us) - multiset{x}
  {
    i :| 0 <= i < |us| && us[i] == x;
    assert us == us[..i] + ([x] + us[i + 1..]);
    assert us == us[..i] + [x] + us[i + 1..];
  }

  lemma {:induction false} OrderDoesNotMatter(a: seq<string>, b: seq<string>, k: Kind)
    requires multiset(a) == multiset(b)
    ensures Product(a) == Product(b) && CountOf(a, k) == CountOf(b, k)
  {
    hide Scale, KindOf, Times, Product, CountOf;
    if a == [] {
      assert |multiset(a)| == |multiset(b)|;
    } else {
      SameElements(a, b, a[0]);
      var i := TakeOut(b, a[0]);
      MultisetOfHead(a);
      OrderDoesNotMatter(a[1..], b[..i] + b[i + 1..], k);
      WithOneMore(b[..i], a[0], b[i + 1..], k);
      HeadFirst(a, k);
    }
  }

  lemma HeadFirst(us: seq<string>, k: Kind)
    requires us != []
    ensures Product(us) == Times(Scale(us[0]), Product(us[1..]))
    ensures CountOf(us, k) == (if KindOf(us[0]) == k then 1 else 0) + CountOf(us[1..], k)
  {
  }

  lemma WithOneMore(a: seq<string>, x: string, b: seq<string>, k: Kind)
    ensures Product(a + ([x] + b)) == Times(Scale(x), Product(a + b))
    ensures CountOf(a + ([x] + b), k) == (if KindOf(x) == k then 1 else 0) + CountOf(a + b, k)
  {
    hide Scale, KindOf, Times;
    ProductOfConcat(a, [x] + b);
    ProductOfConcat(a, b);
    CountOfConcat(a, [x] + b, k);
    CountOfConcat(a, b, k);
    assert ([x] + b)[1..] == b;
    TimesAssociates(Product(a), Scale(x), Product(b));
  }

  // ---------- cancelling ----------

  function Surplus(a: seq<string>, b: seq<string>, u: string): nat {
    if multiset(a)[u] > multiset(b)[u] then multiset(a)[u] - multiset(b)[u] else 0
  }

  function FirstName(us: seq<string>): string {
    if us == [] then "" else if us[0] != "" then us[0] else FirstName(us[1..])
  }

  // No unit is left both above and below the line, and each keeps its net exponent.
  ghost predicate Cancelled(from: UnitParts, to: UnitParts) {
    && (forall u :: multiset(to.numerator)[u] == Surplus(from.numerator, from.denominator, u))
    && (forall u :: multiset(to.denominator)[u] == Surplus(from.denominator, from.numerator, u))
    && Ascending(to.numerator) && Ascending(to.denominator)
    && var first := FirstName(from.numerator + from.denominator);
    to.backupUnit == if to.numerator == [] && to.denominator == [] && first != "" then first else from.backupUnit
  }

  lemma CancelMoves(from: UnitParts, to: UnitParts)
    requires Cancelled(from, to)
    ensures multiset(from.numerator + to.denominator) == multiset(to.numerator + from.denominator)
  {
    var l, r := from.numerator + to.denominator, to.numerator + from.denominator;
    forall u ensures multiset(l)[u] == multiset(r)[u] {
      assert multiset(l)[u] == multiset(from.numerator)[u] + multiset(to.denominator)[u];
      assert multiset(r)[u] == multiset(to.numerator)[u] + multiset(from.denominator)[u];
    }
  }

  lemma CancelKeepsKind(from: UnitParts, to: UnitParts)
    requires Cancelled(from, to)
    ensures SameKind(from, to)
  {
    hide Cancelled, Product, CountOf, KindOf;
    CancelMoves(from, to);
    forall k ensures Exponent(from, k) == Exponent(to, k) {
      OrderDoesNotMatter(from.numerator + to.denominator, to.numerator + from.denominator, k);
      CountOfConcat(from.numerator, to.denominator, k);
      CountOfConcat(to.numerator, from.denominator, k);
    }
  }

  // Cancelling keeps the quantity.
  lemma CancelKeepsQuantity(value: real, from: UnitParts, to: UnitParts)
    requires Cancelled(from, to)
    ensures Quantity(Dimension(value, to)) == Quantity(Dimension(value, from))
  {
    hide Cancelled, Product, CountOf, Fraction;
    CancelMoves(from, to);
    OrderDoesNotMatter(from.numerator + to.denominator, to.numerator + from.denominator, Own(""));
    ProductOfConcat(from.numerator, to.denominator);
    ProductOfConcat(to.numerator, from.denominator);
    CrossRatio(value, Product(from.numerator), Product(from.denominator), Product(to.numerator),
               Product(to.denominator));
  }

  lemma CrossRatio(v: real, a: real, b: real, c: real, d: real)
    requires b > 0.0 && d > 0.0 && a * d == c * b
    ensures Fraction(v, a, b) == Fraction(v, c, d)
  {
    assert v * a * d == v * c * b by {
      TimesAssociates(v, a, d);
      TimesAssociates(v, c, b);
    }
    EqualRatios(v * a, b, v * c, d);
  }

  lemma EqualRatios(a: real, b: real, c: real, d: real)
    requires b > 0.0 && d > 0.0 && a * d == c * b
    ensures a / b == c / d
  {
    var x, y := a / b, c / d;
    assert x * b == a && y * d == c;
    assert x * b * d == y * d * b;
    SameFactor(x, y, b, d);
  }

  lemma SameFactor(x: real, y: real, b: real, d: real)
    requires b > 0.0 && d > 0.0 && x * b * d == y * d * b
    ensures x == y
  {
    var p := b * d;
    assert p > 0.0;
    assert x * p == x * b * d && y * p == y * d * b;
    assert (x - y) * p == 0.0;
  }

  class Unit {
    var numerator: seq<string>
    var denominator: seq<string>
    var backupUnit: string

    ghost function Parts(): UnitParts
      reads this
    {
      UnitParts(numerator, denominator, backupUnit)
    }

    constructor (parts: UnitParts)
      ensures Parts() == UnitParts(SortStrings(parts.numerator), SortStrings(parts.denominator), parts.backupUnit)
    {
      numerator, denominator, backupUnit :=
        SortStrings(parts.numerator), SortStrings(parts.denominator), parts.backupUnit;
    }

    // The unit of a number that is already there, with its units as they are.
    constructor AsIs(parts: UnitParts)
      ensures Parts() == parts
    {
      numerator, denominator, backupUnit := parts.numerator, parts.denominator, parts.backupUnit;
    }

    method Cancel()
      modifies this
      ensures Cancelled(old(Parts()), Parts())
    {
      hide SortStrings, FirstName, Get, Ascending, StrLess, Surplus, Cancelled, Product, Entry;
      ghost var from := Parts();
      var counter, backup := CountUnits();
      var above, below := Expand(counter);
      if above == [] && below == [] && backup != "" {
        backupUnit := backup;
      }
      numerator, denominator := SortStrings(above), SortStrings(below);
      ExpandedIsCancelled(from, counter, above, below, Parts());
    }

    method CountUnits() returns (counter: map<string, int>, backup: string)
      ensures forall u :: Get(counter, u) == multiset(numerator)[u] as int - multiset(denominator)[u] as int
      ensures backup == FirstName(numerator + denominator)
    {
      hide FirstName, Get;
      counter, backup := CountAbove();
      var i := 0;
      assert numerator + denominator[..0] == numerator;
      while i < |denominator|
        invariant i <= |denominator| && backup == FirstName(numerator + denominator[..i])
        invariant forall u :: Get(counter, u) == multiset(numerator)[u] as int - multiset(denominator[..i])[u] as int
      {
        var atomicUnit := denominator[i];
        OneMore(denominator, i);
        GetAfter(counter, atomicUnit, Get(counter, atomicUnit) - 1);
        assert numerator + denominator[..i + 1] == numerator + denominator[..i] + [atomicUnit];
        FirstNameOfPush(numerator + denominator[..i], atomicUnit);
        backup := if backup == "" then atomicUnit else backup;
        counter := counter[atomicUnit := Get(counter, atomicUnit) - 1];
        i := i + 1;
      }
      assert denominator[..i] == denominator;
    }

    method CountAbove() returns (counter: map<string, int>, backup: string)
      ensures forall u :: Get(counter, u) == multiset(numerator)[u]
      ensures backup == FirstName(numerator)
    {
      counter, backup := map[], "";
      var i := 0;
      while i < |numerator|
        invariant i <= |numerator| && backup == FirstName(numerator[..i])
        invariant forall u :: Get(counter, u) == multiset(numerator[..i])[u]
      {
        hide FirstName, Get;
        var atomicUnit := numerator[i];
        OneMore(numerator, i);
        GetAfter(counter, atomicUnit, Get(counter, atomicUnit) + 1);
        FirstNameOfPush(numerator[..i], atomicUnit);
        backup := if backup == "" then atomicUnit else backup;
        counter := counter[atomicUnit := Get(counter, atomicUnit) + 1];
        i := i + 1;
      }
      assert numerator[..i] == numerator;
    }

    // The first unit of each group, above the line before below it.
    method UsedUnits() returns (result: map<Group, string>)
      ensures forall g :: FirstInGroup(numerator + denominator, g) == if g in result then Some(result[g]) else None
    {
      result := map[];
      var all := numerator + denominator;
      var groups := [Length, Duration, Angle];
      var k := 0;
      while k < 3
        invariant k <= 3
        invariant forall g :: g in groups[..k] ==> FirstInGroup(all, g) == if g in result then Some(result[g]) else None
        invariant forall g :: g in result ==> g in groups[..k]
      {
        var i := 0;
        ghost var before := result;
        while i < |all|
          invariant i <= |all|
          invariant FirstInGroup(all[..i], groups[k]) == if groups[k] in result then Some(result[groups[k]]) else None
          invariant forall g ::
                      g != groups[k] ==> (g in result <==> g in before) && (g in result ==> result[g] == before[g])
        {
          FirstInGroupOfPush(all[..i], all[i], groups[k]);
          assert all[..i + 1] == all[..i] + [all[i]];
          if GroupOf(all[i]) == Some(groups[k]) && groups[k] !in result {
            result := result[groups[k] := all[i]];
          }
          i := i + 1;
        }
        assert all[..i] == all;
        k := k + 1;
      }
      forall g: Group ensures g in groups[..k] {
        assert g == groups[0] || g == groups[1] || g == groups[2];
      }
    }

    // Replaces every unit of one group by a target of the group, and scales the value to make up for it.
    method MapGroup(g: Group, target: string, value: real) returns (value': real)
      requires GroupOf(target) == Some(g)
      modifies this
      ensures Parts() == Mapped(old(Parts()), g, target)
      ensures Quantity(Dimension(value', Parts())) == Quantity(Dimension(value, old(Parts())))
    {
      hide Scale, GroupOf, Product, Replaced, Fraction;
      ghost var num, den := numerator, denominator;
      var middle := MapNumerator(g, target, value);
      value' := MapDenominator(g, target, middle);
      CombineRatios(value, middle, value', Product(num), Product(numerator), Product(den), Product(denominator));
    }

    method MapNumerator(g: Group, target: string, value: real) returns (value': real)
      requires GroupOf(target) == Some(g)
      modifies this`numerator
      ensures numerator == Replaced(old(numerator), g, target)
      ensures value' * Product(numerator) == value * Product(old(numerator))
    {
      hide Scale, GroupOf, Product;
      ghost var num := numerator;
      value' := value;
      var i := 0;
      while i < |numerator|
        invariant i <= |numerator| == |num|
        invariant forall j :: 0 <= j < i ==> numerator[j] == Replaced(num, g, target)[j]
        invariant forall j :: i <= j < |num| ==> numerator[j] == num[j]
        invariant value' * Product(numerator) == value * Product(num)
      {
        var atomicUnit := numerator[i];
        if GroupOf(atomicUnit) == Some(g) {
          AboveTheLine(numerator, i, target, value');
          value' := value' * (Scale(atomicUnit) / Scale(target));
          numerator := numerator[i := target];
        }
        i := i + 1;
      }
    }

    method MapDenominator(g: Group, target: string, value: real) returns (value': real)
      requires GroupOf(target) == Some(g)
      modifies this`denominator
      ensures denominator == Replaced(old(denominator), g, target)
      ensures value' * Product(old(denominator)) == value * Product(denominator)
    {
      hide Scale, GroupOf, Product;
      ghost var den := denominator;
      value' := value;
      var i := 0;
      while i < |denominator|
        invariant i <= |denominator| == |den|
        invariant forall j :: 0 <= j < i ==> denominator[j] == Replaced(den, g, target)[j]
        invariant forall j :: i <= j < |den| ==> denominator[j] == den[j]
        invariant value' * Product(den) == value * Product(denominator)
      {
        var atomicUnit := denominator[i];
        if GroupOf(atomicUnit) == Some(g) {
          BelowTheLine(denominator, i, target, value', value, Product(den));
          value' := value' / (Scale(atomicUnit) / Scale(target));
          denominator := denominator[i := target];
        }
        i := i + 1;
      }
    }
  }

  lemma AboveTheLine(us: seq<string>, i: nat, target: string, v: real)
    requires i < |us|
    ensures v * (Scale(us[i]) / Scale(target)) * Product(us[i := target]) == v * Product(us)
  {
    hide Scale, Product;
    ProductOfUpdate(us, i, target);
    ScaleUp(v, Scale(us[i]), Scale(target), Product(us), Product(us[i := target]));
  }

  lemma BelowTheLine(us: seq<string>, i: nat, target: string, v: real, m: real, d: real)
    requires i < |us| && v * d == m * Product(us)
    ensures Scale(us[i]) / Scale(target) != 0.0
    ensures v / (Scale(us[i]) / Scale(target)) * d == m * Product(us[i := target])
  {
    hide Scale, Product;
    ProductOfUpdate(us, i, target);
    ScaleDown(v, m, Scale(us[i]), Scale(target), d, Product(us), Product(us[i := target]));
  }

  function Get(counter: map<string, int>, u: string): int {
    if u in counter then counter[u] else 0
  }

  lemma ExpandedIsCancelled(from: UnitParts, counter: map<string, int>, above: seq<string>, below: seq<string>,
                            to: UnitParts)
    requires forall u :: Get(counter, u) == multiset(from.numerator)[u] as int - multiset(from.denominator)[u] as int
    requires forall u :: multiset(above)[u] == if Get(counter, u) > 0 then Get(counter, u) else 0
    requires forall u :: multiset(below)[u] == if Get(counter, u) < 0 then -Get(counter, u) else 0
    requires to.numerator == SortStrings(above) && to.denominator == SortStrings(below)
    requires var first := FirstName(from.numerator + from.denominator);
             to.backupUnit == if above == [] && below == [] && first != "" then first else from.backupUnit
    ensures Cancelled(from, to)
  {
    hide SortStrings, FirstName, Get;
    SortStringsSorts(above);
    SortStringsSorts(below);
    SortedEmpty(above);
    SortedEmpty(below);
    forall u
      ensures multiset(to.numerator)[u] == Surplus(from.numerator, from.denominator, u)
      ensures multiset(to.denominator)[u] == Surplus(from.denominator, from.numerator, u)
    {
      assert Get(counter, u) == multiset(from.numerator)[u] as int - multiset(from.denominator)[u] as int;
    }
  }

  lemma SortedEmpty(us: seq<string>)
    ensures SortStrings(us) == [] <==> us == []
  {
    SortStringsSorts(us);
    assert |us| == |multiset(us)| && |SortStrings(us)| == |multiset(SortStrings(us))|;
  }

  // Positive counts above the line, negative ones below.
  method Expand(counter: map<string, int>) returns (above: seq<string>, below: seq<string>)
    ensures forall u :: multiset(above)[u] == if Get(counter, u) > 0 then Get(counter, u) else 0
    ensures forall u :: multiset(below)[u] == if Get(counter, u) < 0 then -Get(counter, u) else 0
  {
    above, below := [], [];
    var keys := counter.Keys;
    while keys != {}
      invariant keys <= counter.Keys
      invariant forall u :: multiset(above)[u] == if u !in keys && Get(counter, u) > 0 then Get(counter, u) else 0
      invariant forall u :: multiset(below)[u] == if u !in keys && Get(counter, u) < 0 then -Get(counter, u) else 0
    {
      var atomicUnit :| atomicUnit in keys;
      keys := keys - {atomicUnit};
      var count := counter[atomicUnit];
      if count > 0 {
        above := PushCopies(above, atomicUnit, count);
      } else if count < 0 {
        below := PushCopies(below, atomicUnit, -count);
      }
    }
  }

  method PushCopies(us: seq<string>, u: string, count: nat) returns (us': seq<string>)
    ensures forall v :: multiset(us')[v] == multiset(us)[v] + if v == u then count else 0
  {
    us' := us;
    var i := 0;
    while i < count
      invariant i <= count
      invariant forall v :: multiset(us')[v] == multiset(us)[v] + if v == u then i else 0
    {
      us' := us' + [u];
      i := i + 1;
    }
  }

  lemma OneMore(us: seq<string>, i: nat)
    requires i < |us|
    ensures us[..i + 1] == us[..i] + [us[i]]
    ensures forall u :: multiset(us[..i + 1])[u] == multiset(us[..i])[u] + if u == us[i] then 1 else 0
  {
    assert us[..i + 1] == us[..i] + [us[i]];
  }

  lemma GetAfter(counter: map<string, int>, u: string, n: int)
    ensures forall v :: Get(counter[u := n], v) == if v == u then n else Get(counter, v)
  {
    forall v ensures Get(counter[u := n], v) == if v == u then n else Get(counter, v) {
    }
  }

  lemma {:induction false} FirstNameOfPush(us: seq<string>, x: string)
    ensures FirstName(us + [x]) == if FirstName(us) == "" then x else FirstName(us)
  {
    if us != [] {
      FirstNameOfPush(us[1..], x);
      assert (us + [x])[1..] == us[1..] + [x];
    }
  }

  function FirstInGroup(us: seq<string>, g: Group): Option<string> {
    if us == [] then None else if GroupOf(us[0]) == Some(g) then Some(us[0]) else FirstInGroup(us[1..], g)
  }

  lemma {:induction false} FirstInGroupOfPush(us: seq<string>, x: string, g: Group)
    ensures FirstInGroup(us + [x], g)
         == if FirstInGroup(us, g).None? && GroupOf(x) == Some(g) then Some(x) else FirstInGroup(us, g)
  {
    hide GroupOf;
    if us != [] {
      FirstInGroupOfPush(us[1..], x, g);
      assert (us + [x])[1..] == us[1..] + [x];
    }
  }

  // ---------- replacing units ----------

  function Replaced(us: seq<string>, g: Group, target: string): (r: seq<string>)
    ensures |r| == |us|
  {
    seq(|us|, i requires 0 <= i < |us| => if GroupOf(us[i]) == Some(g) then target else us[i])
  }

  function Mapped(p: UnitParts, g: Group, target: string): UnitParts {
    UnitParts(Replaced(p.numerator, g, target), Replaced(p.denominator, g, target), p.backupUnit)
  }

  lemma ProductOfUpdate(us: seq<string>, i: nat, target: string)
    requires i < |us|
    ensures Product(us[i := target]) * Scale(us[i]) == Product(us) * Scale(target)
  {
    hide Scale, Product, CountOf;
    var a, b := us[..i], us[i + 1..];
    assert us == a + ([us[i]] + b) && us[i := target] == a + ([target] + b);
    WithOneMore(a, us[i], b, Own(""));
    WithOneMore(a, target, b, Own(""));
    SwapFactors(Scale(us[i]), Scale(target), Product(a + b), Product(us), Product(us[i := target]));
  }

  lemma SwapFactors(s: real, t: real, p: real, a: real, b: real)
    requires a == Times(s, p) && b == Times(t, p)
    ensures b * s == a * t
  {
  }

  lemma CancelFactor(a: real, b: real, t: real)
    requires t > 0.0 && a * t == b * t
    ensures a == b
  {
    assert (a - b) * t == 0.0;
  }

  lemma RatioOfScales(s: real, t: real, p: real, q: real) returns (r: real)
    requires s > 0.0 && t > 0.0 && q * s == p * t
    ensures r == s / t && r > 0.0 && q * r == p
  {
    r := s / t;
    assert r * t == s;
    TimesAssociates(q, r, t);
    CancelFactor(q * r, p, t);
  }

  lemma ScaleUp(v: real, s: real, t: real, p: real, q: real)
    requires s > 0.0 && t > 0.0 && q * s == p * t
    ensures v * (s / t) * q == v * p
  {
    var r := RatioOfScales(s, t, p, q);
    TimesAssociates(v, r, q);
  }

  lemma ScaleDown(v: real, m: real, s: real, t: real, d: real, p: real, q: real)
    requires s > 0.0 && t > 0.0 && q * s == p * t && v * d == m * p
    ensures s / t != 0.0 && v / (s / t) * d == m * q
  {
    var r := RatioOfScales(s, t, p, q);
    var w := v / r;
    assert w * r == v;
    SwapLastFactors(w, r, d);
    TimesAssociates(m, q, r);
    CancelFactor(w * d, m * q, r);
  }

  lemma SwapLastFactors(a: real, b: real, c: real)
    ensures a * b * c == a * c * b
  {
  }

  lemma CombineRatios(v0: real, v1: real, v2: real, n0: real, n1: real, d0: real, d1: real)
    requires d0 > 0.0 && d1 > 0.0 && v1 * n1 == v0 * n0 && v2 * d0 == v1 * d1
    ensures Fraction(v2, n1, d1) == Fraction(v0, n0, d0)
  {
    assert v2 * n1 * d0 == v0 * n0 * d1 by {
      TimesAssociates(v2, n1, d0);
      TimesAssociates(n1, v2, d0);
      TimesAssociates(n1, v1, d1);
      TimesAssociates(v1, n1, d1);
    }
    EqualRatios(v2 * n1, d1, v0 * n0, d0);
  }
}
