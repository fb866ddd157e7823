// Converting, combining and comparing numbers with units.
module UnitArithmetic {
  import opened Wrappers
  import opened Sequences
  import opened Strings
  import opened Units

  // ---------- conversions ----------

  type Conversions = map<Group, string>

  // Each target is a unit of its group.
  ghost predicate WellTargeted(cs: Conversions) {
    forall g :: g in cs ==> GroupOf(cs[g]) == Some(g)
  }

  const UNIFY: Conversions := map[Length := "px", Duration := "s", Angle := "rad"]

  // What a single unit name asks for: nothing when no group has it.
  function Derived(name: string): Conversions {
    if GroupOf(name).None? then map[] else map[GroupOf(name).value := name]
  }

  function Target(u: string, cs: Conversions): string {
    if GroupOf(u).Some? && GroupOf(u).value in cs then cs[GroupOf(u).value] else u
  }

  function Targets(us: seq<string>, cs: Conversions): (r: seq<string>)
    ensures |r| == |us|
  {
    seq(|us|, i requires 0 <= i < |us| => Target(us[i], cs))
  }

  // A copy has its units in order.
  function CloneOf(p: UnitParts): UnitParts {
    UnitParts(SortStrings(p.numerator), SortStrings(p.denominator), p.backupUnit)
  }

  function Converted(p: UnitParts, cs: Conversions): UnitParts {
    UnitParts(Targets(p.numerator, cs), Targets(p.denominator, cs), p.backupUnit)
  }

  lemma CloneKeeps(p: UnitParts)
    ensures SameKind(p, CloneOf(p))
    ensures Product(p.numerator) == Product(CloneOf(p).numerator)
    ensures Product(p.denominator) == Product(CloneOf(p).denominator)
  {
    hide Fraction, Product, CountOf, SortStrings;
    SortStringsSorts(p.numerator);
    SortStringsSorts(p.denominator);
    forall k ensures Exponent(p, k) == Exponent(CloneOf(p), k) {
      OrderDoesNotMatter(p.numerator, SortStrings(p.numerator), k);
      OrderDoesNotMatter(p.denominator, SortStrings(p.denominator), k);
    }
    OrderDoesNotMatter(p.numerator, SortStrings(p.numerator), Own(""));
    OrderDoesNotMatter(p.denominator, SortStrings(p.denominator), Own(""));
  }

  lemma TargetKeepsKind(u: string, cs: Conversions)
    requires WellTargeted(cs)
    ensures KindOf(Target(u, cs)) == KindOf(u)
  {
    hide Entry, GroupOf;
  }

  lemma {:induction false} TargetsKeepCounts(us: seq<string>, cs: Conversions, k: Kind)
    requires WellTargeted(cs)
    ensures CountOf(Targets(us, cs), k) == CountOf(us, k)
  {
    hide KindOf, Target;
    if us != [] {
      TargetsKeepCounts(us[1..], cs, k);
      TargetKeepsKind(us[0], cs);
      assert Targets(us, cs)[1..] == Targets(us[1..], cs);
    }
  }

  lemma ConvertedKeepsKind(p: UnitParts, cs: Conversions)
    requires WellTargeted(cs)
    ensures SameKind(p, Converted(p, cs))
  {
    hide CountOf, WellTargeted;
    forall k ensures Exponent(p, k) == Exponent(Converted(p, cs), k) {
      TargetsKeepCounts(p.numerator, cs, k);
      TargetsKeepCounts(p.denominator, cs, k);
    }
  }

  // Group by group or all at once is the same, as a target stays in its group.
  lemma OneMoreGroup(us: seq<string>, cs: Conversions, g: Group, target: string)
    requires WellTargeted(cs) && g !in cs && GroupOf(target) == Some(g)
    ensures Replaced(Targets(us, cs), g, target) == Targets(us, cs[g := target])
  {
    hide GroupOf;
    forall i | 0 <= i < |us|
      ensures Replaced(Targets(us, cs), g, target)[i] == Targets(us, cs[g := target])[i]
    {
      assert Targets(us, cs)[i] == Target(us[i], cs);
    }
  }

  lemma NoGroups(p: UnitParts)
    ensures Converted(p, map[]) == p
  {
    assert Targets(p.numerator, map[]) == p.numerator && Targets(p.denominator, map[]) == p.denominator;
  }

  method ConvertTo(d: Dimension, conversions: Conversions) returns (r: Dimension)
    requires WellTargeted(conversions)
    ensures Quantity(r) == Quantity(d) && SameKind(r.unit, d.unit)
    ensures Cancelled(Converted(CloneOf(d.unit), conversions), r.unit)
  {
    hide GroupOf, Product, CountOf, Cancelled, SortStrings, Targets, Replaced;
    var unit := new Unit(d.unit);
    ghost var clone := CloneOf(d.unit);
    var value := d.value;
    CloneKeeps(d.unit);
    NoGroups(clone);
    var keys := conversions.Keys;
    ghost var done: Conversions := map[];
    while keys != {}
      invariant keys <= conversions.Keys
      invariant forall g :: g in done <==> g in conversions && g !in keys
      invariant forall g :: g in done ==> done[g] == conversions[g]
      invariant unit.Parts() == Converted(clone, done)
      invariant Quantity(Dimension(value, unit.Parts())) == Quantity(d)
    {
      var groupName :| groupName in keys;
      keys := keys - {groupName};
      OneMoreGroup(clone.numerator, done, groupName, conversions[groupName]);
      OneMoreGroup(clone.denominator, done, groupName, conversions[groupName]);
      value := unit.MapGroup(groupName, conversions[groupName], value);
      done := done[groupName := conversions[groupName]];
    }
    assert done == conversions;
    ghost var mapped := unit.Parts();
    unit.Cancel();
    CancelKeepsQuantity(value, mapped, unit.Parts());
    CancelKeepsKind(mapped, unit.Parts());
    ConvertedKeepsKind(clone, conversions);
    r := Dimension(value, UnitParts(unit.numerator, unit.denominator, unit.backupUnit));
  }

  // Given a unit by name, only units of its group are converted; an unknown name converts nothing.
  method ConvertToName(d: Dimension, name: string) returns (r: Dimension)
    ensures Quantity(r) == Quantity(d) && SameKind(r.unit, d.unit)
    ensures Cancelled(Converted(CloneOf(d.unit), Derived(name)), r.unit)
  {
    hide Entry, Quantity, Cancelled, CloneOf, Converted, SameKind;
    r := ConvertTo(d, Derived(name));
  }

  // ---------- units as text ----------

  predicate Plain(u: string) {
    u != "" && '*' !in u && '/' !in u
  }

  ghost predicate PlainUnits(p: UnitParts) {
    (forall u :: u in p.numerator ==> Plain(u)) && (forall u :: u in p.denominator ==> Plain(u))
  }

  function Below(den: seq<string>): string {
    if den == [] then "" else "/" + den[0] + Below(den[1..])
  }

  function Rest(num: seq<string>, den: seq<string>): string {
    if num == [] then Below(den) else "*" + num[0] + Rest(num[1..], den)
  }

  // toString
  function UnitString(p: UnitParts): string {
    if p.numerator == [] then Below(p.denominator) else p.numerator[0] + Rest(p.numerator[1..], p.denominator)
  }

  predicate AtBreak(s: string) {
    s == "" || s[0] == '*' || s[0] == '/'
  }

  lemma RestAtBreak(num: seq<string>, den: seq<string>)
    ensures AtBreak(Below(den)) && AtBreak(Rest(num, den))
  {
  }

  lemma HeadOf(a: string, r: string)
    ensures a == "" ==> a + r == r
    ensures a != "" ==> a + r != "" && (a + r)[0] == a[0] && a[0] in a
  {
  }

  lemma {:induction false} PlainThenBreak(a: string, b: string, r: string, r': string)
    requires '*' !in a && '/' !in a && '*' !in b && '/' !in b
    requires AtBreak(r) && AtBreak(r') && a + r == b + r'
    ensures a == b && r == r'
  {
    if a == "" || b == "" {
      HeadOf(a, r);
      HeadOf(b, r');
    } else {
      assert (a + r)[0] == a[0] && (b + r')[0] == b[0];
      assert (a + r)[1..] == a[1..] + r && (b + r')[1..] == b[1..] + r';
      PlainThenBreak(a[1..], b[1..], r, r');
      assert a == [a[0]] + a[1..] && b == [b[0]] + b[1..];
    }
  }

  lemma {:induction false} BelowIsUnique(a: seq<string>, b: seq<string>)
    requires Below(a) == Below(b)
    requires (forall u :: u in a ==> Plain(u)) && (forall u :: u in b ==> Plain(u))
    ensures a == b
  {
    if a != [] && b != [] {
      RestAtBreak([], a[1..]);
      RestAtBreak([], b[1..]);
      assert Below(a)[1..] == a[0] + Below(a[1..]) && Below(b)[1..] == b[0] + Below(b[1..]);
      assert a[0] in a && b[0] in b;
      PlainThenBreak(a[0], b[0], Below(a[1..]), Below(b[1..]));
      BelowIsUnique(a[1..], b[1..]);
      assert a == [a[0]] + a[1..] && b == [b[0]] + b[1..];
    }
  }

  lemma {:induction false} RestIsUnique(num: seq<string>, den: seq<string>, num': seq<string>, den': seq<string>)
    requires Rest(num, den) == Rest(num', den')
    requires PlainUnits(UnitParts(num, den, "")) && PlainUnits(UnitParts(num', den', ""))
    ensures num == num' && den == den'
  {
    if num == [] && num' == [] {
      BelowIsUnique(den, den');
    } else if num == [] || num' == [] {
      RestStarts(num, den);
      RestStarts(num', den');
    } else {
      RestAtBreak(num[1..], den);
      RestAtBreak(num'[1..], den');
      assert Rest(num, den)[1..] == num[0] + Rest(num[1..], den)
             && Rest(num', den')[1..] == num'[0] + Rest(num'[1..], den');
      assert num[0] in num && num'[0] in num';
      PlainThenBreak(num[0], num'[0], Rest(num[1..], den), Rest(num'[1..], den'));
      RestIsUnique(num[1..], den, num'[1..], den');
      assert num == [num[0]] + num[1..] && num' == [num'[0]] + num'[1..];
    }
  }

  lemma RestStarts(num: seq<string>, den: seq<string>)
    ensures num != [] ==> Rest(num, den) != "" && Rest(num, den)[0] == '*'
    ensures num == [] && den != [] ==> Rest(num, den) != "" && Rest(num, den)[0] == '/'
  {
  }

  // Units with the same text are the same units.
  lemma UnitStringIsUnique(p: UnitParts, q: UnitParts)
    requires PlainUnits(p) && PlainUnits(q) && UnitString(p) == UnitString(q)
    ensures p.numerator == q.numerator && p.denominator == q.denominator
  {
    hide Plain;
    if p.numerator == [] && q.numerator == [] {
      BelowIsUnique(p.denominator, q.denominator);
    } else if p.numerator == [] {
      PlainIsNoBreak(q, p);
    } else if q.numerator == [] {
      PlainIsNoBreak(p, q);
    } else {
      var a, b := p.numerator, q.numerator;
      RestAtBreak(a[1..], p.denominator);
      RestAtBreak(b[1..], q.denominator);
      assert Plain(a[0]) && Plain(b[0]);
      PlainHasNoBreaks(a[0]);
      PlainHasNoBreaks(b[0]);
      PlainThenBreak(a[0], b[0], Rest(a[1..], p.denominator), Rest(b[1..], q.denominator));
      RestIsUnique(a[1..], p.denominator, b[1..], q.denominator);
      assert a == [a[0]] + a[1..] && b == [b[0]] + b[1..];
    }
  }

  lemma PlainHasNoBreaks(u: string)
    requires Plain(u)
    ensures u != "" && '*' !in u && '/' !in u
  {
  }

  lemma PlainIsNoBreak(p: UnitParts, q: UnitParts)
    requires PlainUnits(p) && p.numerator != [] && q.numerator == []
    ensures UnitString(p) != UnitString(q)
  {
    RestAtBreak([], q.denominator);
    var u := p.numerator[0];
    assert Plain(u) && u[0] in u;
    assert UnitString(p)[0] == u[0];
  }

  // Converting and cancelling only use units that were there, or targets.
  lemma ConvertedIsPlain(p: UnitParts, cs: Conversions, r: UnitParts)
    requires PlainUnits(p) && (forall g :: g in cs ==> Plain(cs[g])) && Cancelled(Converted(CloneOf(p), cs), r)
    ensures PlainUnits(r)
  {
    hide Plain, GroupOf, SortStrings;
    SortStringsSorts(p.numerator);
    SortStringsSorts(p.denominator);
    forall u | u in r.numerator ensures Plain(u) {
      assert u in multiset(r.numerator);
      FromTargets(SortStrings(p.numerator), p.numerator, cs, u);
    }
    forall u | u in r.denominator ensures Plain(u) {
      assert u in multiset(r.denominator);
      FromTargets(SortStrings(p.denominator), p.denominator, cs, u);
    }
  }

  lemma FromTargets(sorted: seq<string>, us: seq<string>, cs: Conversions, u: string)
    requires (forall u :: u in us ==> Plain(u)) && (forall g :: g in cs ==> Plain(cs[g]))
    requires multiset(sorted) == multiset(us) && u in multiset(Targets(sorted, cs))
    ensures Plain(u)
  {
    hide Plain, GroupOf;
    var ts := Targets(sorted, cs);
    assert u in ts;
    var i :| 0 <= i < |ts| && ts[i] == u;
    SameElements(sorted, us, sorted[i]);
  }

  // ---------- arithmetic on fractions ----------

  lemma SwapMiddle(a: real, b: real, c: real, d: real)
    ensures (a * b) * (c * d) == (a * c) * (b * d)
  {
    TimesAssociates(a, b, c * d);
    TimesAssociates(b, c, d);
    TimesAssociates(a, c, b * d);
  }

  lemma FractionsMultiply(v: real, a: real, b: real, w: real, c: real, d: real, vw: real, ac: real, bd: real)
    requires b > 0.0 && d > 0.0 && vw == v * w && ac == a * c && bd == b * d
    ensures bd > 0.0 && Fraction(vw, ac, bd) == Fraction(v, a, b) * Fraction(w, c, d)
  {
    var x, y := v * a / b, w * c / d;
    assert x * b == v * a && y * d == w * c;
    var z := vw * ac / bd;
    assert z * bd == vw * ac;
    SwapMiddle(v, w, a, c);
    SwapMiddle(x, b, y, d);
    CancelFactor(z, x * y, bd);
  }

  lemma Reciprocal(w: real, c: real, d: real)
    requires w != 0.0 && c > 0.0 && d > 0.0
    ensures Fraction(w, c, d) != 0.0 && Fraction(1.0 / w, d, c) == 1.0 / Fraction(w, c, d)
  {
    var y := w * c / d;
    assert y * d == w * c;
    assert w * c != 0.0;
    var u, z := 1.0 / w, (1.0 / w) * d / c;
    assert u * w == 1.0 && z * c == u * d;
    assert (z * y) * (c * d) == (u * w) * (d * c) by {
      SwapMiddle(z, y, c, d);
      SwapMiddle(u, w, d, c);
    }
    assert d * c == c * d;
    CancelFactor(z * y, 1.0, c * d);
  }

  lemma FractionsDivide(v: real, a: real, b: real, w: real, c: real, d: real, q: real, ad: real, bc: real)
    requires b > 0.0 && c > 0.0 && d > 0.0 && w != 0.0 && q == v / w && ad == a * d && bc == b * c
    ensures bc > 0.0 && Fraction(w, c, d) != 0.0 && Fraction(q, ad, bc) == Fraction(v, a, b) / Fraction(w, c, d)
  {
    Reciprocal(w, c, d);
    assert q == v * (1.0 / w);
    FractionsMultiply(v, a, b, 1.0 / w, d, c, q, ad, bc);
    var x, y := Fraction(v, a, b), Fraction(w, c, d);
    assert x / y == x * (1.0 / y);
  }

  // ---------- operations ----------

  datatype Op = Plus | Minus | Multiply | Divide

  datatype OpError = IncompatibleUnits | DivisionByZero

  predicate Bare(p: UnitParts) {
    p.numerator == [] && p.denominator == []
  }

  function Sum(op: Op, a: real, b: real): real {
    if op == Minus then a - b else a + b
  }

  // The units of a product before cancelling; a quotient turns the second operand over.
  function Joined(a: UnitParts, b: UnitParts): UnitParts {
    UnitParts(SortStrings(SortStrings(a.numerator) + b.numerator),
              SortStrings(SortStrings(a.denominator) + b.denominator), a.backupUnit)
  }

  function Inverse(p: UnitParts): UnitParts {
    UnitParts(p.denominator, p.numerator, p.backupUnit)
  }

  lemma JoinedOnce(a: seq<string>, b: seq<string>, k: Kind)
    ensures Product(SortStrings(SortStrings(a) + b)) == Product(a) * Product(b)
    ensures CountOf(SortStrings(SortStrings(a) + b), k) == CountOf(a, k) + CountOf(b, k)
  {
    hide Product, CountOf, SortStrings;
    SortStringsSorts(a);
    SortStringsSorts(SortStrings(a) + b);
    OrderDoesNotMatter(SortStrings(SortStrings(a) + b), SortStrings(a) + b, k);
    OrderDoesNotMatter(SortStrings(a), a, k);
    ProductOfConcat(SortStrings(a), b);
    CountOfConcat(SortStrings(a), b, k);
  }

  lemma JoinedExponents(a: UnitParts, b: UnitParts, k: Kind)
    ensures Exponent(Joined(a, b), k) == Exponent(a, k) + Exponent(b, k)
    ensures Exponent(Joined(a, Inverse(b)), k) == Exponent(a, k) - Exponent(b, k)
  {
    hide Product, CountOf, SortStrings;
    JoinedOnce(a.numerator, b.numerator, k);
    JoinedOnce(a.denominator, b.denominator, k);
    JoinedOnce(a.numerator, b.denominator, k);
    JoinedOnce(a.denominator, b.numerator, k);
  }

  lemma JoinedQuantity(a: Dimension, b: Dimension, value: real)
    requires value == a.value * b.value
    ensures Quantity(Dimension(value, Joined(a.unit, b.unit))) == Quantity(a) * Quantity(b)
  {
    hide Fraction, Product, CountOf, SortStrings;
    JoinedOnce(a.unit.numerator, b.unit.numerator, Own(""));
    JoinedOnce(a.unit.denominator, b.unit.denominator, Own(""));
    var joined := Joined(a.unit, b.unit);
    FractionsMultiply(a.value, Product(a.unit.numerator), Product(a.unit.denominator),
                      b.value, Product(b.unit.numerator), Product(b.unit.denominator),
                      value, Product(joined.numerator), Product(joined.denominator));
  }

  lemma DividedQuantity(a: Dimension, b: Dimension, value: real)
    requires b.value != 0.0 && value == a.value / b.value
    ensures Quantity(b) != 0.0
    ensures Quantity(Dimension(value, Joined(a.unit, Inverse(b.unit)))) == Quantity(a) / Quantity(b)
  {
    hide Fraction, Product, CountOf, SortStrings;
    JoinedOnce(a.unit.numerator, b.unit.denominator, Own(""));
    JoinedOnce(a.unit.denominator, b.unit.numerator, Own(""));
    var joined := Joined(a.unit, Inverse(b.unit));
    FractionsDivide(a.value, Product(a.unit.numerator), Product(a.unit.denominator),
                    b.value, Product(b.unit.numerator), Product(b.unit.denominator),
                    value, Product(joined.numerator), Product(joined.denominator));
  }

  // Multiplying and dividing follow the quantities, and add or subtract the exponents.
  method Scaled(a: Dimension, op: Op, b: Dimension) returns (r: Result<Dimension, OpError>)
    requires op == Multiply || op == Divide
    ensures r.Failure? <==> op == Divide && b.value == 0.0
    ensures op == Multiply ==> Quantity(r.value) == Quantity(a) * Quantity(b)
    ensures op == Divide && r.Success? ==> Quantity(b) != 0.0 && Quantity(r.value) == Quantity(a) / Quantity(b)
    ensures r.Success? ==> forall k ::
              Exponent(r.value.unit, k)
              == Exponent(a.unit, k) + if op == Multiply then Exponent(b.unit, k) else -Exponent(b.unit, k)
    ensures r.Success? ==> forall u :: !(u in r.value.unit.numerator && u in r.value.unit.denominator)
  {
    hide Product, CountOf, SortStrings, Quantity, Cancelled;
    if op == Divide && b.value == 0.0 {
      return Failure(DivisionByZero);
    }
    var value := if op == Multiply then a.value * b.value else a.value / b.value;
    var other := if op == Multiply then b.unit else Inverse(b.unit);
    var unit := new Unit(a.unit);
    unit.numerator := SortStrings(unit.numerator + other.numerator);
    unit.denominator := SortStrings(unit.denominator + other.denominator);
    ghost var joined := unit.Parts();
    assert joined == Joined(a.unit, other);
    if op == Multiply {
      JoinedQuantity(a, b, value);
    } else {
      DividedQuantity(a, b, value);
    }
    unit.Cancel();
    ghost var parts := unit.Parts();
    CancelKeepsQuantity(value, joined, parts);
    CancelKeepsKind(joined, parts);
    NothingOnBothSides(joined, parts);
    forall k
      ensures Exponent(parts, k)
           == Exponent(a.unit, k) + if op == Multiply then Exponent(b.unit, k) else -Exponent(b.unit, k)
    {
      JoinedExponents(a.unit, b.unit, k);
    }
    r := Success(Dimension(value, UnitParts(unit.numerator, unit.denominator, unit.backupUnit)));
  }

  lemma NothingOnBothSides(from: UnitParts, to: UnitParts)
    requires Cancelled(from, to)
    ensures forall u :: !(u in to.numerator && u in to.denominator)
  {
    forall u ensures !(u in to.numerator && u in to.denominator) {
      assert u in to.numerator <==> multiset(to.numerator)[u] > 0;
      assert u in to.denominator <==> multiset(to.denominator)[u] > 0;
    }
  }

  lemma {:induction false} FirstInGroupIsThere(us: seq<string>, g: Group)
    ensures var f := FirstInGroup(us, g); f.Some? ==> f.value in us && GroupOf(f.value) == Some(g)
  {
    hide GroupOf;
    if us != [] {
      FirstInGroupIsThere(us[1..], g);
    }
  }

  // What usedUnits finds: the first unit of each group.
  function Used(p: UnitParts): Conversions {
    map g: Group | FirstInGroup(p.numerator + p.denominator, g).Some? ::
      FirstInGroup(p.numerator + p.denominator, g).value
  }

  lemma UsedAreTargets(p: UnitParts)
    ensures WellTargeted(Used(p))
    ensures PlainUnits(p) ==> forall g :: g in Used(p) ==> Plain(Used(p)[g])
  {
    hide GroupOf, Plain;
    forall g | g in Used(p) ensures GroupOf(Used(p)[g]) == Some(g) && (PlainUnits(p) ==> Plain(Used(p)[g])) {
      FirstInGroupIsThere(p.numerator + p.denominator, g);
    }
  }

  // A unit of a group that is not used is not there.
  lemma {:induction false} NoneInGroup(us: seq<string>, u: string, g: Group)
    requires GroupOf(u) == Some(g) && FirstInGroup(us, g).None?
    ensures u !in us
  {
    hide GroupOf;
    if us != [] {
      NoneInGroup(us[1..], u, g);
    }
  }

  lemma CloneIsPlain(p: UnitParts)
    requires PlainUnits(p)
    ensures PlainUnits(CloneOf(p))
  {
    hide Plain, SortStrings;
    SortStringsSorts(p.numerator);
    SortStringsSorts(p.denominator);
    forall u ensures u in CloneOf(p).numerator ==> Plain(u) {
      SameElements(p.numerator, SortStrings(p.numerator), u);
    }
    forall u ensures u in CloneOf(p).denominator ==> Plain(u) {
      SameElements(p.denominator, SortStrings(p.denominator), u);
    }
  }

  lemma Distribute(op: Op, x: real, y: real, z: real, n: real, d: real)
    requires d > 0.0 && z == Sum(op, x, y)
    ensures Fraction(z, n, d) == Sum(op, Fraction(x, n, d), Fraction(y, n, d))
  {
    var p, q, r := x * n / d, y * n / d, z * n / d;
    assert p * d == x * n && q * d == y * n && r * d == z * n;
    assert Sum(op, p, q) * d == Sum(op, p * d, q * d);
    assert z * n == Sum(op, x * n, y * n);
    CancelFactor(r, Sum(op, p, q), d);
  }

  // With the same units the values are added.
  lemma AddedQuantity(op: Op, a: Dimension, other: Dimension, unit: UnitParts, value: real)
    requires value == Sum(op, a.value, other.value)
    requires unit == CloneOf(a.unit) && other.unit.numerator == unit.numerator
    requires other.unit.denominator == unit.denominator
    ensures Quantity(Dimension(value, unit)) == Sum(op, Quantity(a), Quantity(other))
    ensures SameKind(a.unit, other.unit)
  {
    hide Fraction, Product, CountOf, SortStrings, Sum;
    CloneKeeps(a.unit);
    Distribute(op, a.value, other.value, value, Product(unit.numerator), Product(unit.denominator));
  }

  // ---------- when units match ----------

  // The unit p, in some order, is what is left of q after cancelling.
  ghost predicate LeftOf(p: UnitParts, q: UnitParts) {
    && (forall u :: multiset(p.numerator)[u] == Surplus(q.numerator, q.denominator, u))
    && (forall u :: multiset(p.denominator)[u] == Surplus(q.denominator, q.numerator, u))
  }

  // The first unit is its own conversion to the units used in it.
  ghost predicate SelfConverts(p: UnitParts) {
    LeftOf(p, Converted(p, Used(p)))
  }

  // Units of groups that the first unit does not use cancel one by one in the second.
  ghost predicate NoneStray(p: UnitParts, q: UnitParts) {
    forall u :: GroupOf(u).Some? && GroupOf(u).value !in Used(p) ==>
                  multiset(q.numerator)[u] == multiset(q.denominator)[u]
  }

  ghost predicate Matches(p: UnitParts, q: UnitParts) {
    SameKind(p, q) && SelfConverts(p) && NoneStray(p, q)
  }

  // Converted units of a group are all its target; other units stay.
  lemma {:induction false} TargetCounts(us: seq<string>, cs: Conversions, u: string)
    requires WellTargeted(cs)
    ensures multiset(Targets(us, cs))[u] ==
            if GroupOf(u).Some? && GroupOf(u).value in cs
            then if cs[GroupOf(u).value] == u then CountOf(us, KindOf(u)) else 0
            else multiset(us)[u]
  {
    hide GroupOf;
    if us != [] {
      TargetCounts(us[1..], cs, u);
      assert Targets(us, cs) == [Target(us[0], cs)] + Targets(us[1..], cs);
      assert us == [us[0]] + us[1..];
    }
  }

  lemma {:induction false} OwnCounts(us: seq<string>, u: string)
    requires GroupOf(u).None?
    ensures multiset(us)[u] == CountOf(us, KindOf(u))
  {
    hide GroupOf;
    if us != [] {
      OwnCounts(us[1..], u);
      assert us == [us[0]] + us[1..];
    }
  }

  // How often a unit is above the line, less how often it is below it.
  ghost function NetCount(p: UnitParts, u: string): int {
    multiset(p.numerator)[u] as int - multiset(p.denominator)[u] as int
  }

  ghost function Net(p: UnitParts, cs: Conversions, u: string): int {
    NetCount(Converted(p, cs), u)
  }

  lemma NetOf(p: UnitParts, cs: Conversions, u: string)
    requires WellTargeted(cs)
    ensures Net(p, cs, u) ==
            if GroupOf(u).Some? && GroupOf(u).value in cs
            then if cs[GroupOf(u).value] == u then Exponent(p, KindOf(u)) else 0
            else if GroupOf(u).None? then Exponent(p, KindOf(u))
            else NetCount(p, u)
  {
    hide GroupOf, CountOf, Targets, KindOf, WellTargeted;
    TargetCounts(p.numerator, cs, u);
    TargetCounts(p.denominator, cs, u);
    if GroupOf(u).None? {
      OwnCounts(p.numerator, u);
      OwnCounts(p.denominator, u);
    }
  }

  lemma NoneUnused(p: UnitParts, u: string)
    requires GroupOf(u).Some? && GroupOf(u).value !in Used(p)
    ensures multiset(p.numerator)[u] == 0 && multiset(p.denominator)[u] == 0
  {
    hide GroupOf;
    NoneInGroup(p.numerator + p.denominator, u, GroupOf(u).value);
    assert u !in p.numerator && u !in p.denominator;
  }

  lemma SameNet(p: UnitParts, q: UnitParts, u: string)
    requires SameKind(p, q) && NoneStray(p, q)
    ensures Net(p, Used(p), u) == Net(q, Used(p), u)
  {
    hide GroupOf, Net, Used, KindOf, CountOf;
    UsedAreTargets(p);
    NetOf(p, Used(p), u);
    NetOf(q, Used(p), u);
    if GroupOf(u).Some? && GroupOf(u).value !in Used(p) {
      NoneUnused(p, u);
    }
  }

  // What is left of a conversion depends on the net counts only, so not on the order of the units.
  lemma LeftOfNet(p: UnitParts, q: UnitParts, cs: Conversions)
    ensures LeftOf(p, Converted(q, cs)) <==>
            forall u :: && NetCount(p, u) == Net(q, cs, u)
                        && (multiset(p.numerator)[u] == 0 || multiset(p.denominator)[u] == 0)
  {
    hide Targets;
    var c := Converted(q, cs);
    assert forall u :: Net(q, cs, u) == multiset(c.numerator)[u] as int - multiset(c.denominator)[u] as int;
  }

  lemma CloneNet(p: UnitParts, cs: Conversions, u: string)
    requires WellTargeted(cs)
    ensures Net(CloneOf(p), cs, u) == Net(p, cs, u)
  {
    hide GroupOf, CountOf, Net, SortStrings, WellTargeted, KindOf;
    NetOf(p, cs, u);
    NetOf(CloneOf(p), cs, u);
    CloneKeeps(p);
    SortStringsSorts(p.numerator);
    SortStringsSorts(p.denominator);
    assert Exponent(p, KindOf(u)) == Exponent(CloneOf(p), KindOf(u));
  }

  // The second operand, converted to the units used in the first, has the first one's unit exactly
  // when the two units match.
  lemma MatchesExactlyWhen(p: UnitParts, q: UnitParts)
    ensures LeftOf(p, Converted(q, Used(p))) <==> Matches(p, q)
  {
    hide GroupOf, Net, Used, Converted, LeftOf, CountOf, KindOf, SameKind, NoneStray;
    LeftOfNet(p, p, Used(p));
    LeftOfNet(p, q, Used(p));
    if LeftOf(p, Converted(q, Used(p))) {
      LeftIsSameKind(p, q);
      LeftHasNoneStray(p, q);
    }
    if SameKind(p, q) && NoneStray(p, q) {
      forall u ensures Net(p, Used(p), u) == Net(q, Used(p), u) {
        SameNet(p, q, u);
      }
    }
  }

  lemma LeftIsSameKind(p: UnitParts, q: UnitParts)
    requires LeftOf(p, Converted(q, Used(p)))
    ensures SameKind(p, q)
  {
    hide Used, CountOf, Converted, LeftOf, Exponent;
    UsedAreTargets(p);
    ConvertedKeepsKind(q, Used(p));
    LeftKeepsKind(Converted(q, Used(p)), p);
    forall k ensures Exponent(p, k) == Exponent(q, k) {
      assert Exponent(q, k) == Exponent(Converted(q, Used(p)), k) == Exponent(p, k);
    }
  }

  lemma LeftKeepsKind(from: UnitParts, p: UnitParts)
    requires LeftOf(p, from)
    ensures SameKind(from, p)
  {
    hide CountOf, SortStrings, FirstName;
    SortStringsSorts(p.numerator);
    SortStringsSorts(p.denominator);
    var first := FirstName(from.numerator + from.denominator);
    var backup := if p.numerator == [] && p.denominator == [] && first != "" then first else from.backupUnit;
    var to := CloneOf(p).(backupUnit := backup);
    SortedEmpty(p.numerator);
    SortedEmpty(p.denominator);
    assert Cancelled(from, to);
    CancelKeepsKind(from, to);
    CloneKeeps(p);
    forall k ensures Exponent(from, k) == Exponent(p, k) {
      assert Exponent(from, k) == Exponent(to, k) == Exponent(CloneOf(p), k) == Exponent(p, k);
    }
  }

  lemma LeftHasNoneStray(p: UnitParts, q: UnitParts)
    requires LeftOf(p, Converted(q, Used(p)))
    ensures NoneStray(p, q)
  {
    hide GroupOf, Net, Used, Converted, LeftOf;
    UsedAreTargets(p);
    LeftOfNet(p, q, Used(p));
    forall u | GroupOf(u).Some? && GroupOf(u).value !in Used(p)
      ensures multiset(q.numerator)[u] == multiset(q.denominator)[u]
    {
      NoneUnused(p, u);
      NetOf(q, Used(p), u);
    }
  }

  // Units of one name each match exactly when they measure the same.
  lemma SingleUnitsMatch(u: string, v: string)
    ensures Matches(UnitParts([u], [], ""), UnitParts([v], [], "")) <==> KindOf(u) == KindOf(v)
  {
    hide GroupOf, CountOf, KindOf, Used, SelfConverts;
    var p, q := UnitParts([u], [], ""), UnitParts([v], [], "");
    forall k
      ensures Exponent(p, k) == (if KindOf(u) == k then 1 else 0) && Exponent(q, k) == if KindOf(v) == k then 1 else 0
    {
      CountOfOne(u, k);
      CountOfOne(v, k);
    }
    if KindOf(u) != KindOf(v) {
      assert Exponent(p, KindOf(u)) != Exponent(q, KindOf(u));
    } else {
      SingleUnitSelfConverts(u);
      forall w | GroupOf(w).Some? && GroupOf(w).value !in Used(p) ensures w != v {
        UsedInSingle(u);
        SameGroup(u, v);
      }
    }
  }

  lemma CountOfOne(u: string, k: Kind)
    ensures CountOf([u], k) == (if KindOf(u) == k then 1 else 0) && CountOf([], k) == 0
  {
    assert [u][1..] == [];
  }

  lemma SameGroup(u: string, v: string)
    requires KindOf(u) == KindOf(v)
    ensures GroupOf(u) == GroupOf(v)
  {
    hide GroupOf;
  }

  lemma UsedInSingle(u: string)
    ensures Used(UnitParts([u], [], "")) == Derived(u)
  {
    hide GroupOf;
    assert [u] + [] == [u] && [u][1..] == [];
    forall g ensures FirstInGroup([u], g) == if GroupOf(u) == Some(g) then Some(u) else None {
    }
  }

  lemma SingleUnitSelfConverts(u: string)
    ensures SelfConverts(UnitParts([u], [], ""))
  {
    hide GroupOf, Used;
    UsedInSingle(u);
    assert Targets([u], Derived(u)) == [u] && Targets([], Derived(u)) == [];
  }

  // The converted operand: of the same quantity, in the units used in the other.
  ghost predicate ConvertsTo(d: Dimension, cs: Conversions, r: Dimension) {
    Quantity(r) == Quantity(d) && Cancelled(Converted(CloneOf(d.unit), cs), r.unit)
  }

  // The text of the converted unit is that of the copy when, and for plain units only when, they match.
  lemma MatchesByText(p: UnitParts, b: Dimension, other: Dimension)
    requires ConvertsTo(b, Used(p), other)
    ensures Matches(p, b.unit) ==>
              other.unit.numerator == CloneOf(p).numerator && other.unit.denominator == CloneOf(p).denominator
    ensures Matches(p, b.unit) ==> UnitString(other.unit) == UnitString(CloneOf(p))
    ensures PlainUnits(p) && PlainUnits(b.unit) && UnitString(other.unit) == UnitString(CloneOf(p)) ==>
              Matches(p, b.unit)
  {
    hide Matches, PlainUnits, UnitString, Converted, Cancelled, LeftOf, Used, Quantity, SortStrings;
    ConvertedLeaves(b.unit, Used(p), other.unit) by {
      UsedAreTargets(p);
    }
    MatchesExactlyWhen(p, b.unit);
    SortStringsSorts(p.numerator);
    SortStringsSorts(p.denominator);
    if Matches(p, b.unit) {
      LeftIsUnique(CloneOf(p), p, other.unit, Converted(b.unit, Used(p)));
      SameText(other.unit, CloneOf(p));
    }
    if PlainUnits(p) && PlainUnits(b.unit) && UnitString(other.unit) == UnitString(CloneOf(p)) {
      UsedAreTargets(p);
      ConvertedIsPlain(b.unit, Used(p), other.unit);
      CloneIsPlain(p);
      UnitStringIsUnique(other.unit, CloneOf(p));
      LeftInOtherOrder(other.unit, p, Converted(b.unit, Used(p)));
    }
  }

  lemma ConvertedLeaves(q: UnitParts, cs: Conversions, r: UnitParts)
    requires WellTargeted(cs) && Cancelled(Converted(CloneOf(q), cs), r)
    ensures LeftOf(r, Converted(q, cs)) && Ascending(r.numerator) && Ascending(r.denominator)
  {
    hide Net, CloneOf, WellTargeted, Ascending, Converted;
    assert LeftOf(r, Converted(CloneOf(q), cs));
    LeftOfNet(r, CloneOf(q), cs);
    LeftOfNet(r, q, cs);
    forall u ensures Net(CloneOf(q), cs, u) == Net(q, cs, u) {
      CloneNet(q, cs, u);
    }
  }

  lemma LeftIsUnique(clone: UnitParts, p: UnitParts, r: UnitParts, q: UnitParts)
    requires LeftOf(p, q) && LeftOf(r, q) && Ascending(r.numerator) && Ascending(r.denominator)
    requires multiset(clone.numerator) == multiset(p.numerator)
    requires multiset(clone.denominator) == multiset(p.denominator)
    requires Ascending(clone.numerator) && Ascending(clone.denominator)
    ensures r.numerator == clone.numerator && r.denominator == clone.denominator
  {
    hide Ascending;
    assert multiset(r.numerator) == multiset(p.numerator) && multiset(r.denominator) == multiset(p.denominator);
    AscendingIsUnique(r.numerator, clone.numerator);
    AscendingIsUnique(r.denominator, clone.denominator);
  }

  lemma LeftInOtherOrder(r: UnitParts, p: UnitParts, q: UnitParts)
    requires LeftOf(r, q)
    requires multiset(r.numerator) == multiset(p.numerator) && multiset(r.denominator) == multiset(p.denominator)
    ensures LeftOf(p, q)
  {
  }

  // Without strict units too the kinds differ when the conversion is left out for two units.
  lemma MixedKindsDiffer(p: UnitParts, q: UnitParts)
    requires !Bare(p) && q.numerator == [] && p.denominator == []
    ensures !SameKind(p, q)
  {
    hide KindOf;
    var k := KindOf(p.numerator[0]);
    assert Exponent(p, k) > 0 && Exponent(q, k) <= 0;
  }

  // Adding and subtracting. A number without a unit takes the other's; a second operand without units
  // above the line is taken as it stands when the first has none below; everything else is converted.
  // If then the units match, the quantities are added; if not, strict units refuse, and otherwise the
  // converted value is added as if they did.
  method Added(a: Dimension, op: Op, b: Dimension, strictUnits: bool) returns (r: Result<Dimension, OpError>)
    requires op == Plus || op == Minus
    ensures Bare(a.unit) ==>
              r == Success(Dimension(Sum(op, a.value, b.value),
                                     UnitParts(b.unit.numerator, b.unit.denominator, a.unit.backupUnit)))
    ensures !Bare(a.unit) && TakenAsItStands(a.unit, b.unit) ==>
              r == Success(Dimension(Sum(op, a.value, b.value), CloneOf(a.unit))) && !SameKind(a.unit, b.unit)
    ensures !Bare(a.unit) && !TakenAsItStands(a.unit, b.unit) && Matches(a.unit, b.unit) ==>
              && r.Success? && r.value.unit == CloneOf(a.unit)
              && Quantity(r.value) == Sum(op, Quantity(a), Quantity(b))
    ensures !Bare(a.unit) && !TakenAsItStands(a.unit, b.unit) && strictUnits && !Matches(a.unit, b.unit) ==>
              PlainUnits(a.unit) && PlainUnits(b.unit) ==> r == Failure(IncompatibleUnits)
    ensures !Bare(a.unit) && !TakenAsItStands(a.unit, b.unit) && !strictUnits ==>
              exists other :: && ConvertsTo(b, Used(a.unit), other)
                              && r == Success(Dimension(Sum(op, a.value, other.value), CloneOf(a.unit)))
  {
    hide Product, CountOf, SortStrings, Quantity, Cancelled, PlainUnits, UnitString, Used, Matches, SameKind;
    if a.unit.numerator == [] && a.unit.denominator == [] {
      return Success(Dimension(Sum(op, a.value, b.value),
                               UnitParts(b.unit.numerator, b.unit.denominator, a.unit.backupUnit)));
    }
    var clone := new Unit(a.unit);
    var unit := UnitParts(clone.numerator, clone.denominator, clone.backupUnit);
    if b.unit.numerator == [] && a.unit.denominator == [] {
      MixedKindsDiffer(a.unit, b.unit);
      return Success(Dimension(Sum(op, a.value, b.value), unit));
    }
    var used := new Unit.AsIs(a.unit);
    var conversions := used.UsedUnits();
    UsedAre(a.unit, conversions);
    UsedAreTargets(a.unit);
    var other := ConvertTo(b, conversions);
    assert ConvertsTo(b, Used(a.unit), other);
    MatchesByText(a.unit, b, other);
    if strictUnits && UnitString(other.unit) != UnitString(unit) {
      return Failure(IncompatibleUnits);
    }
    r := Success(Dimension(Sum(op, a.value, other.value), unit));
    if Matches(a.unit, b.unit) {
      AddedQuantity(op, a, other, unit, r.value.value);
    }
  }

  lemma UsedAre(p: UnitParts, cs: Conversions)
    requires forall g :: FirstInGroup(p.numerator + p.denominator, g) == if g in cs then Some(cs[g]) else None
    ensures cs == Used(p)
  {
    hide FirstInGroup;
  }

  predicate TakenAsItStands(p: UnitParts, q: UnitParts) {
    q.numerator == [] && p.denominator == []
  }

  // Not even strict units refuse a second operand that has units below the line only.
  method AddsMismatchedUnits() returns (r: Result<Dimension, OpError>)
    ensures r == Success(Dimension(3.0, UnitParts(["px"], [], "")))
    ensures !SameKind(UnitParts(["px"], [], ""), UnitParts([], ["s"], ""))
  {
    var px, perSecond := UnitParts(["px"], [], ""), UnitParts([], ["s"], "");
    r := Added(Dimension(1.0, px), Plus, Dimension(2.0, perSecond), true);
    assert SortStrings(["px"]) == ["px"] by {
      assert SortStrings(["px"][1..]) == [];
    }
    assert CountOf(["s"], KindOf("s")) == 1 by {
      assert ["s"][1..] == [];
    }
    assert KindOf("s") == InGroup(Duration) && KindOf("px") == InGroup(Length);
    assert CountOf(["px"], InGroup(Duration)) == 0 by {
      assert ["px"][1..] == [];
    }
    assert Exponent(perSecond, InGroup(Duration)) == -1 && Exponent(px, InGroup(Duration)) == 0;
  }

  // Strict units refuse to add a number to itself when it has two units of one group: 1px*1cm, say.
  method RefusesItself(value: real) returns (r: Result<Dimension, OpError>)
    ensures r == Failure(IncompatibleUnits)
  {
    hide SelfConverts, PlainUnits, SameKind, NoneStray;
    var area := UnitParts(["cm", "px"], [], "");
    assert PlainUnits(area) && !Matches(area, area) by {
      AreaDoesNotConvert();
    }
    r := Added(Dimension(value, area), Plus, Dimension(value, area), true);
  }

  lemma AreaDoesNotConvert()
    ensures var area := UnitParts(["cm", "px"], [], ""); PlainUnits(area) && !SelfConverts(area)
  {
    var us := ["cm", "px"];
    var area := UnitParts(us, [], "");
    assert us + [] == us;
    assert GroupOf("cm") == Some(Length) && GroupOf("px") == Some(Length);
    assert Used(area)[Length] == "cm";
    assert Targets(us, Used(area)) == ["cm", "cm"];
    assert multiset(us)["px"] == 1 && multiset(["cm", "cm"])["px"] == 0;
    assert Surplus(["cm", "cm"], Targets([], Used(area)), "px") == 0;
  }

  // ---------- comparing ----------

  function Sign(x: real): int {
    if x > 0.0 then 1 else if x < 0.0 then -1 else 0
  }

  // In unified units each kind has one unit, so its count is the exponent of the kind.
  lemma {:induction false} UnifiedCounts(us: seq<string>, u: string)
    ensures multiset(Targets(us, UNIFY))[u] == if Target(u, UNIFY) == u then CountOf(us, KindOf(u)) else 0
  {
    hide KindOf, Target;
    var ts := Targets(us, UNIFY);
    if us != [] {
      UnifiedCounts(us[1..], u);
      assert ts[1..] == Targets(us[1..], UNIFY);
      MultisetOfHead(ts);
      OneUnitAKind(us[0], u);
    }
  }

  lemma OneUnitAKind(v: string, u: string)
    ensures Target(v, UNIFY) == u <==> Target(u, UNIFY) == u && KindOf(v) == KindOf(u)
  {
    assert GroupOf("px") == Some(Length) && GroupOf("s") == Some(Duration) && GroupOf("rad") == Some(Angle);
    hide Entry, GroupOf;
  }

  // The count of a unit in a unified and cancelled unit is given by the exponent of its kind.
  lemma UnifiedSurplus(p: UnitParts, p': UnitParts, u: string)
    requires Cancelled(Converted(CloneOf(p), UNIFY), p')
    ensures var e := if Target(u, UNIFY) == u then Exponent(p, KindOf(u)) else 0;
            && multiset(p'.numerator)[u] == (if e > 0 then e else 0)
            && multiset(p'.denominator)[u] == (if e < 0 then -e else 0)
  {
    hide CountOf, SortStrings, Targets, Ascending, KindOf, FirstName, Target;
    CloneKeeps(p);
    UnifiedCounts(CloneOf(p).numerator, u);
    UnifiedCounts(CloneOf(p).denominator, u);
    assert Exponent(p, KindOf(u)) == Exponent(CloneOf(p), KindOf(u));
  }

  lemma UnifiedIsUnique(p: UnitParts, q: UnitParts, p': UnitParts, q': UnitParts)
    requires SameKind(p, q)
    requires Cancelled(Converted(CloneOf(p), UNIFY), p') && Cancelled(Converted(CloneOf(q), UNIFY), q')
    ensures p'.numerator == q'.numerator && p'.denominator == q'.denominator
  {
    hide CountOf, SortStrings, Ascending, KindOf, Exponent, Surplus, Converted, FirstName, Target;
    forall u
      ensures multiset(p'.numerator)[u] == multiset(q'.numerator)[u]
      ensures multiset(p'.denominator)[u] == multiset(q'.denominator)[u]
    {
      UnifiedSurplus(p, p', u);
      UnifiedSurplus(q, q', u);
      assert Exponent(p, KindOf(u)) == Exponent(q, KindOf(u));
    }
    AscendingIsUnique(p'.numerator, q'.numerator);
    AscendingIsUnique(p'.denominator, q'.denominator);
  }

  lemma SignOfDifference(x: real, y: real, n: real, d: real)
    requires n > 0.0 && d > 0.0
    ensures Sign(Fraction(x, n, d) - Fraction(y, n, d)) == Sign(x - y)
  {
    Distribute(Minus, x, y, x - y, n, d);
    var z := (x - y) * n / d;
    assert z * d == (x - y) * n;
  }

  lemma UnifyTargets()
    ensures WellTargeted(UNIFY) && forall g :: g in UNIFY ==> Plain(UNIFY[g])
  {
    assert GroupOf("px") == Some(Length) && GroupOf("s") == Some(Duration) && GroupOf("rad") == Some(Angle);
  }

  lemma SameKindCompares(a: Dimension, b: Dimension, a': Dimension, b': Dimension)
    requires SameKind(a.unit, b.unit) && Quantity(a') == Quantity(a) && Quantity(b') == Quantity(b)
    requires Cancelled(Converted(CloneOf(a.unit), UNIFY), a'.unit)
    requires Cancelled(Converted(CloneOf(b.unit), UNIFY), b'.unit)
    ensures UnitString(a'.unit) == UnitString(b'.unit)
    ensures Sign(a'.value - b'.value) == Sign(Quantity(a) - Quantity(b))
  {
    hide Fraction, Product, CountOf, SortStrings, Cancelled, UnitString, Sign;
    UnifiedIsUnique(a.unit, b.unit, a'.unit, b'.unit);
    SameText(a'.unit, b'.unit);
    SignOfDifference(a'.value, b'.value, Product(a'.unit.numerator), Product(a'.unit.denominator));
  }

  lemma SameText(p: UnitParts, q: UnitParts)
    requires p.numerator == q.numerator && p.denominator == q.denominator
    ensures UnitString(p) == UnitString(q)
  {
  }

  // Two numbers of the same kind compare as the quantities they stand for; of different kinds, the
  // first counts as the smaller.
  method Compare(a: Dimension, b: Dimension) returns (r: int)
    ensures Bare(a.unit) || Bare(b.unit) ==> r == Sign(a.value - b.value)
    ensures !Bare(a.unit) && !Bare(b.unit) && SameKind(a.unit, b.unit) ==> r == Sign(Quantity(a) - Quantity(b))
    ensures !Bare(a.unit) && !Bare(b.unit) && !SameKind(a.unit, b.unit) && PlainUnits(a.unit) && PlainUnits(b.unit) ==>
              r == -1
  {
    hide GroupOf, Product, CountOf, SortStrings, Cancelled, PlainUnits, UnitString, Plain, SameKind, Quantity,
         WellTargeted, Converted;
    var aValue, bValue := a.value, b.value;
    if !Bare(a.unit) && !Bare(b.unit) {
      UnifyTargets();
      var a' := ConvertTo(a, UNIFY);
      var b' := ConvertTo(b, UNIFY);
      if PlainUnits(a.unit) && PlainUnits(b.unit) {
        ConvertedIsPlain(a.unit, UNIFY, a'.unit);
        ConvertedIsPlain(b.unit, UNIFY, b'.unit);
      }
      if SameKind(a.unit, b.unit) {
        SameKindCompares(a, b, a', b');
      }
      if UnitString(b'.unit) != UnitString(a'.unit) {
        return -1;
      }
      if PlainUnits(a.unit) && PlainUnits(b.unit) {
        SameTextSameKind(a.unit, a'.unit, b'.unit, b.unit);
      }
      aValue, bValue := a'.value, b'.value;
    }
    r := if bValue > aValue then -1 else if bValue < aValue then 1 else 0;
  }

  lemma SameTextSameKind(p: UnitParts, p': UnitParts, q': UnitParts, q: UnitParts)
    requires PlainUnits(p') && PlainUnits(q') && UnitString(p') == UnitString(q')
    requires SameKind(p', p) && SameKind(q', q)
    ensures SameKind(p, q)
  {
    hide CountOf, PlainUnits, UnitString;
    UnitStringIsUnique(p', q');
    forall k ensures Exponent(p, k) == Exponent(q, k) {
      assert Exponent(p', k) == Exponent(p, k) && Exponent(q', k) == Exponent(q, k);
    }
  }
}
