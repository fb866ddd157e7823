// The loop by which the HTML parser of Fit looks for the end tag of an element (findMatchingEndTag in
// src/fit/Parse.java), and when it ends: behind a tag without a '>' it goes back to the start of the text.
// The count of open tags is an int of 32 bits, so a loop that only counts up ends when it overflows.
module FitScan {
  import opened Strings

  // ---------- the count ----------

  const MAX_INT := 0x7fff_ffff
  const MIN_INT := -0x8000_0000

  type int32 = n: int | MIN_INT <= n <= MAX_INT

  // The count after one more opening or closing tag.
  function Counted(count: int32, delta: int): int32
    requires count >= 1 && (delta == 1 || delta == -1)
  {
    if count == MAX_INT && delta == 1 then MIN_INT else count + delta
  }

  // ---------- the loop ----------

  // What one turn of the loop finds: the nearest tag, what it adds to the count and where the search
  // goes on, which is the start of the text if no '>' follows the tag.
  datatype Turn = NoTagLeft | Stuck | Tag(start: nat, delta: int, next: nat)

  function NearestTag(lc: string, tag: string, from: nat): (t: Turn)
    ensures t.Tag? ==> from <= t.start && (t.next == 0 || from < t.next <= |lc|) && (t.delta == 1 || t.delta == -1)
  {
    var embeddedTag := IndexFrom(lc, "<" + tag, from);
    var embeddedTagEnd := IndexFrom(lc, "</" + tag, from);
    if embeddedTag < 0 && embeddedTagEnd < 0 then NoTagLeft
    else if embeddedTagEnd < 0 || 0 <= embeddedTag < embeddedTagEnd then
      Tag(embeddedTag, 1, IndexFrom(lc, ">", embeddedTag) + 1)
    else if embeddedTag < 0 || embeddedTagEnd < embeddedTag then
      Tag(embeddedTagEnd, -1, IndexFrom(lc, ">", embeddedTagEnd) + 1)
    else Stuck
  }

  datatype Scan = Found(startEnd: nat) | NoTag | Running

  // The loop for a number of rounds. A tag that is taken for an opening and a closing one at the same
  // time changes nothing, so the loop stays there.
  function ScanTags(lc: string, tag: string, from: nat, count: int32, startEnd: nat, rounds: nat): Scan
    decreases rounds
  {
    if count <= 0 then Found(startEnd)
    else if rounds == 0 then Running
    else
      match NearestTag(lc, tag, from)
      case NoTagLeft => NoTag
      case Stuck => Running
      case Tag(start, delta, next) => ScanTags(lc, tag, next, Counted(count, delta), start, rounds - 1)
  }

  // One turn of the loop, by the two places that it compares.
  lemma ScanTurn(lc: string, tag: string, from: nat, count: int32, startEnd: nat, rounds: nat)
    requires count >= 1 && rounds > 0 && ScanTags(lc, tag, from, count, startEnd, rounds) != Running
    ensures var scan := ScanTags(lc, tag, from, count, startEnd, rounds);
            var o, e := IndexFrom(lc, "<" + tag, from), IndexFrom(lc, "</" + tag, from);
            if o < 0 && e < 0 then scan == NoTag
            else if e < 0 || 0 <= o < e then
              scan == ScanTags(lc, tag, IndexFrom(lc, ">", o) + 1, Counted(count, 1), o, rounds - 1)
            else
              && (o < 0 || e < o)
              && scan == ScanTags(lc, tag, IndexFrom(lc, ">", e) + 1, Counted(count, -1), e, rounds - 1)
  {
    hide IndexFrom;
  }

  lemma ScanEnd(lc: string, tag: string, from: nat, count: int32, startEnd: nat, rounds: nat)
    ensures count <= 0 ==> ScanTags(lc, tag, from, count, startEnd, rounds) == Found(startEnd)
    ensures count >= 1 && rounds == 0 ==> ScanTags(lc, tag, from, count, startEnd, rounds) == Running
  {
  }

  lemma NearestIsTag(lc: string, tag: string, from: nat)
    ensures var t := NearestTag(lc, tag, from);
            && (t.Tag? && t.delta == -1 ==> OccursAt(lc, "</" + tag, t.start) && !OccursAt(lc, "<" + tag, t.start))
            && (t.Tag? && t.delta == 1 ==> OccursAt(lc, "<" + tag, t.start))
  {
    hide OccursAt;
  }

  // The tag found is a closing one, or the count has overflowed at an opening one, for which it takes more
  // rounds than it had left.
  lemma {:induction false} FoundIsTag(lc: string, tag: string, from: nat, count: int32, startEnd: nat, rounds: nat)
    requires count >= 1
    ensures var scan := ScanTags(lc, tag, from, count, startEnd, rounds);
            scan.Found? ==>
              || (OccursAt(lc, "</" + tag, scan.startEnd) && !OccursAt(lc, "<" + tag, scan.startEnd))
              || (OccursAt(lc, "<" + tag, scan.startEnd) && count + rounds > MAX_INT)
    decreases rounds
  {
    hide NearestTag, OccursAt;
    if rounds > 0 && NearestTag(lc, tag, from).Tag? {
      var t := NearestTag(lc, tag, from);
      NearestIsTag(lc, tag, from);
      if Counted(count, t.delta) >= 1 {
        FoundIsTag(lc, tag, t.next, Counted(count, t.delta), t.start, rounds - 1);
      }
    }
  }

  // ---------- one pass ----------

  // From a place on, the loop ends, by its count or by its overflow, or is stuck, or it goes back to the
  // start.
  datatype PassResult = Ended(scan: Scan) | Wrapped(count: int32, startEnd: nat)

  function Pass(lc: string, tag: string, from: nat, count: int32, startEnd: nat): (r: PassResult)
    ensures r.Wrapped? ==> r.count >= 1
    decreases |lc| - from
  {
    if count <= 0 then Ended(Found(startEnd))
    else
      match NearestTag(lc, tag, from)
      case NoTagLeft => Ended(NoTag)
      case Stuck => Ended(Running)
      case Tag(start, delta, next) =>
        var c := Counted(count, delta);
        if c <= 0 then Ended(Found(start))
        else if next == 0 then Wrapped(c, start)
        else Pass(lc, tag, next, c, start)
  }

  function PassRounds(lc: string, tag: string, from: nat, count: int32): nat
    decreases |lc| - from
  {
    if count <= 0 then 0
    else
      match NearestTag(lc, tag, from)
      case Tag(_, delta, next) =>
        var c := Counted(count, delta);
        if c >= 1 && next > 0 then 1 + PassRounds(lc, tag, next, c) else 1
      case _ => 1
  }

  lemma {:induction false} PassScan(lc: string, tag: string, from: nat, count: int32, startEnd: nat, rounds: nat)
    ensures var n, scan := PassRounds(lc, tag, from, count), ScanTags(lc, tag, from, count, startEnd, rounds);
            match Pass(lc, tag, from, count, startEnd)
            case Ended(s) => scan == if rounds < n then Running else s
            case Wrapped(c, s) => scan == if rounds < n then Running else ScanTags(lc, tag, 0, c, s, rounds - n)
    decreases |lc| - from
  {
    hide NearestTag;
    if count >= 1 && rounds > 0 && NearestTag(lc, tag, from).Tag? {
      var t := NearestTag(lc, tag, from);
      var c := Counted(count, t.delta);
      if c >= 1 && t.next > 0 {
        PassScan(lc, tag, t.next, c, t.start, rounds - 1);
      }
    }
  }

  // The tags passed do not depend on the count, but with another one the end may be found among them.
  lemma {:induction false} PassShift(lc: string, tag: string, from: nat, count: int32, startEnd: nat, count': int32,
                                     startEnd': nat)
    requires count >= 1 && count' >= 1 && Pass(lc, tag, from, count, startEnd).Wrapped?
    ensures var r, r' := Pass(lc, tag, from, count, startEnd), Pass(lc, tag, from, count', startEnd');
            && (r'.Wrapped? ==> r'.count - count' == r.count - count && r'.startEnd == r.startEnd)
            && (r'.Ended? ==> r'.scan.Found?)
    decreases |lc| - from
  {
    hide NearestTag;
    var t := NearestTag(lc, tag, from);
    if t.next > 0 && Counted(count', t.delta) >= 1 {
      PassShift(lc, tag, t.next, Counted(count, t.delta), t.start, Counted(count', t.delta), t.start);
    }
  }

  // Where the count was before the start of a pass does not matter.
  lemma PassStart(lc: string, tag: string, from: nat, count: int32, a: nat, b: nat)
    requires count >= 1
    ensures Pass(lc, tag, from, count, a) == Pass(lc, tag, from, count, b)
  {
    hide NearestTag;
  }

  // ---------- the passes from the start ----------

  // A pass from the start that leaves the count as it was comes back for ever.
  lemma {:induction false} NeverEnds(lc: string, tag: string, count: int32, startEnd: nat, rounds: nat)
    requires count >= 1 && Pass(lc, tag, 0, count, startEnd).Wrapped?
    requires Pass(lc, tag, 0, count, startEnd).count == count
    ensures ScanTags(lc, tag, 0, count, startEnd, rounds) == Running
    decreases rounds
  {
    hide NearestTag, ScanTags;
    var r, n := Pass(lc, tag, 0, count, startEnd), PassRounds(lc, tag, 0, count);
    PassScan(lc, tag, 0, count, startEnd, rounds);
    if rounds >= n {
      PassStart(lc, tag, 0, count, startEnd, r.startEnd);
      NeverEnds(lc, tag, count, r.startEnd, rounds - n);
    }
  }

  // How far the count is from the end of a loop whose passes count up, or down.
  function Distance(count: int32, up: bool): nat
    requires count >= 1
  {
    if up then MAX_INT - count else count
  }

  // Pass after pass from the start, each counting in the given direction.
  function Passes(lc: string, tag: string, count: int32, startEnd: nat, up: bool): Scan
    requires count >= 1
    decreases Distance(count, up)
  {
    match Pass(lc, tag, 0, count, startEnd)
    case Ended(scan) => scan
    case Wrapped(c, s) => if c != count && (up <==> c > count) then Passes(lc, tag, c, s, up) else Running
  }

  function PassesRounds(lc: string, tag: string, count: int32, startEnd: nat, up: bool): nat
    requires count >= 1
    decreases Distance(count, up)
  {
    PassRounds(lc, tag, 0, count)
    + match Pass(lc, tag, 0, count, startEnd)
      case Ended(_) => 0
      case Wrapped(c, s) => if c != count && (up <==> c > count) then PassesRounds(lc, tag, c, s, up) else 0
  }

  ghost predicate Counts(r: PassResult, count: int32, up: bool) {
    r.Wrapped? && r.count != count ==> (up <==> r.count > count)
  }

  // All passes from the start count in the direction of the first one.
  lemma {:induction false} PassesScan(lc: string, tag: string, count: int32, startEnd: nat, up: bool, rounds: nat)
    requires count >= 1 && Counts(Pass(lc, tag, 0, count, startEnd), count, up)
    ensures ScanTags(lc, tag, 0, count, startEnd, rounds)
         == if rounds < PassesRounds(lc, tag, count, startEnd, up) then Running
            else Passes(lc, tag, count, startEnd, up)
    decreases Distance(count, up)
  {
    hide NearestTag, ScanTags, Pass, PassRounds;
    var r, n := Pass(lc, tag, 0, count, startEnd), PassRounds(lc, tag, 0, count);
    PassScan(lc, tag, 0, count, startEnd, rounds);
    if r.Wrapped? && r.count == count {
      NeverEnds(lc, tag, count, startEnd, rounds);
    } else if r.Wrapped? && rounds >= n {
      PassShift(lc, tag, 0, count, startEnd, r.count, r.startEnd);
      PassesScan(lc, tag, r.count, r.startEnd, up, rounds - n);
    }
  }

  // A pass from the start that changes the count changes it again by as much, until the end is found or
  // the count overflows.
  lemma {:induction false} PassesEnd(lc: string, tag: string, count: int32, startEnd: nat, up: bool)
    requires count >= 1 && Pass(lc, tag, 0, count, startEnd).Wrapped?
    requires Pass(lc, tag, 0, count, startEnd).count != count && Counts(Pass(lc, tag, 0, count, startEnd), count, up)
    ensures Passes(lc, tag, count, startEnd, up).Found?
    decreases Distance(count, up)
  {
    hide NearestTag, Pass;
    var r := Pass(lc, tag, 0, count, startEnd);
    PassShift(lc, tag, 0, count, startEnd, r.count, r.startEnd);
    if Pass(lc, tag, 0, r.count, r.startEnd).Wrapped? {
      PassesEnd(lc, tag, r.count, r.startEnd, up);
    }
  }

  predicate CountsUp(lc: string, tag: string, count: int32, startEnd: nat) {
    var r := Pass(lc, tag, 0, count, startEnd);
    r.Wrapped? && r.count > count
  }

  // ---------- the exact condition ----------

  // The result of the loop, without a bound on its rounds; Running if it does not end.
  function ScanOf(lc: string, tag: string, from: nat, count: int32, startEnd: nat): Scan {
    match Pass(lc, tag, from, count, startEnd)
    case Ended(scan) => scan
    case Wrapped(c, s) => Passes(lc, tag, c, s, CountsUp(lc, tag, c, s))
  }

  function ScanRounds(lc: string, tag: string, from: nat, count: int32, startEnd: nat): nat {
    PassRounds(lc, tag, from, count)
    + match Pass(lc, tag, from, count, startEnd)
      case Ended(_) => 0
      case Wrapped(c, s) => PassesRounds(lc, tag, c, s, CountsUp(lc, tag, c, s))
  }

  predicate Ends(r: PassResult) {
    r.Ended? && r.scan != Running
  }

  // The first pass ends, or one more from the start ends or comes back with another count.
  predicate EndsFrom(lc: string, tag: string, from: nat, count: int32) {
    var first := Pass(lc, tag, from, count, 0);
    Ends(first) || (first.Wrapped? && (var second := Pass(lc, tag, 0, first.count, 0);
                                       Ends(second) || (second.Wrapped? && second.count != first.count)))
  }

  lemma ScanIs(lc: string, tag: string, from: nat, count: int32, startEnd: nat, rounds: nat)
    ensures ScanTags(lc, tag, from, count, startEnd, rounds)
         == if rounds < ScanRounds(lc, tag, from, count, startEnd) then Running
            else ScanOf(lc, tag, from, count, startEnd)
  {
    hide ScanTags, Pass, PassRounds, Passes, PassesRounds;
    var r, n := Pass(lc, tag, from, count, startEnd), PassRounds(lc, tag, from, count);
    PassScan(lc, tag, from, count, startEnd, rounds);
    if r.Wrapped? && rounds >= n {
      PassesScan(lc, tag, r.count, r.startEnd, CountsUp(lc, tag, r.count, r.startEnd), rounds - n);
    }
  }

  // The loop ends after some number of rounds exactly when EndsFrom says so after at most two passes,
  // and its result is then that of ScanOf. Only a pass that leaves the count as it was goes on for ever.
  lemma LoopEndsExactlyWhen(lc: string, tag: string, from: nat, count: int32, startEnd: nat)
    requires count >= 1
    ensures (exists rounds: nat :: ScanTags(lc, tag, from, count, startEnd, rounds) != Running)
            <==> EndsFrom(lc, tag, from, count)
    ensures EndsFrom(lc, tag, from, count) <==> ScanOf(lc, tag, from, count, startEnd) != Running
    ensures forall rounds: nat :: ScanTags(lc, tag, from, count, startEnd, rounds) != Running ==>
              ScanTags(lc, tag, from, count, startEnd, rounds) == ScanOf(lc, tag, from, count, startEnd)
  {
    hide ScanTags, Pass, PassRounds, PassesRounds, ScanRounds;
    PassStart(lc, tag, from, count, 0, startEnd);
    var first := Pass(lc, tag, from, count, startEnd);
    if first.Wrapped? {
      PassStart(lc, tag, 0, first.count, 0, first.startEnd);
      var second := Pass(lc, tag, 0, first.count, first.startEnd);
      if second.Wrapped? && second.count != first.count {
        PassesEnd(lc, tag, first.count, first.startEnd, CountsUp(lc, tag, first.count, first.startEnd));
      }
    }
    var enough := ScanRounds(lc, tag, from, count, startEnd);
    ScanIs(lc, tag, from, count, startEnd, enough);
    forall rounds: nat | ScanTags(lc, tag, from, count, startEnd, rounds) != Running
      ensures ScanTags(lc, tag, from, count, startEnd, rounds) == ScanOf(lc, tag, from, count, startEnd)
    {
      ScanIs(lc, tag, from, count, startEnd, rounds);
    }
  }

  // ---------- the method ----------

  // NoTag stands for the exception.
  method FindMatchingEndTag(lc: string, matchFromHere: nat, tag: string) returns (scan: Scan)
    requires EndsFrom(lc, tag, matchFromHere, 1)
    ensures scan == ScanOf(lc, tag, matchFromHere, 1, 0) != Running
  {
    hide EndsFrom, ScanOf, ScanRounds, IndexFrom, ScanTags;
    var fromHere: nat, count: int32, startEnd: nat := matchFromHere, 1, 0;
    LoopEndsExactlyWhen(lc, tag, matchFromHere, 1, 0);
    ghost var rounds: nat := ScanRounds(lc, tag, matchFromHere, 1, 0);
    ScanIs(lc, tag, matchFromHere, 1, 0, rounds);
    while count > 0
      invariant ScanTags(lc, tag, fromHere, count, startEnd, rounds) == ScanOf(lc, tag, matchFromHere, 1, 0) != Running
      decreases rounds
    {
      ScanEnd(lc, tag, fromHere, count, startEnd, rounds);
      ScanTurn(lc, tag, fromHere, count, startEnd, rounds);
      var embeddedTag := IndexFrom(lc, "<" + tag, fromHere);
      var embeddedTagEnd := IndexFrom(lc, "</" + tag, fromHere);
      if embeddedTag < 0 && embeddedTagEnd < 0 {
        return NoTag;
      }
      if embeddedTagEnd < 0 || 0 <= embeddedTag < embeddedTagEnd {
        count := Counted(count, 1);
        startEnd := embeddedTag;
        fromHere := IndexFrom(lc, ">", embeddedTag) + 1;
      } else if embeddedTag < 0 || embeddedTagEnd < embeddedTag {
        count := Counted(count, -1);
        startEnd := embeddedTagEnd;
        fromHere := IndexFrom(lc, ">", embeddedTagEnd) + 1;
      }
      rounds := rounds - 1;
    }
    ScanEnd(lc, tag, fromHere, count, startEnd, rounds);
    return Found(startEnd);
  }
}
