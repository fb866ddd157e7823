// Operations on strings that both languages share: order, search and lower case of ASCII text.
module Strings {
  import opened Sequences

  // ---------- the order, code unit by code unit ----------

  predicate StrLess(a: string, b: string) {
    if a == [] || b == [] then a == [] && b != []
    else a[0] < b[0] || (a[0] == b[0] && StrLess(a[1..], b[1..]))
  }

  lemma {:induction false} StrLessOrder(a: string, b: string)
    ensures !(StrLess(a, b) && StrLess(b, a))
    ensures !StrLess(a, b) && !StrLess(b, a) <==> a == b
  {
    if a != [] && b != [] {
      StrLessOrder(a[1..], b[1..]);
      assert a == [a[0]] + a[1..] && b == [b[0]] + b[1..];
    }
  }

  lemma {:induction false} StrLessTransitive(a: string, b: string, c: string)
    requires StrLess(a, b) && StrLess(b, c)
    ensures StrLess(a, c)
  {
    if a != [] && a[0] == b[0] == c[0] {
      StrLessTransitive(a[1..], b[1..], c[1..]);
    }
  }

  // ---------- Array.prototype.sort without a comparator ----------

  function InsertString(x: string, ss: seq<string>): seq<string> {
    if ss == [] || !StrLess(ss[0], x) then [x] + ss else [ss[0]] + InsertString(x, ss[1..])
  }

  function SortStrings(ss: seq<string>): seq<string> {
    if ss == [] then [] else InsertString(ss[0], SortStrings(ss[1..]))
  }

  ghost predicate Ascending(ss: seq<string>) {
    forall i, j :: 0 <= i < j < |ss| ==> !StrLess(ss[j], ss[i])
  }

  lemma {:induction false} InsertStringKeeps(x: string, ss: seq<string>)
    ensures multiset(InsertString(x, ss)) == multiset(ss) + multiset{x}
  {
    hide StrLess;
    if ss != [] && StrLess(ss[0], x) {
      InsertStringKeeps(x, ss[1..]);
      assert ss == [ss[0]] + ss[1..];
    }
  }

  lemma NotLessThrough(a: string, b: string, c: string)
    requires !StrLess(b, a) && StrLess(b, c)
    ensures StrLess(a, c)
  {
    hide StrLess;
    StrLessOrder(a, b);
    if a != b { StrLessTransitive(a, b, c); }
  }

  lemma {:induction false} InsertStringSorts(x: string, ss: seq<string>)
    requires Ascending(ss)
    ensures Ascending(InsertString(x, ss))
  {
    hide StrLess;
    if ss == [] {
    } else if !StrLess(ss[0], x) {
      forall j | 0 <= j < |ss| ensures !StrLess(ss[j], x) {
        if StrLess(ss[j], x) { NotLessThrough(ss[0], ss[j], x); }
      }
    } else {
      InsertStringSorts(x, ss[1..]);
      InsertStringKeeps(x, ss[1..]);
      StrLessOrder(ss[0], x);
      MultisetOfPush(x, ss[1..]);
      PushLeast(ss[0], InsertString(x, ss[1..]), ss[1..] + [x]);
    }
  }

  lemma PushLeast(x: string, rest: seq<string>, same: seq<string>)
    requires Ascending(rest) && multiset(rest) == multiset(same)
    requires forall j :: 0 <= j < |same| ==> !StrLess(same[j], x)
    ensures Ascending([x] + rest)
  {
    hide StrLess;
    forall j | 0 <= j < |rest| ensures !StrLess(rest[j], x) {
      SameElements(rest, same, rest[j]);
    }
  }

  lemma {:induction false} SortStringsSorts(ss: seq<string>)
    ensures multiset(SortStrings(ss)) == multiset(ss) && Ascending(SortStrings(ss))
  {
    hide StrLess;
    if ss != [] {
      SortStringsSorts(ss[1..]);
      InsertStringKeeps(ss[0], SortStrings(ss[1..]));
      InsertStringSorts(ss[0], SortStrings(ss[1..]));
      MultisetOfHead(ss);
    }
  }

  // There is one way to put strings in order.
  lemma {:induction false} AscendingIsUnique(a: seq<string>, b: seq<string>)
    requires Ascending(a) && Ascending(b) && multiset(a) == multiset(b)
    ensures a == b
  {
    hide StrLess;
    if a == [] || b == [] {
      assert |multiset(a)| == |multiset(b)|;
    } else {
      SameElements(a, b, a[0]);
      SameElements(a, b, b[0]);
      StrLessOrder(a[0], b[0]);
      FirstIsLeastString(a, b[0]);
      FirstIsLeastString(b, a[0]);
      SameTails(a, b);
      AscendingIsUnique(a[1..], b[1..]);
      assert a == [a[0]] + a[1..] && b == [b[0]] + b[1..];
    }
  }

  lemma FirstIsLeastString(ss: seq<string>, x: string)
    requires Ascending(ss) && x in ss
    ensures !StrLess(x, ss[0])
  {
    StrLessOrder(x, x);
  }

  // ---------- indexOf ----------

  ghost predicate OccursAt(s: string, t: string, i: int) {
    0 <= i && i + |t| <= |s| && s[i..i + |t|] == t
  }

  function IndexFrom(s: string, t: string, from: nat): (i: int)
    ensures i == -1 || (from <= i && OccursAt(s, t, i))
    ensures forall j :: from <= j && (i == -1 || j < i) ==> !OccursAt(s, t, j)
    decreases |s| - from
  {
    if from + |t| > |s| then -1
    else if s[from..from + |t|] == t then from
    else IndexFrom(s, t, from + 1)
  }

  // ---------- lower case ----------

  function LowerCase(s: string): string {
    seq(|s|, i requires 0 <= i < |s| => if 'A' <= s[i] <= 'Z' then s[i] + 32 as char else s[i])
  }
}
