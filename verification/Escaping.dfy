// Escaping text for HTML and reading it back (src/fit/Fixture.java, src/fit/Parse.java,
// src/fitnesse/html/HtmlUtil.java).
module Escaping {
  import opened Wrappers
  import opened Sequences
  import opened Strings

  // ---------- String.replace ----------

  // Every occurrence from the left, none overlapping the one before.
  function Replace(s: string, from: string, to: string): string
    requires from != ""
    decreases |s|
  {
    if s == "" then ""
    else if from <= s then to + Replace(s[|from|..], from, to)
    else [s[0]] + Replace(s[1..], from, to)
  }

  ghost predicate Contains(s: string, t: string) {
    exists i :: OccursAt(s, t, i)
  }

  lemma ContainsStep(s: string, t: string)
    requires s != "" && t != ""
    ensures Contains(s, t) <==> t <= s || Contains(s[1..], t)
  {
    if t <= s {
      assert OccursAt(s, t, 0);
    }
    if Contains(s[1..], t) {
      var i :| OccursAt(s[1..], t, i);
      assert OccursAt(s, t, i + 1);
    }
    if Contains(s, t) && !(t <= s) {
      var i :| OccursAt(s, t, i);
      assert i > 0;
      assert OccursAt(s[1..], t, i - 1);
    }
  }

  lemma NothingContained(t: string)
    requires t != ""
    ensures !Contains("", t)
  {
  }

  // A shorter replacement leaves the text as it is exactly when there is nothing to replace.
  lemma {:induction false} ReplaceShortens(s: string, from: string, to: string)
    requires |to| < |from|
    ensures Replace(s, from, to) == s <==> !Contains(s, from)
    ensures Contains(s, from) ==> |Replace(s, from, to)| < |s|
    decreases |s|
  {
    hide Contains;
    NothingContained(from);
    if s != "" {
      ContainsStep(s, from);
      if from <= s {
        ReplaceShortens(s[|from|..], from, to);
      } else {
        ReplaceShortens(s[1..], from, to);
        assert s == [s[0]] + s[1..];
      }
    }
  }

  // One character at a time there is no overlap to mind.
  lemma {:induction false} ReplaceInConcat(a: string, b: string, c: char, to: string)
    ensures Replace(a + b, [c], to) == Replace(a, [c], to) + Replace(b, [c], to)
    decreases |a|
  {
    if a == "" {
      assert a + b == b;
    } else {
      ReplaceInConcat(a[1..], b, c, to);
      assert (a + b)[1..] == a[1..] + b;
      assert [c] <= a + b <==> [c] <= a;
      Assoc(to, Replace(a[1..], [c], to), Replace(b, [c], to));
      Assoc([a[0]], Replace(a[1..], [c], to), Replace(b, [c], to));
    }
  }

  lemma ReplaceOne(x: char, c: char, to: string)
    ensures Replace([x], [c], to) == if x == c then to else [x]
  {
    assert [x][1..] == "" && to + "" == to && [x] + "" == [x];
    if x != c {
      assert [c][0] != [x][0];
    }
  }

  lemma {:induction false} ReplaceNothing(s: string, c: char, to: string)
    requires c !in s
    ensures Replace(s, [c], to) == s
  {
    if s != "" {
      ReplaceNothing(s[1..], c, to);
      assert s == [s[0]] + s[1..];
    }
  }

  // ---------- Fixture.escape ----------

  // The loop of Fixture.escape for one character: the search goes on behind the first character
  // of what was put in, so that character may be the one looked for.
  method EscapeOne(string0: string, from: char, to: string) returns (s: string)
    requires to != "" && from !in to[1..]
    ensures s == Replace(string0, [from], to)
  {
    hide Replace, IndexFrom;
    s := string0;
    ghost var done: nat := 0;
    assert s[0..] == s;
    var i := IndexFrom(s, [from], 0);
    while i >= 0
      invariant done <= |s| && i == IndexFrom(s, [from], done)
      invariant Replace(string0, [from], to) == s[..done] + Replace(s[done..], [from], to)
      decreases |s| - done
    {
      EscapeStep(s, done, i, from, to);
      // an index is never the length of the string, so the branch for that is not modelled
      if i == 0 {
        s := to + s[1..];
      } else {
        s := s[..i] + to + s[i + 1..];
      }
      done := i + |to|;
      i := IndexFrom(s, [from], i + 1);
    }
    NothingLeft(s, done, from, to);
  }

  lemma NotThere(s: string, c: char, from: nat)
    requires from <= |s|
    ensures IndexFrom(s, [c], from) == -1 ==> c !in s[from..]
    ensures IndexFrom(s, [c], from) >= 0 ==>
              var i := IndexFrom(s, [c], from); from <= i < |s| && s[i] == c && c !in s[from..i]
  {
    hide IndexFrom;
    forall k | from <= k < |s| && s[k] == c ensures OccursAt(s, [c], k) {
      assert s[k..k + 1] == [c];
    }
    var i := IndexFrom(s, [c], from);
    if i >= 0 {
      assert OccursAt(s, [c], i) && s[i..i + 1][0] == s[i];
    }
  }

  lemma EscapeStep(s: string, done: nat, i: nat, from: char, to: string)
    requires done <= |s| && i == IndexFrom(s, [from], done) && to != "" && from !in to[1..]
    ensures done <= i < |s|
    ensures var s' := s[..i] + to + s[i + 1..];
            && (i == 0 ==> to + s[1..] == s')
            && IndexFrom(s', [from], i + 1) == IndexFrom(s', [from], i + |to|)
            && s'[i + |to|..] == s[i + 1..]
            && s[..done] + Replace(s[done..], [from], to) == s'[..i + |to|] + Replace(s[i + 1..], [from], to)
  {
    hide Replace, IndexFrom;
    NotThere(s, from, done);
    var s', rest := s[..i] + to + s[i + 1..], s[i + 1..];
    assert s'[i + |to|..] == rest && s'[..i + |to|] == s[..i] + to;
    ReplaceFirst(s[done..i], from, rest, to);
    assert s[done..] == s[done..i] + ([from] + rest);
    assert s[..i] == s[..done] + s[done..i];
    Assoc(s[..done] + s[done..i], to, Replace(rest, [from], to));
    Assoc(s[..done], s[done..i], to + Replace(rest, [from], to));
    assert s'[i + 1..i + |to|] == to[1..];
    SkipsTo(s', from, i + 1, i + |to|);
  }

  lemma ReplaceFirst(a: string, c: char, rest: string, to: string)
    requires c !in a
    ensures Replace(a + ([c] + rest), [c], to) == a + (to + Replace(rest, [c], to))
  {
    hide Replace;
    ReplaceInConcat(a, [c] + rest, c, to);
    ReplaceInConcat([c], rest, c, to);
    ReplaceOne(c, c, to);
    ReplaceNothing(a, c, to);
  }

  lemma SkipsTo(s: string, c: char, a: nat, b: nat)
    requires a <= b <= |s| && c !in s[a..b]
    ensures IndexFrom(s, [c], a) == IndexFrom(s, [c], b)
  {
    hide IndexFrom;
    forall k | a <= k < b ensures !OccursAt(s, [c], k) {
      assert s[k] == s[a..b][k - a];
    }
  }

  lemma NothingLeft(s: string, done: nat, from: char, to: string)
    requires done <= |s| && IndexFrom(s, [from], done) < 0
    ensures s[..done] + Replace(s[done..], [from], to) == s
  {
    hide Replace, IndexFrom;
    NotThere(s, from, done);
    ReplaceNothing(s[done..], from, to);
  }

  // Fixture.escape, for ampersands and then for openers.
  function Escape(s: string): string {
    Replace(Replace(s, "&", "&amp;"), "<", "&lt;")
  }

  function EscapeChar(c: char): string {
    if c == '&' then "&amp;" else if c == '<' then "&lt;" else [c]
  }

  lemma EscapeHead(c: char, s: string)
    ensures Escape([c] + s) == EscapeChar(c) + Escape(s)
  {
    hide Replace;
    ReplaceInConcat([c], s, '&', "&amp;");
    ReplaceOne(c, '&', "&amp;");
    var first := if c == '&' then "&amp;" else [c];
    ReplaceInConcat(first, Replace(s, "&", "&amp;"), '<', "&lt;");
    ReplaceOne(c, '<', "&lt;");
    ReplaceNothing("&amp;", '<', "&lt;");
  }

  method EscapeFixture(s: string) returns (r: string)
    ensures r == Escape(s)
  {
    r := EscapeOne(s, '&', "&amp;");
    r := EscapeOne(r, '<', "&lt;");
  }

  // ---------- Parse.unescape ----------

  function Replacement(from: string): Option<string> {
    if from == "lt" then Some("<")
    else if from == "gt" then Some(">")
    else if from == "amp" then Some("&")
    else if from == "nbsp" then Some(" ")
    else None
  }

  // The entity at the start of s, with its length: from the ampersand to the first semicolon.
  function EntityAt(s: string): (e: Option<(string, nat)>)
    ensures e.Some? ==> |e.value.0| == 1 && 1 < e.value.1 <= |s|
  {
    var j := IndexFrom(s, ";", 1);
    if s == "" || s[0] != '&' || j < 0 then None
    else match Replacement(LowerCase(s[1..j]))
      case None => None
      case Some(to) => Some((to, j + 1))
  }

  function Unescape(s: string): string
    decreases |s|
  {
    if s == "" then ""
    else match EntityAt(s)
      case None => [s[0]] + Unescape(s[1..])
      case Some((to, n)) => to + Unescape(s[n..])
  }

  method UnescapeParse(s: string) returns (sb: string)
    ensures sb == Unescape(s)
  {
    hide Unescape, IndexFrom, EntityAt, Replacement, LowerCase;
    sb := s;
    var i := IndexFrom(sb, "&", 0);
    ghost var done: nat := 0;
    assert sb[0..] == sb;
    while i >= 0
      invariant done <= |sb| && i == IndexFrom(sb, "&", done)
      invariant Unescape(s) == sb[..done] + Unescape(sb[done..])
      decreases |sb| - done
    {
      UnescapeStep(sb, done, i);
      ghost var (to0, rest) := ReplacedAt(sb, i);
      ghost var front := sb[..i];
      var j := IndexFrom(sb, ";", i + 1);
      if j > 0 {
        var from := LowerCase(sb[i + 1..j]);
        var to := Replacement(from);
        if to.Some? {
          sb := sb[..i] + to.value + sb[j + 1..];
        }
      }
      assert sb == front + to0 + rest;
      done := i + 1;
      assert sb[..done] == front + to0 && sb[done..] == rest;
      i := IndexFrom(sb, "&", i + 1);
    }
    NoEntitiesLeft(sb, done);
  }

  lemma NoEntitiesLeft(sb: string, done: nat)
    requires done <= |sb| && IndexFrom(sb, "&", done) < 0
    ensures sb[..done] + Unescape(sb[done..]) == sb
  {
    hide IndexFrom, Unescape;
    NotThere(sb, '&', done);
    NoEntities(sb[done..], "");
    NothingToUnescape();
    assert sb[done..] + "" == sb[done..];
  }

  lemma {:induction false} NoEntities(a: string, s: string)
    requires '&' !in a
    ensures Unescape(a + s) == a + Unescape(s)
  {
    if a == "" {
      assert a + s == s;
    } else {
      NoEntities(a[1..], s);
      assert (a + s)[1..] == a[1..] + s && EntityAt(a + s) == None;
    }
  }

  lemma IndexInTail(s: string, c: char, i: nat)
    requires i < |s|
    ensures var j, k := IndexFrom(s, [c], i + 1), IndexFrom(s[i..], [c], 1);
            (j < 0 <==> k < 0) && (j >= 0 ==> i < j < |s| && k == j - i)
  {
    hide IndexFrom;
    var t, j, k := s[i..], IndexFrom(s, [c], i + 1), IndexFrom(s[i..], [c], 1);
    NotThere(s, c, i + 1);
    NotThere(t, c, 1);
    assert t[1..] == s[i + 1..];
    if j >= 0 {
      IsThere(t, c, 1, j - i);
    }
    if k >= 0 {
      IsThere(s, c, i + 1, i + k);
    }
    if j >= 0 && k >= 0 {
      assert OccursAt(t, [c], j - i) && OccursAt(s, [c], i + k);
    }
  }

  lemma IsThere(s: string, c: char, from: nat, i: nat)
    requires from <= i < |s| && s[i] == c
    ensures c in s[from..]
  {
    assert s[from..][i - from] == c;
  }

  // What the loop puts in place of the ampersand at i, and the text after it.
  function ReplacedAt(sb: string, i: nat): (r: (string, string))
    requires i < |sb|
    ensures |r.0| == 1 && |r.1| < |sb| - i
  {
    var j := IndexFrom(sb, ";", i + 1);
    if j < 0 then ([sb[i]], sb[i + 1..])
    else match Replacement(LowerCase(sb[i + 1..j]))
      case None => ([sb[i]], sb[i + 1..])
      case Some(to) => (to, sb[j + 1..])
  }

  lemma UnescapeAt(sb: string, i: nat)
    requires i < |sb| && sb[i] == '&'
    ensures Unescape(sb[i..]) == ReplacedAt(sb, i).0 + Unescape(ReplacedAt(sb, i).1)
  {
    hide Replacement, LowerCase, IndexFrom;
    var t, j := sb[i..], IndexFrom(sb, ";", i + 1);
    IndexInTail(sb, ';', i);
    assert t[1..] == sb[i + 1..];
    if j >= 0 {
      assert t[1..j - i] == sb[i + 1..j] && t[j - i + 1..] == sb[j + 1..];
    }
  }

  lemma UnescapeStep(sb: string, done: nat, i: nat)
    requires done <= |sb| && i == IndexFrom(sb, "&", done)
    ensures done <= i < |sb|
    ensures var (to, rest) := ReplacedAt(sb, i);
            sb[..done] + Unescape(sb[done..]) == sb[..i] + to + Unescape(rest)
  {
    hide Unescape, ReplacedAt, IndexFrom;
    NotThere(sb, '&', done);
    var (to, rest) := ReplacedAt(sb, i);
    NoEntities(sb[done..i], sb[i..]);
    UnescapeAt(sb, i);
    assert sb[done..] == sb[done..i] + sb[i..];
    assert sb[..done] + (sb[done..i] + (to + Unescape(rest))) == sb[..i] + to + Unescape(rest) by {
      assert sb[..done] + sb[done..i] == sb[..i];
    }
  }

  // ---------- Fit reads back what it escapes ----------

  lemma {:induction false} EscapeStarts(s: string)
    ensures Escape("") == ""
    ensures s != "" ==> Escape(s) == EscapeChar(s[0]) + Escape(s[1..])
  {
    hide Replace;
    assert Escape("") == "" by {
      ReplaceNothing("", '&', "&amp;");
      ReplaceNothing("", '<', "&lt;");
    }
    if s != "" {
      assert s == [s[0]] + s[1..];
      EscapeHead(s[0], s[1..]);
    }
  }

  lemma EntityThenText(name: string, rest: string)
    requires ';' !in name && '&' !in name && Replacement(LowerCase(name)).Some?
    ensures Unescape("&" + name + ";" + rest) == Replacement(LowerCase(name)).value + Unescape(rest)
  {
    hide LowerCase, Replacement, IndexFrom;
    var s := "&" + name + ";" + rest;
    NotThere(s, ';', 1);
    assert s[1..|name| + 1] == name && s[|name| + 1] == ';' && s[|name| + 2..] == rest;
    assert OccursAt(s, ";", |name| + 1);
    forall k | 1 <= k < |name| + 1 ensures s[k] != ';' {
      assert s[k] == name[k - 1] && name[k - 1] in name;
    }
  }

  // Parse.unescape undoes Fixture.escape on every text.
  lemma {:induction false} UnescapeUndoesEscape(s: string)
    ensures Unescape(Escape(s)) == s
  {
    hide Escape, Replace, Unescape, Replacement, LowerCase;
    EscapeStarts(s);
    if s == "" {
      NothingToUnescape();
    } else {
      var rest := Escape(s[1..]);
      UnescapeUndoesEscape(s[1..]);
      UnescapeHead(s[0], rest);
      assert s == [s[0]] + s[1..];
    }
  }

  lemma NothingToUnescape()
    ensures Unescape("") == ""
  {
  }

  lemma UnescapeHead(c: char, rest: string)
    ensures Unescape(EscapeChar(c) + rest) == [c] + Unescape(rest)
  {
    hide Unescape, Replacement, LowerCase;
    AmpAndLt();
    if c == '&' {
      EntityThenText("amp", rest);
      assert "&" + "amp" + ";" + rest == "&amp;" + rest;
    } else if c == '<' {
      EntityThenText("lt", rest);
      assert "&" + "lt" + ";" + rest == "&lt;" + rest;
    } else {
      NoEntities([c], rest);
    }
  }

  lemma AmpAndLt()
    ensures Replacement(LowerCase("amp")) == Some("&") && Replacement(LowerCase("lt")) == Some("<")
  {
    assert LowerCase("amp") == "amp" && LowerCase("lt") == "lt";
  }

  // ---------- the text of a cell ----------

  // Parse.unformat: whatever stands between an opener and the next closer is dropped, from the left.
  function Unformatted(s: string): string
    decreases |s|
  {
    if s == "" then ""
    else if s[0] != '<' then [s[0]] + Unformatted(s[1..])
    else
      var j := IndexFrom(s, ">", 1);
      if j < 0 then s else Unformatted(s[j + 1..])
  }

  method Unformat(s0: string) returns (s: string)
    ensures s == Unformatted(s0)
  {
    hide Unformatted, IndexFrom;
    s := s0;
    var i: nat := 0;
    assert s[0..] == s;
    while true
      invariant i <= |s| && Unformatted(s0) == s[..i] + Unformatted(s[i..])
      decreases |s|
    {
      var next := IndexFrom(s, "<", i);
      if next < 0 {
        NoOpeners(s, i);
        return;
      }
      UnformatStep(s, i, next);
      i := next;
      var j := IndexFrom(s, ">", i + 1);
      if j > 0 {
        s := s[..i] + s[j + 1..];
      } else {
        return;
      }
    }
  }

  lemma {:induction false} NoOpenersIn(a: string, s: string)
    requires '<' !in a
    ensures Unformatted(a + s) == a + Unformatted(s)
  {
    if a == "" {
      assert a + s == s;
    } else {
      NoOpenersIn(a[1..], s);
      assert (a + s)[1..] == a[1..] + s;
    }
  }

  lemma NoOpeners(s: string, i: nat)
    requires i <= |s| && IndexFrom(s, "<", i) < 0
    ensures s[..i] + Unformatted(s[i..]) == s
  {
    hide IndexFrom, Unformatted;
    NotThere(s, '<', i);
    NoOpenersIn(s[i..], "");
    EmptyUnformatted();
    assert s[i..] + "" == s[i..];
  }

  lemma UnformattedOpener(t: string)
    requires t != "" && t[0] == '<'
    ensures var j := IndexFrom(t, ">", 1); j < |t| && Unformatted(t) == if j < 0 then t else Unformatted(t[j + 1..])
  {
    hide IndexFrom;
  }

  lemma UnformattedAt(s: string, i: nat)
    requires i < |s| && s[i] == '<'
    ensures var j := IndexFrom(s, ">", i + 1);
            && (j >= 0 ==> i < j < |s|)
            && Unformatted(s[i..]) == if j < 0 then s[i..] else Unformatted(s[j + 1..])
  {
    hide IndexFrom, Unformatted;
    IndexInTail(s, '>', i);
    UnformattedOpener(s[i..]);
    var j, t := IndexFrom(s, ">", i + 1), s[i..];
    if j >= 0 {
      assert t[j - i + 1..] == s[j + 1..];
    }
  }

  lemma UnformatStep(s: string, i: nat, next: nat)
    requires i <= |s| && next == IndexFrom(s, "<", i)
    ensures i <= next < |s|
    ensures var j := IndexFrom(s, ">", next + 1);
            if j < 0 then s[..i] + Unformatted(s[i..]) == s
            else
              && next < j < |s|
              && var s' := s[..next] + s[j + 1..];
              && s'[..next] == s[..next] && s'[next..] == s[j + 1..]
              && s[..i] + Unformatted(s[i..]) == s'[..next] + Unformatted(s'[next..])
  {
    hide IndexFrom, Unformatted;
    NotThere(s, '<', i);
    NoOpenersIn(s[i..next], s[next..]);
    UnformattedAt(s, next);
    CutTail(s, i, next);
    Cut(s, 0, i, next);
    Assoc(s[..i], s[i..next], Unformatted(s[next..]));
    var j := IndexFrom(s, ">", next + 1);
    if j < 0 {
      CutTail(s, 0, next);
    } else {
      AroundCut(s[..next], s[j + 1..]);
    }
  }

  lemma AroundCut(a: string, b: string)
    ensures (a + b)[..|a|] == a && (a + b)[|a|..] == b
  {
  }

  // String.trim: control characters and blanks at both ends.
  function TrimStart(s: string): string {
    if s == "" || s[0] > ' ' then s else TrimStart(s[1..])
  }

  function Trim(s: string): string
    decreases |s|
  {
    var t := TrimStart(s);
    if t == "" || t[|t| - 1] > ' ' then t else (TrimIsShorter(s); Trim(t[..|t| - 1]))
  }

  lemma {:induction false} TrimIsShorter(s: string)
    ensures |TrimStart(s)| <= |s|
  {
    if s != "" && s[0] <= ' ' {
      TrimIsShorter(s[1..]);
    }
  }

  method CellText(body: string) returns (text: string)
    ensures text == Trim(Unescape(Unformatted(body)))
  {
    text := Unformat(body);
    text := UnescapeParse(text);
    text := Trim(text);
  }

  lemma {:induction false} EscapedHasNoOpener(s: string)
    ensures '<' !in Escape(s)
  {
    hide Escape, Replace;
    EscapeStarts(s);
    if s != "" {
      EscapedHasNoOpener(s[1..]);
    }
  }

  // A text written into a cell is read out of it again, but for blanks at its ends.
  lemma CellTextRoundTrip(s: string)
    ensures Trim(Unescape(Unformatted(Escape(s)))) == Trim(s)
  {
    hide Escape, Unformatted, Unescape, Trim;
    EscapedHasNoOpener(s);
    NoOpenersIn(Escape(s), "");
    EmptyUnformatted();
    assert Escape(s) + "" == Escape(s);
    UnescapeUndoesEscape(s);
  }

  lemma EmptyUnformatted()
    ensures Unformatted("") == ""
  {
  }

  // ---------- HtmlUtil ----------

  const HTML_CHARS := ["&", "<", ">"]
  const HTML_ESCAPES := ["&amp;", "&lt;", "&gt;"]

  function ReplaceAll(s: string, from: seq<string>, to: seq<string>): string
    requires |from| == |to| && forall i :: 0 <= i < |from| ==> from[i] != ""
    decreases |from|
  {
    if from == [] then s
    else ReplaceAll(Replace(s, from[0], to[0]), from[1..], to[1..])
  }

  method ReplaceStrings(value: string, originals: seq<string>, replacements: seq<string>) returns (result: string)
    requires |originals| == |replacements| && forall i :: 0 <= i < |originals| ==> originals[i] != ""
    ensures result == ReplaceAll(value, originals, replacements)
  {
    hide Replace;
    result := value;
    var i := 0;
    assert originals[0..] == originals && replacements[0..] == replacements;
    while i < |originals|
      invariant i <= |originals|
      invariant ReplaceAll(result, originals[i..], replacements[i..]) == ReplaceAll(value, originals, replacements)
    {
      assert originals[i..][1..] == originals[i + 1..] && replacements[i..][1..] == replacements[i + 1..];
      if IndexFrom(result, originals[i], 0) >= 0 {
        result := Replace(result, originals[i], replacements[i]);
      } else {
        ReplaceAbsent(result, originals[i], replacements[i]);
      }
      i := i + 1;
    }
  }

  lemma {:induction false} ReplaceAbsent(s: string, from: string, to: string)
    requires from != "" && !Contains(s, from)
    ensures Replace(s, from, to) == s
  {
    hide Contains;
    if s != "" {
      ContainsStep(s, from);
      ReplaceAbsent(s[1..], from, to);
      assert s == [s[0]] + s[1..];
    }
  }

  function EscapeHtml(s: string): string {
    Replace(Replace(Replace(s, "&", "&amp;"), "<", "&lt;"), ">", "&gt;")
  }

  function UnescapeHtml(s: string): string {
    Replace(Replace(Replace(s, "&amp;", "&"), "&lt;", "<"), "&gt;", ">")
  }

  lemma OneReplacement(s: string, f: string, fs: seq<string>, t: string, ts: seq<string>)
    requires |fs| == |ts| && f != "" && forall i :: 0 <= i < |fs| ==> fs[i] != ""
    ensures ReplaceAll(s, [f] + fs, [t] + ts) == ReplaceAll(Replace(s, f, t), fs, ts)
  {
    hide Replace;
    assert ([f] + fs)[1..] == fs && ([t] + ts)[1..] == ts;
  }

  lemma ThreeReplacements(s: string, a: string, b: string, c: string, x: string, y: string, z: string)
    requires a != "" && b != "" && c != ""
    ensures ReplaceAll(s, [a, b, c], [x, y, z]) == Replace(Replace(Replace(s, a, x), b, y), c, z)
  {
    hide Replace, ReplaceAll;
    assert [a, b, c] == [a] + [b, c] && [x, y, z] == [x] + [y, z];
    assert [b, c] == [b] + [c] && [y, z] == [y] + [z] && [c] == [c] + [] && [z] == [z] + [];
    var s1 := Replace(s, a, x);
    OneReplacement(s, a, [b, c], x, [y, z]);
    OneReplacement(s1, b, [c], y, [z]);
    OneReplacement(Replace(s1, b, y), c, [], z, []);
    NoReplacement(Replace(Replace(s1, b, y), c, z));
  }

  lemma NoReplacement(s: string)
    ensures ReplaceAll(s, [], []) == s
  {
  }

  method EscapeHtmlOf(value: string) returns (r: string)
    ensures r == EscapeHtml(value)
  {
    hide Replace, ReplaceAll;
    ThreeReplacements(value, "&", "<", ">", "&amp;", "&lt;", "&gt;");
    r := ReplaceStrings(value, HTML_CHARS, HTML_ESCAPES);
  }

  method UnescapeHtmlOf(value: string) returns (r: string)
    ensures r == UnescapeHtml(value)
  {
    hide Replace, ReplaceAll;
    ThreeReplacements(value, "&amp;", "&lt;", "&gt;", "&", "<", ">");
    r := ReplaceStrings(value, HTML_ESCAPES, HTML_CHARS);
  }

  // Each character on its own, the three special ones becoming what f says.
  function Each(s: string, amp: string, lt: string, gt: string): string {
    if s == "" then ""
    else (if s[0] == '&' then amp else if s[0] == '<' then lt else if s[0] == '>' then gt else [s[0]])
         + Each(s[1..], amp, lt, gt)
  }

  lemma {:induction false} EscapeHtmlIsEach(s: string)
    ensures EscapeHtml(s) == Each(s, "&amp;", "&lt;", "&gt;")
  {
    hide Replace;
    if s == "" {
      ReplaceNothing("", '&', "&amp;");
      ReplaceNothing("", '<', "&lt;");
      ReplaceNothing("", '>', "&gt;");
    } else {
      EscapeHtmlIsEach(s[1..]);
      assert s == [s[0]] + s[1..];
      EscapeHead(s[0], s[1..]);
      ReplaceInConcat(EscapeChar(s[0]), Escape(s[1..]), '>', "&gt;");
      ReplaceOne(s[0], '>', "&gt;");
      ReplaceNothing("&amp;", '>', "&gt;");
      ReplaceNothing("&lt;", '>', "&gt;");
    }
  }

  lemma ReplaceBehind(c: char, s: string, from: string, to: string)
    requires from != "" && !(from <= [c] + s)
    ensures Replace([c] + s, from, to) == [c] + Replace(s, from, to)
  {
    assert ([c] + s)[1..] == s;
  }

  lemma ReplaceAtStart(s: string, from: string, to: string)
    requires from != ""
    ensures Replace(from + s, from, to) == to + Replace(s, from, to)
  {
    assert (from + s)[|from|..] == s;
  }

  // An escape other than the one looked for is passed by as a whole.
  lemma PassEscape(e: string, s: string, from: string, to: string)
    requires |e| >= 1 && |from| > 1 && from[0] == '&' && '&' !in e[1..]
    requires !(from <= e + s)
    ensures Replace(e + s, from, to) == e + Replace(s, from, to)
  {
    assert e + s == [e[0]] + (e[1..] + s);
    ReplaceBehind(e[0], e[1..] + s, from, to);
    PassPlain(e[1..], s, from, to);
    assert e == [e[0]] + e[1..];
  }

  lemma {:induction false} PassPlain(a: string, s: string, from: string, to: string)
    requires |from| > 1 && from[0] == '&' && '&' !in a
    ensures Replace(a + s, from, to) == a + Replace(s, from, to)
  {
    if a == "" {
      assert a + s == s;
    } else {
      PassPlain(a[1..], s, from, to);
      assert a + s == [a[0]] + (a[1..] + s);
      ReplaceBehind(a[0], a[1..] + s, from, to);
      assert a == [a[0]] + a[1..];
    }
  }

  // First the ampersands come back: every "&amp;" in an escaped text was one.
  lemma {:induction false} FirstAmpersands(s: string)
    ensures Replace(Each(s, "&amp;", "&lt;", "&gt;"), "&amp;", "&") == Each(s, "&", "&lt;", "&gt;")
  {
    if s != "" {
      hide Replace;
      var rest := Each(s[1..], "&amp;", "&lt;", "&gt;");
      FirstAmpersands(s[1..]);
      if s[0] == '&' {
        ReplaceAtStart(rest, "&amp;", "&");
      } else if s[0] == '<' {
        assert ("&lt;" + rest)[1] == 'l';
        PassEscape("&lt;", rest, "&amp;", "&");
      } else if s[0] == '>' {
        assert ("&gt;" + rest)[1] == 'g';
        PassEscape("&gt;", rest, "&amp;", "&");
      } else {
        PassPlain([s[0]], rest, "&amp;", "&");
      }
    }
  }

  // Letters and a semicolon at the start were there before.
  lemma {:induction false} PlainStart(name: string, s: string, lt: string, gt: string)
    requires '&' !in name && '<' !in name && '>' !in name && lt != "" && gt != "" && (lt[0] == '&' || lt == "<")
    requires gt[0] == '&'
    ensures name <= Each(s, "&", lt, gt) <==> name <= s
    ensures name <= s ==> Each(s, "&", lt, gt) == name + Each(s[|name|..], "&", lt, gt)
  {
    if name != "" && s != "" {
      var t := Each(s, "&", lt, gt);
      var first := if s[0] == '&' then "&" else if s[0] == '<' then lt else if s[0] == '>' then gt else [s[0]];
      assert t == first + Each(s[1..], "&", lt, gt) && t[0] == first[0];
      if s[0] == name[0] {
        assert name == [name[0]] + name[1..] && s == [s[0]] + s[1..];
        PlainStart(name[1..], s[1..], lt, gt);
        assert t[1..] == Each(s[1..], "&", lt, gt);
        assert name <= t <==> name[1..] <= t[1..];
        assert name <= s <==> name[1..] <= s[1..];
      } else {
        assert !(name <= t) && !(name <= s);
      }
    }
  }

  lemma EachHead(c: char, s: string, amp: string, lt: string, gt: string)
    ensures Each([c] + s, amp, lt, gt)
         == (if c == '&' then amp else if c == '<' then lt else if c == '>' then gt else [c]) + Each(s, amp, lt, gt)
  {
    assert ([c] + s)[1..] == s;
  }

  lemma BehindAmpersand(name: string, u: string)
    ensures "&" + name <= "&" + u <==> name <= u
    ensures name <= u ==> "&" + u == "&" + name + u[|name|..]
  {
    assert ("&" + u)[1..] == u && ("&" + name)[1..] == name;
    if name <= u {
      assert u == name + u[|name|..];
    }
  }

  // An ampersand of the text: with the name behind it, it is replaced both before and after the
  // special characters are written as escapes; without, in neither case.
  lemma Ampersand(name: string, c: char, u: string, lt: string, gt: string, lt': string, gt': string)
    requires |name| > 0 && '&' !in name && '<' !in name && '>' !in name && (c == '<' ==> lt' == "<")
    requires (c == '>' ==> gt' == ">") && (c == '<' || c == '>')
    requires lt != "" && gt != "" && (lt[0] == '&' || lt == "<") && gt[0] == '&'
    requires var rest := if name <= u then u[|name|..] else u;
             Replace(Each(rest, "&", lt, gt), "&" + name, [c]) == Each(Replace(rest, "&" + name, [c]), "&", lt', gt')
    ensures Replace(Each("&" + u, "&", lt, gt), "&" + name, [c])
            == Each(Replace("&" + u, "&" + name, [c]), "&", lt', gt')
  {
    hide Replace, Each;
    var e, t := "&" + name, Each(u, "&", lt, gt);
    EachHead('&', u, "&", lt, gt);
    PlainStart(name, u, lt, gt);
    BehindAmpersand(name, u);
    BehindAmpersand(name, t);
    if name <= u {
      var rest := u[|name|..];
      var t' := Each(rest, "&", lt, gt);
      assert "&" + t == e + t';
      ReplaceAtStart(t', e, [c]);
      ReplaceAtStart(rest, e, [c]);
      EachHead(c, Replace(rest, e, [c]), "&", lt', gt');
    } else {
      ReplaceBehind('&', t, e, [c]);
      ReplaceBehind('&', u, e, [c]);
      EachHead('&', Replace(u, e, [c]), "&", lt', gt');
    }
  }

  // Then the openers: one that was written as an escape in the text comes back as well.
  lemma {:induction false} ThenOpeners(s: string)
    ensures Replace(Each(s, "&", "&lt;", "&gt;"), "&lt;", "<") == Each(Replace(s, "&lt;", "<"), "&", "<", "&gt;")
    decreases |s|
  {
    if s != "" {
      hide Replace, Each;
      var u := s[1..];
      var t := Each(u, "&", "&lt;", "&gt;");
      assert s == [s[0]] + u;
      assert "&" + "lt;" == "&lt;";
      ThenOpeners(u);
      if s[0] == '&' {
        if "lt;" <= u {
          ThenOpeners(u[3..]);
        }
        Ampersand("lt;", '<', u, "&lt;", "&gt;", "<", "&gt;");
      } else {
        EachHead(s[0], u, "&", "&lt;", "&gt;");
        ReplaceBehind(s[0], u, "&lt;", "<");
        EachHead(s[0], Replace(u, "&lt;", "<"), "&", "<", "&gt;");
        if s[0] == '<' {
          ReplaceAtStart(t, "&lt;", "<");
        } else if s[0] == '>' {
          assert ("&gt;" + t)[1] == 'g';
          PassEscape("&gt;", t, "&lt;", "<");
        } else {
          PassPlain([s[0]], t, "&lt;", "<");
        }
      }
    } else {
      assert Each("", "&", "<", "&gt;") == "";
    }
  }

  lemma {:induction false} ThenClosers(s: string)
    ensures Replace(Each(s, "&", "<", "&gt;"), "&gt;", ">") == Each(Replace(s, "&gt;", ">"), "&", "<", ">")
    decreases |s|
  {
    if s != "" {
      hide Replace, Each;
      var u := s[1..];
      var t := Each(u, "&", "<", "&gt;");
      assert s == [s[0]] + u;
      assert "&" + "gt;" == "&gt;";
      ThenClosers(u);
      if s[0] == '&' {
        if "gt;" <= u {
          ThenClosers(u[3..]);
        }
        Ampersand("gt;", '>', u, "<", "&gt;", "<", ">");
      } else {
        EachHead(s[0], u, "&", "<", "&gt;");
        ReplaceBehind(s[0], u, "&gt;", ">");
        EachHead(s[0], Replace(u, "&gt;", ">"), "&", "<", ">");
        if s[0] == '>' {
          ReplaceAtStart(t, "&gt;", ">");
        } else {
          PassPlain([s[0]], t, "&gt;", ">");
        }
      }
    } else {
      assert Each("", "&", "<", ">") == "";
    }
  }

  lemma {:induction false} EachNothing(s: string)
    ensures Each(s, "&", "<", ">") == s
  {
    if s != "" {
      EachNothing(s[1..]);
      assert s == [s[0]] + s[1..];
    }
  }

  // Unescaping what was escaped gives the text with its written-out escapes of '<' and '>' replaced,
  // so it gives the text back exactly when there are none.
  lemma UnescapeHtmlUndoesExactlyWhen(s: string)
    ensures UnescapeHtml(EscapeHtml(s)) == Replace(Replace(s, "&lt;", "<"), "&gt;", ">")
    ensures UnescapeHtml(EscapeHtml(s)) == s <==> !Contains(s, "&lt;") && !Contains(s, "&gt;")
  {
    hide Replace, Each, Contains;
    var w := Replace(s, "&lt;", "<");
    EscapeHtmlIsEach(s);
    FirstAmpersands(s);
    ThenOpeners(s);
    ThenClosers(w);
    EachNothing(Replace(w, "&gt;", ">"));
    ReplaceShortens(s, "&lt;", "<");
    ReplaceShortens(w, "&gt;", ">");
  }
}
