// Reading a line, a number of bytes, or everything up to a boundary from a stream
// (src/util/StreamReader.java). A byte is a character below 256; the input may deliver fewer bytes
// than were asked for.
module StreamReading {
  import opened Wrappers
  import opened Strings

  // ---------- what each way of reading takes ----------

  // The line without its end and without any carriage return, and what follows it.
  function LineOf(s: string): (r: (string, string))
    ensures |r.1| <= |s| && (s != "" ==> |r.1| < |s|)
    ensures s == "" ==> r.0 == ""
  {
    if s == "" then ("", "")
    else if s[0] == '\n' then ("", s[1..])
    else
      var (line, rest) := LineOf(s[1..]);
      (if s[0] == '\r' then line else [s[0]] + line, rest)
  }

  // A boundary is compared as signed bytes, so a boundary byte above 127 is never met.
  predicate SameByte(c: char, b: char) {
    c == b && b < 128 as char
  }

  datatype UpToResult = UpToResult(text: string, rest: string, found: bool)

  function Before(text: string, r: UpToResult): UpToResult {
    r.(text := text + r.text)
  }

  // The matcher with m bytes of the boundary matched: on a mismatch it gives them all out and
  // starts again with the byte at hand.
  function UpTo(s: string, b: string, m: nat): UpToResult
    requires m < |b|
    decreases |s|
  {
    if s == "" then UpToResult("", "", false)
    else if SameByte(s[0], b[m]) then
      if m + 1 >= |b| then UpToResult("", s[1..], true) else UpTo(s[1..], b, m + 1)
    else if m == 0 then Before([s[0]], UpTo(s[1..], b, 0))
    else if SameByte(s[0], b[0]) then Before(b[..m], UpTo(s[1..], b, 1))
    else Before(b[..m] + [s[0]], UpTo(s[1..], b, 0))
  }

  // ---------- the reader ----------

  datatype State = ReadLineState | ReadCountState | ReadUpToState | FinalState

  class StreamReader {
    var input: string  // what the stream will still deliver
    var state: State
    var output: string
    var readGoal: int
    var readStatus: nat
    var eof: bool
    var boundary: string
    var matchingBoundaryIndex: nat
    var matchedBoundaryBytes: string
    var bytesConsumed: nat

    constructor (stream: string)
      ensures input == stream && bytesConsumed == 0 && !eof
    {
      input, state, output, readGoal, readStatus, eof := stream, FinalState, "", 0, 0, false;
      boundary, matchingBoundaryIndex, matchedBoundaryBytes, bytesConsumed := "", 0, "", 0;
    }

    predicate Finished()
      reads this
    {
      state == FinalState || (state == ReadCountState && readStatus >= readGoal)
    }

    method ReadLine() returns (line: string)
      modifies this
      ensures (line, input) == LineOf(old(input))
      ensures bytesConsumed - old(bytesConsumed) == |old(input)| - |input|
      ensures eof <==> old(eof) || '\n' !in old(input)
    {
      state, output := ReadLineState, "";
      assert "" + LineOf(input).0 == LineOf(input).0;
      while !Finished()
        invariant state in {ReadLineState, FinalState}
        invariant LineOf(old(input)) == if state == FinalState then (output, input)
                                        else (output + LineOf(input).0, LineOf(input).1)
        invariant bytesConsumed - old(bytesConsumed) == |old(input)| - |input|
        invariant state == ReadLineState ==> eof == old(eof) && ('\n' in old(input) <==> '\n' in input)
        invariant state == FinalState ==> (eof <==> old(eof) || '\n' !in old(input))
        decreases |input|, state == ReadLineState
      {
        assert output + "" == output;
        assert input != "" ==>
                 output + ([input[0]] + LineOf(input[1..]).0) == output + [input[0]] + LineOf(input[1..]).0;
        if input == "" {
          state, eof := FinalState, true;
        } else {
          var b := input[0];
          input, bytesConsumed := input[1..], bytesConsumed + 1;
          if b == '\n' {
            state := FinalState;
          } else if b != '\r' {
            output := output + [b];
          }
        }
      }
      line := output;
    }

    // A read delivers at least one of the bytes asked for, but perhaps not all of them.
    method ReadBytes(count: int) returns (bytes: string)
      modifies this
      ensures old(input) == bytes + input
      ensures |bytes| == if count < 0 then 0 else if count <= |old(input)| then count else |old(input)|
      ensures bytesConsumed == old(bytesConsumed) + |bytes|
      ensures eof <==> old(eof) || count > |old(input)|
    {
      state, output, readGoal, readStatus := ReadCountState, "", count, 0;
      while !Finished()
        invariant state in {ReadCountState, FinalState} && readGoal == count
        invariant old(input) == output + input && readStatus == |output|
        invariant readStatus <= if count < 0 then 0 else count
        invariant state == FinalState ==> input == "" && readStatus < count
        invariant bytesConsumed == old(bytesConsumed) + |output|
        invariant eof <==> old(eof) || state == FinalState
        decreases |input|, state == ReadCountState
      {
        if input == "" {
          state, eof := FinalState, true;
        } else {
          var bytesRead :| 1 <= bytesRead <= readGoal - readStatus && bytesRead <= |input|;
          output, input := output + input[..bytesRead], input[bytesRead..];
          bytesConsumed, readStatus := bytesConsumed + bytesRead, readStatus + bytesRead;
        }
      }
      bytes := output;
    }

    method ReadUpTo(b: string) returns (text: string)
      requires b != ""
      modifies this
      ensures var r := UpTo(old(input), b, 0); text == r.text && input == r.rest && (eof <==> old(eof) || !r.found)
      ensures bytesConsumed - old(bytesConsumed) == |old(input)| - |input|
    {
      hide UpTo;
      boundary, matchedBoundaryBytes, matchingBoundaryIndex := b, seq(|b|, _ => '\0'), 0;
      state, output := ReadUpToState, "";
      ghost var r := UpTo(input, b, 0);
      assert Before("", r) == r;
      while !Finished()
        invariant state in {ReadUpToState, FinalState} && boundary == b
        invariant state == ReadUpToState ==> Matching(r) && eof == old(eof)
        invariant state == FinalState ==> output == r.text && input == r.rest && (eof <==> old(eof) || !r.found)
        invariant bytesConsumed - old(bytesConsumed) == |old(input)| - |input|
        decreases |input|, state == ReadUpToState
      {
        if input == "" {
          UpToEnd(boundary, matchingBoundaryIndex);
          state, eof := FinalState, true;
        } else {
          MatchByte(r);
        }
      }
      text := output;
    }

    // The bytes matched so far are those of the boundary, and r is what the whole reading yields.
    ghost predicate Matching(r: UpToResult)
      reads this
    {
      && matchingBoundaryIndex < |boundary| == |matchedBoundaryBytes|
      && matchedBoundaryBytes[..matchingBoundaryIndex] == boundary[..matchingBoundaryIndex]
      && r == Before(output, UpTo(input, boundary, matchingBoundaryIndex))
    }

    // One byte of the input, in the state that looks for the boundary.
    method MatchByte(ghost r: UpToResult)
      requires state == ReadUpToState && input != "" && Matching(r)
      modifies this
      ensures boundary == old(boundary) && eof == old(eof)
      ensures input == old(input)[1..] && bytesConsumed == old(bytesConsumed) + 1
      ensures state in {ReadUpToState, FinalState} && (state == ReadUpToState ==> Matching(r))
      ensures state == FinalState ==> output == r.text && input == r.rest && r.found
    {
      hide UpTo;
      UpToByte(input, boundary, matchingBoundaryIndex, output);
      var c := input[0];
      input, bytesConsumed := input[1..], bytesConsumed + 1;
      if SameByte(c, boundary[matchingBoundaryIndex]) {
        matchedBoundaryBytes := matchedBoundaryBytes[matchingBoundaryIndex := c];
        matchingBoundaryIndex := matchingBoundaryIndex + 1;
        if matchingBoundaryIndex >= |boundary| {
          state := FinalState;
        }
      } else if matchingBoundaryIndex == 0 {
        output := output + [c];
      } else {
        output := output + matchedBoundaryBytes[..matchingBoundaryIndex];
        matchingBoundaryIndex := 0;
        if SameByte(c, boundary[matchingBoundaryIndex]) {
          matchedBoundaryBytes := matchedBoundaryBytes[0 := c];
          matchingBoundaryIndex := 1;
        } else {
          output := output + [c];
        }
      }
    }
  }

  lemma UpToEnd(b: string, m: nat)
    requires m < |b|
    ensures forall text :: Before(text, UpTo("", b, m)) == UpToResult(text, "", false)
  {
    forall text ensures Before(text, UpTo("", b, m)) == UpToResult(text, "", false) {
      assert text + "" == text;
    }
  }

  lemma UpToByte(s: string, b: string, m: nat, output: string)
    requires s != "" && m < |b|
    ensures Before(output, UpTo(s, b, m)) ==
            if SameByte(s[0], b[m]) then
              if m + 1 >= |b| then UpToResult(output, s[1..], true) else Before(output, UpTo(s[1..], b, m + 1))
            else if m == 0 then Before(output + [s[0]], UpTo(s[1..], b, 0))
            else if SameByte(s[0], b[0]) then Before(output + b[..m], UpTo(s[1..], b, 1))
            else Before(output + b[..m] + [s[0]], UpTo(s[1..], b, 0))
  {
    BeforeBefore(output, [s[0]], UpTo(s[1..], b, 0));
    BeforeBefore(output, b[..m] + [s[0]], UpTo(s[1..], b, 0));
    assert output + (b[..m] + [s[0]]) == output + b[..m] + [s[0]];
    if |b| > 1 {
      BeforeBefore(output, b[..m], UpTo(s[1..], b, 1));
    }
    assert output + "" == output;
  }

  lemma BeforeBefore(x: string, y: string, r: UpToResult)
    ensures Before(x, Before(y, r)) == Before(x + y, r)
  {
    assert x + (y + r.text) == x + y + r.text;
  }

  // ---------- searching for the boundary ----------

  // Where b first occurs in s.
  function FirstIndexOf(s: string, b: string): (i: Option<nat>)
    ensures i.Some? ==> i.value + |b| <= |s| && s[i.value..i.value + |b|] == b
  {
    var i := IndexFrom(s, b, 0);
    if i < 0 then None else Some(i)
  }

  lemma FirstIndexIsFirst(s: string, b: string, j: nat)
    requires j + |b| <= |s| && s[j..j + |b|] == b
    ensures FirstIndexOf(s, b).Some? && FirstIndexOf(s, b).value <= j
  {
    hide IndexFrom;
    assert OccursAt(s, b, j);
  }

  // A start that is ruled out leaves the search to the rest.
  lemma FirstIndexOfTail(s: string, b: string)
    requires s != "" && !(b <= s)
    ensures FirstIndexOf(s, b) == match FirstIndexOf(s[1..], b) case None => None case Some(i) => Some(i + 1)
  {
    hide FirstIndexOf;
    var tail := s[1..];
    if FirstIndexOf(tail, b).Some? {
      var i := FirstIndexOf(tail, b).value;
      assert s[i + 1..i + 1 + |b|] == tail[i..i + |b|];
      FirstIndexIsFirst(s, b, i + 1);
    }
    if FirstIndexOf(s, b).Some? {
      var i := FirstIndexOf(s, b).value;
      assert i > 0 by {
        assert s[..|b|] == b ==> b <= s;
      }
      assert tail[i - 1..i - 1 + |b|] == s[i..i + |b|];
      FirstIndexIsFirst(tail, b, i - 1);
    }
  }

  // The length of the longest end of s that begins the boundary without completing it.
  function TrailingMatch(s: string, b: string): (n: nat)
    ensures n <= |s|
  {
    if s == "" || (|s| < |b| && s == b[..|s|]) then |s| else TrailingMatch(s[1..], b)
  }

  // What reading up to the boundary should deliver: the bytes before its first occurrence, or
  // without one everything but a boundary that has begun at the end.
  function SplitAtBoundary(s: string, b: string): UpToResult {
    match FirstIndexOf(s, b)
    case Some(i) => UpToResult(s[..i], s[i + |b|..], true)
    case None => UpToResult(s[..|s| - TrailingMatch(s, b)], "", false)
  }

  predicate Ascii(b: string) {
    forall i :: 0 <= i < |b| ==> b[i] < 128 as char
  }

  // Wherever the first byte of the boundary comes again, the rest from there on begins the
  // boundary. A boundary whose first byte does not come again is one of these.
  ghost predicate SafeBoundary(b: string) {
    forall j :: 0 < j < |b| && b[j] == b[0] ==> b[j..] <= b
  }

  // A start that the text already rules out can be skipped.
  lemma SkipOne(t: string, b: string)
    requires t != "" && b != "" && !(|b| <= |t| && t[..|b|] == b) && !(|t| < |b| && t == b[..|t|])
    ensures SplitAtBoundary(t, b) == Before([t[0]], SplitAtBoundary(t[1..], b))
  {
    var tail := t[1..];
    FirstIndexOfTail(t, b);
    match FirstIndexOf(tail, b) {
      case Some(i) =>
        assert |b| <= |t|;
        assert t[..i + 1] == [t[0]] + tail[..i] && t[i + 1 + |b|..] == tail[i + |b|..];
      case None =>
        assert t[..|t| - TrailingMatch(tail, b)] == [t[0]] + tail[..|tail| - TrailingMatch(tail, b)];
    }
  }

  lemma NothingBefore(r: UpToResult)
    ensures Before("", r) == r
  {
  }

  lemma {:induction false} SkipMany(t: string, b: string, n: nat)
    requires n <= |t| && b != ""
    requires forall j :: 0 <= j < n ==> !(t[j..] <= b) && !(b <= t[j..])
    ensures SplitAtBoundary(t, b) == Before(t[..n], SplitAtBoundary(t[n..], b))
  {
    hide SplitAtBoundary;
    if n == 0 {
      assert t[0..] == t;
      NothingBefore(SplitAtBoundary(t, b));
    } else {
      assert t[0..] == t;
      assert !(|b| <= |t| && t[..|b|] == b);
      SkipOne(t, b);
      var tail := t[1..];
      forall j | 0 <= j < n - 1 ensures !(tail[j..] <= b) && !(b <= tail[j..]) {
        assert tail[j..] == t[j + 1..];
      }
      SkipMany(tail, b, n - 1);
      assert tail[n - 1..] == t[n..];
      BeforeBefore([t[0]], tail[..n - 1], SplitAtBoundary(t[n..], b));
      assert [t[0]] + tail[..n - 1] == t[..n];
    }
  }

  // After a mismatch no start inside the matched bytes is possible.
  lemma NoStartInside(s: string, b: string, m: nat, j: nat)
    requires SafeBoundary(b) && j < m < |b| && s != "" && s[0] != b[m]
    ensures var t := b[..m] + s; !(t[j..] <= b) && !(b <= t[j..])
  {
    var t := b[..m] + s;
    var u := t[j..];
    assert u[m - j] == t[m] == s[0] && u[0] == t[j] == b[j];
    if j > 0 && b[j] == b[0] {
      assert b[j..] <= b;
      assert b[j..][m - j] == b[m] && b[m - j] == b[m];
    }
  }

  // The matcher, with m bytes of a safe boundary matched, does what it should on the whole text.
  lemma {:induction false} UpToSplits(s: string, b: string, m: nat)
    requires SafeBoundary(b) && Ascii(b) && m < |b|
    ensures UpTo(s, b, m) == SplitAtBoundary(b[..m] + s, b)
    decreases |s|
  {
    hide SplitAtBoundary, SafeBoundary;
    var t := b[..m] + s;
    if s == "" {
      assert t == b[..m];
      SplitPrefix(b, m);
    } else if s[0] == b[m] {
      assert t == b[..m + 1] + s[1..];
      if m + 1 == |b| {
        SplitWhole(b, s[1..]);
        assert b[..m + 1] == b;
      } else {
        UpToSplits(s[1..], b, m + 1);
      }
    } else {
      forall j | 0 <= j < m ensures !(t[j..] <= b) && !(b <= t[j..]) {
        NoStartInside(s, b, m, j);
      }
      if s[0] == b[0] {
        SkipMany(t, b, m);
        UpToSplits(s[1..], b, 1);
        assert t[m..] == s == b[..1] + s[1..];
      } else {
        assert t[m..] == s;
        SkipMany(t, b, m + 1);
        UpToSplits(s[1..], b, 0);
        assert t[m + 1..] == s[1..] == b[..0] + s[1..] && t[..m + 1] == b[..m] + [s[0]];
        assert m == 0 ==> b[..0] + [s[0]] == [s[0]];
      }
    }
  }

  lemma SplitPrefix(b: string, m: nat)
    requires m < |b|
    ensures SplitAtBoundary(b[..m], b) == UpToResult("", "", false)
  {
    assert FirstIndexOf(b[..m], b) == None;
  }

  lemma SplitWhole(b: string, rest: string)
    requires b != ""
    ensures SplitAtBoundary(b + rest, b) == UpToResult("", rest, true)
  {
    assert (b + rest)[..|b|] == b;
  }

  // Matching runs through a text that is the boundary's own beginning.
  lemma {:induction false} UpToRunsThrough(rest: string, b: string, m: nat, n: nat)
    requires m <= n < |b| && Ascii(b)
    ensures UpTo(b[m..n] + rest, b, m) == UpTo(rest, b, n)
    decreases n - m
  {
    if m == n {
      assert b[m..n] + rest == rest;
    } else {
      var s := b[m..n] + rest;
      assert s[0] == b[m] && s[1..] == b[m + 1..n] + rest;
      UpToRunsThrough(rest, b, m + 1, n);
    }
  }

  // The first byte from j on that is not what the boundary has at its beginning.
  lemma FirstDifference(b: string, j: nat, n: nat) returns (m: nat)
    requires j <= n < |b| && !(b[j..] <= b) && b[j..n] == b[..n - j]
    ensures n <= m < |b| && b[m] != b[m - j] && b[j..m] == b[..m - j]
    decreases |b| - n
  {
    m := n;
    assert n + 1 == |b| ==> b[j..n + 1] == b[j..];
    if b[n] == b[n - j] {
      assert b[j..n + 1] == b[j..n] + [b[n]] && b[..n + 1 - j] == b[..n - j] + [b[n - j]];
      m := FirstDifference(b, j, n + 1);
    }
  }

  lemma Shifted(b: string, j: nat, m: nat)
    requires j <= m < |b| && b[j..m] == b[..m - j]
    ensures b[..m] + b[m - j..] == b[..j] + b
  {
    assert b[..m] == b[..j] + b[..m - j];
    assert b[..m - j] + b[m - j..] == b;
  }

  lemma MismatchGivesOut(rest: string, b: string, m: nat)
    requires Ascii(b) && 0 < m < |b| && rest != "" && rest[0] != b[m]
    ensures |UpTo(rest, b, m).text| >= m
  {
  }

  // The text on which an unsafe boundary is missed: the matched bytes up to a second first byte,
  // and then the boundary itself.
  lemma UnsafeBoundaryMissed(b: string, j: nat) returns (s: string)
    requires Ascii(b) && 0 < j < |b| && b[j] == b[0] && !(b[j..] <= b)
    ensures UpTo(s, b, 0) != SplitAtBoundary(s, b)
  {
    hide UpTo;
    s := b[..j] + b;
    var m := FirstDifference(b, j, j);
    Shifted(b, j, m);
    UpToRunsThrough(b[m - j..], b, 0, m);
    assert b[0..m] == b[..m];
    MismatchGivesOut(b[m - j..], b, m);
    assert s[j..j + |b|] == b;
    FirstIndexIsFirst(s, b, j);
  }

  // Reading up to a boundary finds its first occurrence in every input exactly when the boundary
  // is safe: the matcher never goes back over bytes that it has matched.
  lemma ReadUpToIsExact(b: string)
    requires Ascii(b) && b != ""
    ensures SafeBoundary(b) <==> forall s :: UpTo(s, b, 0) == SplitAtBoundary(s, b)
  {
    if SafeBoundary(b) {
      forall s ensures UpTo(s, b, 0) == SplitAtBoundary(s, b) {
        UpToSplits(s, b, 0);
        assert b[..0] + s == s;
      }
    } else {
      var j :| 0 < j < |b| && b[j] == b[0] && !(b[j..] <= b);
      var s := UnsafeBoundaryMissed(b, j);
    }
  }
}
