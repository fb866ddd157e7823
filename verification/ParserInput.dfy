// The parser's place in its chunks
// (extra/lesscss/less-rhino-1.7.0.js, sync and skipWhitespace in the parser).
module ParserInput {
  import opened Wrappers
  import opened Sequences

  predicate IsSpace(c: char) {
    c == ' ' || c == '\n' || c == '\t' || c == '\r'
  }

  // The first place from i on that is not white space.
  function SpaceEnd(input: string, i: nat): (k: nat)
    requires i <= |input|
    ensures i <= k <= |input|
    decreases |input| - i
  {
    if i < |input| && IsSpace(input[i]) then SpaceEnd(input, i + 1) else i
  }

  lemma {:induction false} SpaceEndIsFirst(input: string, i: nat)
    requires i <= |input|
    ensures forall k :: i <= k < SpaceEnd(input, i) ==> IsSpace(input[k])
    ensures SpaceEnd(input, i) < |input| ==> !IsSpace(input[SpaceEnd(input, i)])
    decreases |input| - i
  {
    if i < |input| && IsSpace(input[i]) {
      SpaceEndIsFirst(input, i + 1);
    }
  }

  lemma OneSpace(input: string, i: nat)
    requires i < |input|
    ensures SpaceEnd(input, i) == if IsSpace(input[i]) then SpaceEnd(input, i + 1) else i
  {
  }

  // The three characters that a combinator takes for white space.
  predicate IsBlank(c: char) {
    c == ' ' || c == '\n' || c == '\t'
  }

  function BlankEnd(input: string, i: nat): (k: nat)
    requires i <= |input|
    ensures i <= k <= |input|
    decreases |input| - i
  {
    if i < |input| && IsBlank(input[i]) then BlankEnd(input, i + 1) else i
  }

  lemma OneBlank(input: string, i: nat)
    requires i <= |input|
    ensures BlankEnd(input, i) == if i < |input| && IsBlank(input[i]) then BlankEnd(input, i + 1) else i
  {
  }

  predicate CombinatorAt(input: string, i: nat) {
    i < |input| && input[i] in {'>', '+', '~', '|', '^'}
  }

  lemma NoMoreText(input: string)
    ensures SpaceEnd(input, |input|) == |input|
  {
  }

  lemma RestOfSlice(s: string, a: nat, b: nat, c: nat)
    requires a <= c <= b <= |s|
    ensures s[a..b][c - a..] == s[c..b]
  {
  }

  // Where chunk j ends.
  function EndOf(chunks: seq<string>, j: nat): nat
    requires j < |chunks|
  {
    |Concat(chunks[..j + 1])|
  }

  lemma {:induction false} ChunksInText(chunks: seq<string>, j: nat)
    requires j < |chunks|
    ensures EndOf(chunks, j) <= |Concat(chunks)|
    ensures j + 1 < |chunks| ==>
              && EndOf(chunks, j) + |chunks[j + 1]| == EndOf(chunks, j + 1) <= |Concat(chunks)|
              && chunks[j + 1] == Concat(chunks)[EndOf(chunks, j)..EndOf(chunks, j + 1)]
    ensures j + 1 == |chunks| ==> EndOf(chunks, j) == |Concat(chunks)|
    decreases |chunks| - j
  {
    FrontOfConcat(chunks, j + 1);
    if j + 1 < |chunks| {
      FrontOfConcat(chunks, j + 2);
      assert chunks[..j + 2] == chunks[..j + 1] + [chunks[j + 1]];
      ConcatAppend(chunks[..j + 1], chunks[j + 1]);
    } else {
      assert chunks[..j + 1] == chunks;
    }
  }

  lemma {:induction false} FrontOfConcat(chunks: seq<string>, n: nat)
    requires n <= |chunks|
    ensures Concat(chunks[..n]) <= Concat(chunks)
  {
    if n == |chunks| {
      assert chunks[..n] == chunks;
    } else {
      FrontOfConcat(chunks[..|chunks| - 1], n);
      assert chunks[..|chunks| - 1][..n] == chunks[..n];
      var last := chunks[|chunks| - 1];
      assert chunks == chunks[..|chunks| - 1] + [last];
      ConcatAppend(chunks[..|chunks| - 1], last);
    }
  }

  datatype Saved = Saved(current: string, i: nat, j: nat)

  class Parser {
    const input: string
    const chunks: seq<string>
    var i: nat
    var j: nat
    var current: string
    var currentPos: nat
    var saveStack: seq<Saved>

    // The current text runs from currentPos to the end of chunk j, and the parser stands in it.
    ghost predicate Valid()
      reads this
    {
      && Concat(chunks) == input && (forall n :: 0 <= n < |chunks| ==> chunks[n] != "")
      && j < |chunks| && currentPos <= i <= EndOf(chunks, j) <= |input|
      && current == input[currentPos..EndOf(chunks, j)]
    }

    constructor (chunks: seq<string>)
      requires chunks != [] && forall n :: 0 <= n < |chunks| ==> chunks[n] != ""
      ensures Valid() && this.chunks == chunks && input == Concat(chunks)
      ensures i == currentPos == 0 && saveStack == []
    {
      input, this.chunks := Concat(chunks), chunks;
      i, j, current, currentPos, saveStack := 0, 0, chunks[0], 0, [];
      new;
      assert chunks[..1] == [chunks[0]];
      ConcatAppend([], chunks[0]);
      assert [] + [chunks[0]] == [chunks[0]];
      ChunksInText(chunks, 0);
      FrontOfConcat(chunks, 1);
    }

    // A saved place that can be gone back to.
    ghost predicate Restorable(s: Saved)
      reads this
    {
      s.j < |chunks| && s.i <= EndOf(chunks, s.j) <= |input| && s.current == input[s.i..EndOf(chunks, s.j)]
    }

    // The combinator of a selector, which moves the place alone; None stands for the combinator null.
    method Combinator() returns (value: Option<string>)
      requires Valid()
      modifies this`i
      ensures !CombinatorAt(input, old(i)) ==>
                i == old(i) && value == if old(i) > 0 && IsBlank(input[old(i) - 1]) then Some(" ") else None
      ensures CombinatorAt(input, old(i)) ==>
                var twice := old(i) + 1 < |input| && input[old(i) + 1] == '^';
                && value == Some(if twice then "^^" else [input[old(i)]])
                && i == BlankEnd(input, old(i) + if twice then 2 else 1)
      ensures Valid() <==> i <= EndOf(chunks, j)
    {
      hide EndOf, Concat, BlankEnd;
      if CombinatorAt(input, i) {
        value := Some([input[i]]);
        i := i + 1;
        if i < |input| && input[i] == '^' {
          value := Some("^^");
          i := i + 1;
        }
        ghost var from := i;
        while i < |input| && IsBlank(input[i])
          invariant from <= i <= |input| && BlankEnd(input, from) == BlankEnd(input, i)
        {
          OneBlank(input, i);
          i := i + 1;
        }
        OneBlank(input, i);
      } else if i > 0 && IsBlank(input[i - 1]) {
        value := Some(" ");
      } else {
        value := None;
      }
    }

    // Saves the place. The text up to it is not cut off, so this is in order only in a parser that
    // stands where its current text starts.
    method Save()
      requires Valid()
      modifies this`currentPos, this`saveStack
      ensures currentPos == i && (Valid() <==> i == old(currentPos))
      ensures saveStack == old(saveStack) + [Saved(current, i, j)]
      ensures Restorable(saveStack[|saveStack| - 1]) <==> i == old(currentPos)
    {
      currentPos := i;
      saveStack := saveStack + [Saved(current, i, j)];
      assert |current| == EndOf(chunks, j) - old(currentPos);
    }

    // Goes back to the place saved last, from wherever the parser has come.
    method Restore()
      requires saveStack != [] && Restorable(saveStack[|saveStack| - 1])
      requires Concat(chunks) == input && forall n :: 0 <= n < |chunks| ==> chunks[n] != ""
      modifies this
      ensures Valid() && saveStack == old(saveStack)[..|old(saveStack)| - 1]
      ensures Saved(current, i, j) == old(saveStack)[|old(saveStack)| - 1] && currentPos == i
    {
      var state := saveStack[|saveStack| - 1];
      saveStack := saveStack[..|saveStack| - 1];
      current := state.current;
      currentPos, i := state.i, state.i;
      j := state.j;
    }

    // Cuts off what has been read.
    method Sync()
      requires Valid()
      modifies this`current, this`currentPos
      ensures Valid() && currentPos == i == old(i) && j == old(j)
    {
      if i > currentPos {
        current := current[i - currentPos..];
        currentPos := i;
      }
    }

    // Moves on by what was matched and by the white space after it, into the next chunk if need be.
    method SkipWhitespace(length: nat) returns (changed: bool)
      requires Valid() && i + length <= EndOf(chunks, j)
      modifies this
      ensures Valid() && i == currentPos == SpaceEnd(input, old(i) + length) && saveStack == old(saveStack)
      ensures j >= old(j) && (current == "" ==> i == |input|)
      ensures changed <==> i != old(i) || j != old(j)
      decreases |chunks| - j
    {
      hide Concat, EndOf, SpaceEnd;
      var oldi, oldj := i, j;
      var curr := i - currentPos;
      var endIndex := i + |current| - curr;
      i := i + length;
      ghost var from := i;
      ChunksInText(chunks, j);
      while i < endIndex
        invariant saveStack == old(saveStack) && j == oldj && current == old(current) && currentPos == old(currentPos)
        invariant from <= i <= endIndex == EndOf(chunks, j)
        invariant SpaceEnd(input, from) == SpaceEnd(input, i)
      {
        OneSpace(input, i);
        if input[i] > ' ' {
          break;
        }
        if !IsSpace(input[i]) {
          break;
        }
        i := i + 1;
      }
      NoMoreText(input);
      RestOfSlice(input, currentPos, endIndex, i);
      current := current[i - currentPos..];
      currentPos := i;
      if |current| == 0 && j < |chunks| - 1 {
        j := j + 1;
        current := chunks[j];
        ChunksInText(chunks, j);
        var again := SkipWhitespace(0);
        return true;
      }
      return oldi != i || oldj != j;
    }
  }

  // A place saved right behind a combinator: the current text still starts before it, so the place cannot
  // be gone back to.
  method SaveBehindCombinator() returns (p: Parser)
    ensures p.i == 1 && p.current == ">a" && p.currentPos == 1 && !p.Valid()
    ensures |p.saveStack| == 1 && !p.Restorable(p.saveStack[0])
  {
    hide Concat, EndOf, BlankEnd;
    OneChunk();
    OneBlank(">a", 1);
    p := new Parser([">a"]);
    var value := p.Combinator();
    p.Save();
  }

  lemma OneChunk()
    ensures Concat([">a"]) == ">a" && EndOf([">a"], 0) == 2 && ">a"[0..2] == ">a"
  {
    assert Concat([">a"][1..]) == "" && [">a"][..1] == [">a"];
  }
}
