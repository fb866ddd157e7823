// The bowling example: a state machine beside an array of rolls (src/eg/bowling).
module Bowling {
  import opened Wrappers

  // ---------- scoring a list of rolls ----------

  predicate IsStrike(r: seq<int>, s: nat) {
    s < |r| && r[s] == 10
  }

  predicate IsSpare(r: seq<int>, s: nat) {
    s + 1 < |r| && r[s] != 10 && r[s] + r[s + 1] == 10
  }

  // The roll a frame starts with, counting frames from 0.
  function Start(r: seq<int>, f: nat): nat {
    if f == 0 then 0
    else
      var s := Start(r, f - 1);
      s + if IsStrike(r, s) then 1 else 2
  }

  // Every roll that counts for the frame starting at s is there.
  predicate FrameFits(r: seq<int>, s: nat) {
    if IsStrike(r, s) || IsSpare(r, s) then s + 2 < |r| else s + 1 < |r|
  }

  function FrameScore(r: seq<int>, s: nat): int
    requires FrameFits(r, s)
  {
    if IsStrike(r, s) || IsSpare(r, s) then r[s] + r[s + 1] + r[s + 2] else r[s] + r[s + 1]
  }

  // None when a roll outside the list is read.
  function ScoreOf(r: seq<int>, f: int): Option<int> {
    if f <= 0 then Some(0)
    else
      var before := ScoreOf(r, f - 1);
      var s := Start(r, f - 1);
      if before.Some? && FrameFits(r, s) then Some(before.value + FrameScore(r, s)) else None
  }

  lemma {:induction false} StartsWithin(r: seq<int>, f: nat)
    ensures f <= Start(r, f) <= 2 * f
  {
    if f > 0 {
      StartsWithin(r, f - 1);
    }
  }

  // Ten frames never read outside the 21 slots, whatever they hold.
  lemma {:induction false} TenFramesFit(r: seq<int>, f: int)
    requires |r| == 21 && f <= 10
    ensures ScoreOf(r, f).Some?
  {
    if f > 0 {
      TenFramesFit(r, f - 1);
      StartsWithin(r, f - 1);
    }
  }

  // A score that is complete is not changed by later rolls.
  lemma {:induction false} ScoreIsStable(r: seq<int>, later: seq<int>, f: int)
    requires ScoreOf(r, f).Some? && r <= later
    ensures ScoreOf(later, f) == ScoreOf(r, f)
    ensures f > 0 ==> Start(later, f) == Start(r, f)
  {
    if f > 0 {
      ScoreIsStable(r, later, f - 1);
      assert f == 1 ==> Start(later, 0) == Start(r, 0);
    }
  }

  lemma {:induction false} FewerFrames(r: seq<int>, f: int, g: int)
    requires ScoreOf(r, g).Some? && f <= g
    ensures ScoreOf(r, f).Some?
    decreases g - f
  {
    if f < g {
      FewerFrames(r, f, g - 1);
    }
  }

  // No frame scores more than 30.
  lemma {:induction false} ScoreIsBounded(r: seq<int>, f: nat)
    requires ScoreOf(r, f).Some? && forall i :: 0 <= i < |r| ==> 0 <= r[i] <= 10
    ensures 0 <= ScoreOf(r, f).value <= 30 * f
  {
    if f > 0 {
      ScoreIsBounded(r, f - 1);
    }
  }

  // ---------- reading the rolls as frames ----------

  datatype Kind = Strike | Spare | Open

  // The frames that are over, and whether one ball of another has been rolled. Balls that fill up a
  // tenth frame count as further frames.
  datatype Frames = Frames(kinds: seq<Kind>, half: bool)

  function Read(r: seq<int>): Frames {
    if r == [] then Frames([], false)
    else
      var before, n := Read(r[..|r| - 1]), |r|;
      if before.half then
        Frames(before.kinds + [if n >= 2 && r[n - 2] + r[n - 1] == 10 then Spare else Open], false)
      else if r[n - 1] == 10 then Frames(before.kinds + [Strike], false)
      else Frames(before.kinds, true)
  }

  predicate Last(kinds: seq<Kind>, k: Kind) {
    kinds != [] && kinds[|kinds| - 1] == k
  }

  // Strikes followed by a spare since the last open frame.
  function Lag(kinds: seq<Kind>): nat {
    if kinds == [] || Last(kinds, Open) then 0
    else
      var before := kinds[..|kinds| - 1];
      Lag(before) + if Last(kinds, Spare) && Last(before, Strike) then 1 else 0
  }

  // The frames whose score is known: a spare waits for one more ball, a strike for two.
  function Known(d: Frames): nat {
    var v := |d.kinds|;
    if v == 0 || Last(d.kinds, Open) then v
    else if Last(d.kinds, Spare) then if d.half then v else v - 1
    else if v >= 2 && d.kinds[v - 2] == Strike then if d.half then v - 1 else v - 2
    else v - 1
  }

  function KindAt(r: seq<int>, s: nat): Kind {
    if IsStrike(r, s) then Strike else if IsSpare(r, s) then Spare else Open
  }

  lemma {:induction false} StartIsStable(r: seq<int>, p: int, f: nat)
    requires Start(r, f) <= |r|
    ensures Start(r + [p], f) == Start(r, f)
  {
    if f > 0 {
      StartIsStable(r, p, f - 1);
    }
  }

  lemma {:induction false} StartsGrow(r: seq<int>, f: nat, g: nat)
    requires f <= g
    ensures Start(r, f) + (g - f) <= Start(r, g)
    decreases g - f
  {
    if f < g {
      StartsGrow(r, f, g - 1);
    }
  }

  ghost predicate Agrees(r: seq<int>, kinds: seq<Kind>, g: nat)
    requires g < |kinds|
  {
    Start(r, g + 1) <= |r| && kinds[g] == KindAt(r, Start(r, g))
  }

  ghost predicate Follows(r: seq<int>, d: Frames) {
    && Start(r, |d.kinds|) + (if d.half then 1 else 0) == |r|
    && (d.half ==> r[|r| - 1] != 10)
    && forall g :: 0 <= g < |d.kinds| ==> Agrees(r, d.kinds, g)
  }

  lemma AgreesLater(r: seq<int>, p: int, kinds: seq<Kind>, g: nat)
    requires g < |kinds| && Agrees(r, kinds, g)
    ensures Agrees(r + [p], kinds, g)
  {
    StartsGrow(r, g, g + 1);
    StartIsStable(r, p, g + 1);
    StartIsStable(r, p, g);
  }

  // Read agrees with the scorer's own way through the rolls.
  lemma {:induction false} ReadFollowsStarts(r: seq<int>)
    ensures Follows(r, Read(r))
  {
    if r != [] {
      var before, p := r[..|r| - 1], r[|r| - 1];
      assert r == before + [p];
      ReadFollowsStarts(before);
      FollowsLater(before, p, Read(before), Read(r));
    }
  }

  lemma FollowsLater(before: seq<int>, p: int, d: Frames, d': Frames)
    requires Follows(before, d)
    requires d' == if d.half then Frames(d.kinds + [if before[|before| - 1] + p == 10 then Spare else Open], false)
                   else if p == 10 then Frames(d.kinds + [Strike], false) else Frames(d.kinds, true)
    ensures Follows(before + [p], d')
  {
    hide Agrees;
    var r, v := before + [p], |d.kinds|;
    StartIsStable(before, p, v);
    forall g | 0 <= g < |d'.kinds| ensures Agrees(r, d'.kinds, g) {
      if g < v {
        AgreesLater(before, p, d.kinds, g);
        SameKind(r, d.kinds, d'.kinds, g);
      } else {
        NewestAgrees(r, d'.kinds);
      }
    }
  }

  lemma SameKind(r: seq<int>, kinds: seq<Kind>, kinds': seq<Kind>, g: nat)
    requires g < |kinds| <= |kinds'| && kinds[g] == kinds'[g] && Agrees(r, kinds, g)
    ensures Agrees(r, kinds', g)
  {
  }

  lemma NewestAgrees(r: seq<int>, kinds: seq<Kind>)
    requires kinds != []
    requires var s := Start(r, |kinds| - 1);
             if s + 1 == |r| then r[s] == 10 && Last(kinds, Strike)
             else s + 2 == |r| && r[s] != 10 && Last(kinds, if r[s] + r[s + 1] == 10 then Spare else Open)
    ensures Agrees(r, kinds, |kinds| - 1)
  {
    var s := Start(r, |kinds| - 1);
    assert Start(r, |kinds|) == s + if IsStrike(r, s) then 1 else 2;
  }

  lemma {:induction false} KnownFramesFit(r: seq<int>, f: int)
    requires f <= Known(Read(r))
    ensures ScoreOf(r, f).Some?
  {
    hide Read;
    if f > 0 {
      KnownFramesFit(r, f - 1);
      ReadFollowsStarts(r);
      KnownFrameFits(r, f - 1, Read(r));
    }
  }

  lemma KnownFrameFits(r: seq<int>, g: nat, d: Frames)
    requires Follows(r, d) && g < Known(d)
    ensures FrameFits(r, Start(r, g))
  {
    var v := |d.kinds|;
    assert Agrees(r, d.kinds, g);
    if d.kinds[g] != Open && g + 1 < v {
      assert Agrees(r, d.kinds, g + 1);
      StartsGrow(r, g + 2, v);
    }
  }

  // The frames known are exactly those whose score reads no roll that is still to come.
  lemma KnownIsExact(r: seq<int>, f: int)
    ensures ScoreOf(r, f).Some? <==> f <= Known(Read(r))
  {
    hide Read;
    var d := Read(r);
    ReadFollowsStarts(r);
    if f <= Known(d) {
      KnownFramesFit(r, f);
    } else {
      UnknownFrameDoesNotFit(r, d);
      if ScoreOf(r, f).Some? {
        FewerFrames(r, Known(d) + 1, f);
      }
    }
  }

  lemma UnknownFrameDoesNotFit(r: seq<int>, d: Frames)
    requires Follows(r, d)
    ensures ScoreOf(r, Known(d) + 1).None?
  {
    var v, g := |d.kinds|, Known(d);
    if g < v {
      assert Agrees(r, d.kinds, g);
      if g + 1 < v {
        assert Agrees(r, d.kinds, g + 1);
      }
    }
  }

  // ---------- the state machine ----------

  datatype State =
    | FirstBallInFrame
    | SecondBallInFrame
    | GameOver
    | BallAfterSpare
    | BallAfterTenthFrameSpare
    | BallAfterFirstStrike
    | BallAfterSecondStrike

  datatype Control = Control(state: State, currentFrame: int, currentBall: int, scoreableFrame: int, gameOver: bool)

  const NEW_GAME := Control(FirstBallInFrame, 1, 1, 0, false)

  predicate LastRollWasStrike(r: seq<int>) {
    r != [] && r[|r| - 1] == 10
  }

  predicate LastRollWasSpare(r: seq<int>) {
    |r| >= 2 && r[|r| - 2] + r[|r| - 1] == 10
  }

  function IncrementFrame(c: Control): Control {
    if c.currentFrame < 10 then c.(currentFrame := c.currentFrame + 1, currentBall := 1)
    else c.(currentBall := c.currentBall + 1)
  }

  function EndGame(c: Control): Control {
    c.(state := GameOver, currentBall := 0, scoreableFrame := 10, gameOver := true)
  }

  // The control after the last roll of r.
  function Next(c: Control, r: seq<int>): Control {
    match c.state
    case FirstBallInFrame =>
      if LastRollWasStrike(r) then IncrementFrame(c.(state := BallAfterFirstStrike))
      else c.(state := SecondBallInFrame, currentBall := 2)
    case SecondBallInFrame =>
      if LastRollWasSpare(r) && c.currentFrame == 10 then c.(state := BallAfterTenthFrameSpare, currentBall := 3)
      else if LastRollWasSpare(r) then IncrementFrame(c.(state := BallAfterSpare))
      else if c.currentFrame == 10 then EndGame(c)
      else IncrementFrame(c.(state := FirstBallInFrame, scoreableFrame := c.currentFrame))
    case BallAfterSpare =>
      if LastRollWasStrike(r)
      then IncrementFrame(c.(state := BallAfterFirstStrike, scoreableFrame := c.scoreableFrame + 1))
      else c.(state := SecondBallInFrame, currentBall := 2, scoreableFrame := c.scoreableFrame + 1)
    case BallAfterTenthFrameSpare => EndGame(c)
    case BallAfterFirstStrike =>
      if LastRollWasStrike(r) then IncrementFrame(c.(state := BallAfterSecondStrike))
      else c.(state := SecondBallInFrame, currentBall := 2)
    case BallAfterSecondStrike =>
      if LastRollWasStrike(r) && c.currentFrame == 10 && c.currentBall == 3 then EndGame(c)
      else if LastRollWasStrike(r) then IncrementFrame(c.(scoreableFrame := c.scoreableFrame + 1))
      else c.(state := SecondBallInFrame, currentBall := 2, scoreableFrame := c.scoreableFrame + 1)
    case GameOver => c
  }

  // ---------- what the control says about the rolls ----------

  // Every frame from the tenth on that is over is a strike: the game goes on.
  predicate OnlyStrikesFromTenth(kinds: seq<Kind>, v: nat)
    requires v <= |kinds|
  {
    forall g :: 9 <= g < v ==> kinds[g] == Strike
  }

  predicate InState(c: Control, d: Frames) {
    var v := |d.kinds|;
    match c.state
    case FirstBallInFrame => !d.half && v <= 9 && c.currentBall == 1 && (v == 0 || Last(d.kinds, Open))
    case SecondBallInFrame => d.half && v <= 11 && c.currentBall == 2 && OnlyStrikesFromTenth(d.kinds, v)
    case BallAfterSpare => !d.half && v <= 9 && c.currentBall == 1 && Last(d.kinds, Spare)
    case BallAfterTenthFrameSpare =>
      !d.half && 10 <= v <= 12 && c.currentBall == 3 && Last(d.kinds, Spare) && OnlyStrikesFromTenth(d.kinds, v - 1)
    case BallAfterFirstStrike =>
      && !d.half && v <= 10 && c.currentBall == (if v == 10 then 2 else 1)
      && Last(d.kinds, Strike) && (v >= 2 ==> d.kinds[v - 2] != Strike)
    case BallAfterSecondStrike =>
      && !d.half && 2 <= v <= 11 && c.currentBall == (if v >= 10 then v - 8 else 1)
      && Last(d.kinds, Strike) && d.kinds[v - 2] == Strike && OnlyStrikesFromTenth(d.kinds, v)
    case GameOver => c.currentBall == 0
  }

  // While the game goes on, the frames said to be scoreable are those known, less one for each strike
  // followed by a spare since the last open frame.
  predicate Consistent(c: Control, r: seq<int>) {
    var d := Read(r);
    && InState(c, d)
    && (c.gameOver <==> c.state == GameOver)
    && if c.gameOver then c.currentFrame == 10 && c.scoreableFrame == 10 && ScoreOf(r, 10).Some?
       else
         && c.currentFrame == (if |d.kinds| < 9 then |d.kinds| + 1 else 10)
         && c.scoreableFrame == Known(d) - Lag(d.kinds)
  }

  lemma NewGameIsConsistent()
    ensures Consistent(NEW_GAME, [])
  {
  }

  lemma ReadOneMore(r: seq<int>, p: int)
    ensures Read(r + [p]) ==
              var d := Read(r);
              if d.half then Frames(d.kinds + [if r != [] && r[|r| - 1] + p == 10 then Spare else Open], false)
              else if p == 10 then Frames(d.kinds + [Strike], false)
              else Frames(d.kinds, true)
  {
    assert (r + [p])[..|r|] == r;
  }

  lemma LagOneMore(kinds: seq<Kind>, k: Kind)
    ensures Lag(kinds + [k]) == if k == Open then 0 else Lag(kinds) + if k == Spare && Last(kinds, Strike) then 1 else 0
  {
    assert (kinds + [k])[..|kinds|] == kinds;
  }

  ghost predicate Going(c: Control, d: Frames) {
    && InState(c, d) && !c.gameOver && c.state != GameOver
    && c.currentFrame == (if |d.kinds| < 9 then |d.kinds| + 1 else 10)
    && c.scoreableFrame == Known(d) - Lag(d.kinds)
  }

  // One ball: either the frame is half over, or a kind is added.
  lemma BallKeepsGoing(c: Control, d: Frames, r: seq<int>, d': Frames)
    requires Going(c, d) && r != []
    requires d' == if d.half then Frames(d.kinds + [if LastRollWasSpare(r) then Spare else Open], false)
                   else if LastRollWasStrike(r) then Frames(d.kinds + [Strike], false)
                   else Frames(d.kinds, true)
    ensures var c' := Next(c, r);
            if c'.gameOver
            then && c'.state == GameOver && c'.currentFrame == c'.scoreableFrame == 10
                 && c'.currentBall == 0 && Known(d') >= 10
            else Going(c', d')
  {
    hide Lag, LastRollWasSpare, LastRollWasStrike;
    if d'.kinds != d.kinds {
      LagOneMore(d.kinds, d'.kinds[|d.kinds|]);
    }
  }

  // Every roll keeps the control consistent with the rolls.
  lemma RollKeepsConsistent(c: Control, r: seq<int>, p: int)
    requires Consistent(c, r)
    ensures Consistent(Next(c, r + [p]), r + [p])
  {
    hide Read, ScoreOf, Lag, Known;
    var d, all := Read(r), r + [p];
    ReadOneMore(r, p);
    if c.gameOver {
      ScoreIsStable(r, all, 10);
    } else {
      ReadFollowsStarts(r);
      BallKeepsGoing(c, d, all, Read(all));
      if Next(c, all).gameOver {
        KnownFramesFit(all, 10);
      }
    }
  }

  // ---------- what holds in every run ----------

  // The score of a scoreable frame reads only balls already rolled: later ones do not change it, and
  // with 0 to 10 pins a ball it is at most 30 a frame.
  lemma ScoreableIsFinal(c: Control, r: seq<int>, later: seq<int>, f: int)
    requires Consistent(c, r) && r <= later && 0 <= f <= c.scoreableFrame
    ensures ScoreOf(r, f).Some? && ScoreOf(later, f) == ScoreOf(r, f)
    ensures (forall i :: 0 <= i < |r| ==> 0 <= r[i] <= 10) ==> 0 <= ScoreOf(r, f).value <= 30 * f
  {
    hide Read, ScoreOf;
    if c.gameOver {
      FewerFrames(r, f, 10);
    } else {
      KnownIsExact(r, f);
    }
    ScoreIsStable(r, later, f);
    if forall i :: 0 <= i < |r| ==> 0 <= r[i] <= 10 {
      ScoreIsBounded(r, f);
    }
  }

  // While the game goes on, a frame more could be scored exactly when a strike was followed by a
  // spare since the last open frame.
  lemma ScoreableLags(c: Control, r: seq<int>)
    requires Consistent(c, r) && !c.gameOver
    ensures ScoreOf(r, c.scoreableFrame + 1).Some? <==> Lag(Read(r).kinds) > 0
  {
    hide Read, ScoreOf;
    KnownIsExact(r, c.scoreableFrame + 1);
  }

  // A strike in the tenth frame whose other two balls are a strike and no strike, or make a spare.
  predicate Overlooked(r: seq<int>) {
    var s := Start(r, 9);
    && s + 2 < |r| && r[s] == 10
    && if r[s + 1] == 10 then r[s + 2] != 10 else r[s + 1] + r[s + 2] == 10
  }

  // The ball that completes the tenth frame ends the game, but for the overlooked endings; and the
  // game never ends before.
  lemma GameEnds(c: Control, r: seq<int>, p: int)
    requires Consistent(c, r)
    ensures c.gameOver ==> ScoreOf(r, 10).Some?
    ensures ScoreOf(r, 10).None? && ScoreOf(r + [p], 10).Some? ==>
              (Next(c, r + [p]).gameOver <==> !Overlooked(r + [p]))
  {
    hide Read, ScoreOf, Lag;
    var all := r + [p];
    if ScoreOf(r, 10).None? && ScoreOf(all, 10).Some? {
      var d, d' := Read(r), Read(all);
      KnownIsExact(r, 10);
      KnownIsExact(all, 10);
      ReadOneMore(r, p);
      ReadFollowsStarts(r);
      ReadFollowsStarts(all);
      assert |d'.kinds| >= 10;
      TenthFrame(all, d');
    }
  }

  lemma TenthFrame(r: seq<int>, d: Frames)
    requires Follows(r, d) && |d.kinds| >= 10
    ensures d.kinds[9] == KindAt(r, Start(r, 9))
    ensures |d.kinds| >= 11 ==> d.kinds[10] == KindAt(r, Start(r, 10))
    ensures |d.kinds| >= 12 ==> d.kinds[11] == KindAt(r, Start(r, 11))
    ensures Start(r, 10) == Start(r, 9) + (if IsStrike(r, Start(r, 9)) then 1 else 2)
    ensures Start(r, 11) == Start(r, 10) + (if IsStrike(r, Start(r, 10)) then 1 else 2)
    ensures Start(r, 12) == Start(r, 11) + (if IsStrike(r, Start(r, 11)) then 1 else 2)
  {
    assert Agrees(r, d.kinds, 9);
    if |d.kinds| >= 11 { assert Agrees(r, d.kinds, 10); }
    if |d.kinds| >= 12 { assert Agrees(r, d.kinds, 11); }
  }

  // ---------- the scorer ----------

  const SLOTS := 21

  class BowlingScorer {
    const rolls: array<int>
    var rollNumber: nat

    ghost predicate Valid()
      reads this, rolls
    {
      rolls.Length == SLOTS && forall i :: rollNumber <= i < SLOTS ==> rolls[i] == 0
    }

    // The balls rolled; the roll that found no slot is not among them.
    ghost function Made(): (r: seq<int>)
      requires Valid()
      reads this, rolls
      ensures r <= rolls[..]
    {
      rolls[..if rollNumber < SLOTS then rollNumber else SLOTS]
    }

    constructor ()
      ensures Valid() && fresh(rolls) && Made() == []
    {
      rolls := new int[SLOTS](i => 0);
      rollNumber := 0;
    }

    // The index is counted up even when there is no slot for the roll.
    method Roll(pins: int) returns (ok: bool)
      requires Valid()
      modifies this, rolls
      ensures Valid() && rollNumber == old(rollNumber) + 1
      ensures ok <==> old(|Made()|) < SLOTS
      ensures Made() == if ok then old(Made()) + [pins] else old(Made())
    {
      var slot := rollNumber;
      rollNumber := rollNumber + 1;
      ok := slot < rolls.Length;
      if ok {
        rolls[slot] := pins;
      }
    }

    // None is the exception for a roll outside the array.
    method Score(frame: int) returns (score: Option<int>)
      requires Valid()
      ensures score == ScoreOf(rolls[..], frame)
      ensures frame <= 10 ==> score.Some?
    {
      hide ScoreOf, Start;
      var total, roll, f := 0, 0, 0;
      ghost var r := rolls[..];
      NoFrames(r, 0);
      if frame <= 0 {
        NoFrames(r, frame);
      }
      if frame <= 10 {
        TenFramesFit(r, frame);
      }
      while f < frame
        invariant 0 <= f && (frame <= 0 ==> f == 0) && (frame > 0 ==> f <= frame)
        invariant roll == Start(r, f) && ScoreOf(r, f) == Some(total)
      {
        if !Fits(roll) {
          NextFrame(r, f, total);
          MissingFrame(r, f + 1, frame);
          return None;
        }
        ghost var s, before := roll, total;
        if rolls[roll] == 10 {
          total := total + 10 + (rolls[roll + 1] + rolls[roll + 2]);
          roll := roll + 1;
        } else if rolls[roll] + rolls[roll + 1] == 10 {
          total := total + 10 + rolls[roll + 2];
          roll := roll + 2;
        } else {
          total := total + (rolls[roll] + rolls[roll + 1]);
          roll := roll + 2;
        }
        assert total == before + FrameScore(r, s) && roll == s + (if IsStrike(r, s) then 1 else 2);
        NextFrame(r, f, before);
        f := f + 1;
      }
      return Some(total);
    }

    // Every index the frame reads is in the array.
    function Fits(roll: nat): (fits: bool)
      requires Valid()
      reads this, rolls
      ensures fits <==> FrameFits(rolls[..], roll)
    {
      && roll < rolls.Length
      && (if rolls[roll] == 10 then roll + 2 < rolls.Length
          else roll + 1 < rolls.Length && (rolls[roll] + rolls[roll + 1] == 10 ==> roll + 2 < rolls.Length))
    }

    predicate LastWasStrike()
      requires Valid() && 0 < rollNumber <= SLOTS
      reads this, rolls
      ensures LastWasStrike() <==> LastRollWasStrike(Made())
    {
      rolls[rollNumber - 1] == 10
    }

    predicate LastWasSpare()
      requires Valid() && 1 < rollNumber <= SLOTS
      reads this, rolls
      ensures LastWasSpare() <==> LastRollWasSpare(Made())
    {
      rolls[rollNumber - 2] + rolls[rollNumber - 1] == 10
    }
  }

  lemma NoFrames(r: seq<int>, f: int)
    requires f <= 0
    ensures ScoreOf(r, f) == Some(0) && Start(r, 0) == 0
  {
  }

  lemma NextFrame(r: seq<int>, f: nat, total: int)
    requires ScoreOf(r, f) == Some(total)
    ensures ScoreOf(r, f + 1)
         == if FrameFits(r, Start(r, f)) then Some(total + FrameScore(r, Start(r, f))) else None
    ensures Start(r, f + 1) == Start(r, f) + if IsStrike(r, Start(r, f)) then 1 else 2
  {
  }

  lemma MissingFrame(r: seq<int>, f: int, g: int)
    requires ScoreOf(r, f).None? && f <= g
    ensures ScoreOf(r, g).None?
  {
    if ScoreOf(r, g).Some? {
      FewerFrames(r, f, g);
    }
  }

  // ---------- the game ----------

  class BowlingGame {
    var currentFrame: int
    var currentBall: int
    var scoreableFrame: int
    var gameOver: bool
    var state: State
    const scorer: BowlingScorer

    ghost function Now(): Control
      reads this
    {
      Control(state, currentFrame, currentBall, scoreableFrame, gameOver)
    }

    ghost predicate Valid()
      reads this, scorer, scorer.rolls
    {
      scorer.Valid() && Consistent(Now(), scorer.Made())
    }

    constructor ()
      ensures Valid() && scorer.Made() == [] && Now() == NEW_GAME
      ensures fresh(scorer) && fresh(scorer.rolls)
    {
      scorer := new BowlingScorer();
      currentFrame, currentBall, scoreableFrame, gameOver, state := 1, 1, 0, false, FirstBallInFrame;
      new;
      NewGameIsConsistent();
    }

    // Any number of pins is taken; the 22nd roll is an error that changes nothing but the roll count.
    method Roll(pins: int) returns (ok: bool)
      requires Valid()
      modifies this, scorer, scorer.rolls
      ensures Valid()
      ensures ok <==> old(|scorer.Made()|) < SLOTS
      ensures scorer.Made() == if ok then old(scorer.Made()) + [pins] else old(scorer.Made())
      ensures Now() == if ok then Next(old(Now()), scorer.Made()) else old(Now())
    {
      hide Consistent, Next;
      ghost var c, r := Now(), scorer.Made();
      ok := scorer.Roll(pins);
      if ok {
        RollKeepsConsistent(c, r, pins);
        if state == SecondBallInFrame {
          SecondBallHasFirst(c, r);
        }
        ChangeState();
      }
    }

    method ChangeState()
      requires scorer.Valid() && 0 < scorer.rollNumber <= SLOTS
      requires state == SecondBallInFrame ==> scorer.rollNumber > 1
      modifies this
      ensures Now() == Next(old(Now()), scorer.Made())
    {
      match state
      case FirstBallInFrame => FirstBall();
      case SecondBallInFrame => SecondBall();
      case BallAfterSpare => AfterSpare();
      case BallAfterTenthFrameSpare => EndTheGame();
      case BallAfterFirstStrike => AfterFirstStrike();
      case BallAfterSecondStrike => AfterSecondStrike();
      case GameOver =>
    }

    method FirstBall()
      requires scorer.Valid() && 0 < scorer.rollNumber <= SLOTS && state == FirstBallInFrame
      modifies this
      ensures Now() == Next(old(Now()), scorer.Made())
    {
      if scorer.LastWasStrike() {
        state := BallAfterFirstStrike;
        IncrementTheFrame();
      } else {
        state := SecondBallInFrame;
        currentBall := 2;
      }
    }

    method SecondBall()
      requires scorer.Valid() && 1 < scorer.rollNumber <= SLOTS && state == SecondBallInFrame
      modifies this
      ensures Now() == Next(old(Now()), scorer.Made())
    {
      if scorer.LastWasSpare() && currentFrame == 10 {
        state := BallAfterTenthFrameSpare;
        currentBall := 3;
      } else if scorer.LastWasSpare() {
        state := BallAfterSpare;
        IncrementTheFrame();
      } else if currentFrame == 10 {
        EndTheGame();
      } else {
        state := FirstBallInFrame;
        scoreableFrame := currentFrame;
        IncrementTheFrame();
      }
    }

    method AfterSpare()
      requires scorer.Valid() && 0 < scorer.rollNumber <= SLOTS && state == BallAfterSpare
      modifies this
      ensures Now() == Next(old(Now()), scorer.Made())
    {
      if scorer.LastWasStrike() {
        state := BallAfterFirstStrike;
        scoreableFrame := scoreableFrame + 1;
        IncrementTheFrame();
      } else {
        state := SecondBallInFrame;
        currentBall := 2;
        scoreableFrame := scoreableFrame + 1;
      }
    }

    method AfterFirstStrike()
      requires scorer.Valid() && 0 < scorer.rollNumber <= SLOTS && state == BallAfterFirstStrike
      modifies this
      ensures Now() == Next(old(Now()), scorer.Made())
    {
      if scorer.LastWasStrike() {
        state := BallAfterSecondStrike;
        IncrementTheFrame();
      } else {
        state := SecondBallInFrame;
        currentBall := 2;
      }
    }

    method AfterSecondStrike()
      requires scorer.Valid() && 0 < scorer.rollNumber <= SLOTS && state == BallAfterSecondStrike
      modifies this
      ensures Now() == Next(old(Now()), scorer.Made())
    {
      if scorer.LastWasStrike() && currentFrame == 10 && currentBall == 3 {
        EndTheGame();
      } else if scorer.LastWasStrike() {
        IncrementTheFrame();
        scoreableFrame := scoreableFrame + 1;
      } else {
        state := SecondBallInFrame;
        currentBall := 2;
        scoreableFrame := scoreableFrame + 1;
      }
    }

    method EndTheGame()
      modifies this
      ensures Now() == EndGame(old(Now()))
    {
      state := GameOver;
      currentBall := 0;
      scoreableFrame := 10;
      gameOver := true;
    }

    method IncrementTheFrame()
      modifies this
      ensures Now() == IncrementFrame(old(Now()))
    {
      if currentFrame < 10 {
        currentFrame := currentFrame + 1;
        currentBall := 1;
      } else {
        currentBall := currentBall + 1;
      }
    }

    method Score(frame: int) returns (score: Option<int>)
      requires Valid()
      ensures score == ScoreOf(scorer.rolls[..], frame)
      ensures 0 <= frame <= scoreableFrame ==> score.Some? && score == ScoreOf(scorer.Made(), frame)
    {
      score := scorer.Score(frame);
      if 0 <= frame <= scoreableFrame {
        ScoreableIsFinal(Now(), scorer.Made(), scorer.rolls[..], frame);
      }
    }

    // The two ways to ask whether the game is over agree.
    method AskWhetherOver() returns (byPosition: bool, byFlag: bool)
      requires Valid()
      ensures byPosition == byFlag == (state == GameOver)
    {
      ReadFollowsStarts(scorer.Made());
      byPosition := currentFrame == 10 && currentBall == 0;
      byFlag := gameOver;
    }
  }

  lemma SecondBallHasFirst(c: Control, r: seq<int>)
    requires Consistent(c, r) && c.state == SecondBallInFrame
    ensures r != []
  {
  }

  // Any rolls at all, then any more that fit: what the first let us score stands.
  method ScoreTwice(game: BowlingGame, more: seq<int>, frame: int) returns (first: Option<int>, second: Option<int>)
    requires game.Valid() && 0 <= frame <= game.scoreableFrame
    modifies game, game.scorer, game.scorer.rolls
    ensures game.Valid() && first.Some? && first == second
  {
    hide Consistent;
    first := game.Score(frame);
    ghost var c, r := game.Now(), game.scorer.Made();
    var i := 0;
    while i < |more|
      invariant game.Valid() && i <= |more|
      invariant r <= game.scorer.Made()
    {
      var ok := game.Roll(more[i]);
      i := i + 1;
    }
    ScoreableIsFinal(c, r, game.scorer.rolls[..], frame);
    second := game.scorer.Score(frame);
  }

  method NineEmptyFrames() returns (game: BowlingGame)
    ensures game.Valid() && fresh(game) && fresh(game.scorer) && fresh(game.scorer.rolls)
    ensures game.Now() == Control(FirstBallInFrame, 10, 1, 9, false) && |game.scorer.Made()| == 18
  {
    hide Consistent;
    game := new BowlingGame();
    var frame := 1;
    while frame < 10
      invariant 1 <= frame <= 10 && game.Valid() && fresh(game) && fresh(game.scorer) && fresh(game.scorer.rolls)
      invariant game.Now() == Control(FirstBallInFrame, frame, 1, frame - 1, false)
      invariant |game.scorer.Made()| == 2 * (frame - 1)
    {
      var first := game.Roll(0);
      var second := game.Roll(0);
      frame := frame + 1;
    }
  }

  // After nine frames without a pin, strike, strike and 3: the slots are full and the score of the tenth
  // frame is known, but the game does not notice that it is over.
  method OverlookTheEnd() returns (game: BowlingGame)
    ensures game.Valid() && |game.scorer.Made()| == SLOTS && ScoreOf(game.scorer.Made(), 10).Some?
    ensures !game.gameOver && game.state == SecondBallInFrame
  {
    hide Consistent, ScoreOf;
    game := NineEmptyFrames();
    var first := game.Roll(10);
    var second := game.Roll(10);
    var third := game.Roll(3);
    TenFramesFit(game.scorer.Made(), 10);
  }
}
