// The queue that runs the blocks of a Jasmine spec one after another
// (extra/jasmine-1.3.1/jasmine.js, jasmine.Queue and Spec.addBeforesAndAftersToQueue).
module JasmineQueue {
  import opened Sequences

  // What a block does when it is executed: it inserts blocks behind itself and adds blocks to the end
  // of the queue, the first `early` and `earlyAdds` of them before execute returns, and completes before
  // execute returns or later. A block that completes at once has inserted and added all it will. A
  // waiting block that times out sets abort.
  datatype Block = Block(id: int, inserts: seq<Entry>, early: nat, adds: seq<Entry>, earlyAdds: nat, sync: bool,
                         aborts: bool)

  // A block in the queue, with the flag that makes it run in spite of an abort.
  datatype Entry = Entry(block: Block, ensured: bool)

  function EarlyInserts(b: Block): (n: nat)
    ensures n <= |b.inserts|
  {
    if b.sync || b.early > |b.inserts| then |b.inserts| else b.early
  }

  function EarlyAdds(b: Block): (n: nat)
    ensures n <= |b.adds|
  {
    if b.sync || b.earlyAdds > |b.adds| then |b.adds| else b.earlyAdds
  }

  // ---------- what is to run ----------

  // The tree of inserted blocks in pre-order: a block, what it inserts, then the rest of the queue.
  function Preorder(queue: seq<Entry>): seq<Entry> {
    if queue == [] then [] else PreorderOf(queue[0]) + Preorder(queue[1..])
  }

  function PreorderOf(e: Entry): seq<Entry> {
    [e] + Preorder(e.block.inserts)
  }

  function Size(queue: seq<Entry>): nat {
    if queue == [] then 0 else SizeOf(queue[0]) + Size(queue[1..])
  }

  function SizeOf(e: Entry): nat {
    1 + Size(e.block.inserts) + Size(e.block.adds)
  }

  lemma {:induction false} SizeConcat(a: seq<Entry>, b: seq<Entry>)
    ensures Size(a + b) == Size(a) + Size(b)
  {
    if a == [] {
      assert a + b == b;
    } else {
      SizeConcat(a[1..], b);
      assert (a + b)[0] == a[0] && (a + b)[1..] == a[1..] + b;
    }
  }

  // The queue once its first block has run.
  function After(e: Entry, rest: seq<Entry>): seq<Entry> {
    e.block.inserts + rest + e.block.adds
  }

  lemma AfterIsSmaller(e: Entry, rest: seq<Entry>)
    ensures Size(After(e, rest)) < Size([e] + rest)
  {
    SizeConcat(e.block.inserts + rest, e.block.adds);
    SizeConcat(e.block.inserts, rest);
    assert ([e] + rest)[1..] == rest;
  }

  // The blocks in the order in which the queue comes to them.
  function Schedule(queue: seq<Entry>): seq<Entry>
    decreases Size(queue)
  {
    if queue == [] then []
    else
      AfterIsSmaller(queue[0], queue[1..]);
      assert queue == [queue[0]] + queue[1..];
      [queue[0]] + Schedule(After(queue[0], queue[1..]))
  }

  lemma ScheduleStep(e: Entry, rest: seq<Entry>)
    ensures Schedule([e] + rest) == [e] + Schedule(After(e, rest))
  {
    var queue := [e] + rest;
    assert queue[0] == e && queue[1..] == rest;
  }

  // What the blocks of an order add to the end of the queue.
  function AddsOf(order: seq<Entry>): seq<Entry> {
    if order == [] then [] else order[0].block.adds + AddsOf(order[1..])
  }

  // Everything that was in the queue, with all it inserts, comes before what any of it adds to the
  // end; then comes what was added, in the order of the blocks that added it.
  lemma {:induction false} ScheduleInStages(a: seq<Entry>, b: seq<Entry>)
    ensures Schedule(a + b) == Preorder(a) + Schedule(b + AddsOf(Preorder(a)))
    decreases Size(a)
  {
    hide Preorder, Schedule, Size, AddsOf;
    if a == [] {
      NothingToRun();
      assert a + b == b && b + [] == b;
    } else {
      var e, rest := a[0], a[1..];
      var next := e.block.inserts + rest;
      assert a == [e] + rest && a + b == [e] + (rest + b);
      ScheduleStep(e, rest + b);
      assert After(e, rest + b) == next + (b + e.block.adds);
      InsertsAreSmaller(e, rest);
      ScheduleInStages(next, b + e.block.adds);
      PreorderStep(e, rest);
      AddsOfPush(e, Preorder(next));
      Assoc(b, e.block.adds, AddsOf(Preorder(next)));
      Assoc([e], Preorder(next), Schedule(b + AddsOf(Preorder(a))));
    }
  }

  lemma NothingToRun()
    ensures Preorder([]) == [] && AddsOf([]) == []
  {
  }

  lemma InsertsAreSmaller(e: Entry, rest: seq<Entry>)
    ensures Size(e.block.inserts + rest) < Size([e] + rest)
  {
    SizeConcat(e.block.inserts, rest);
    assert ([e] + rest)[1..] == rest;
  }

  lemma AddsOfPush(e: Entry, order: seq<Entry>)
    ensures AddsOf([e] + order) == e.block.adds + AddsOf(order)
  {
    assert ([e] + order)[1..] == order;
  }

  // If no block adds to the end, the order is the pre-order of the tree.
  lemma ScheduleWithoutAdds(queue: seq<Entry>)
    requires AddsOf(Preorder(queue)) == []
    ensures Schedule(queue) == Preorder(queue)
  {
    hide Preorder, AddsOf;
    ScheduleInStages(queue, []);
    assert queue + [] == queue && Schedule([]) == [];
  }

  // The part of an order that runs: all of it, or after an abort only up to the first block
  // that is not ensured.
  function Executed(order: seq<Entry>, aborted: bool): seq<Entry> {
    if order == [] || (aborted && !order[0].ensured) then []
    else [order[0]] + Executed(order[1..], aborted || order[0].block.aborts)
  }

  lemma {:induction false} PreorderConcat(a: seq<Entry>, b: seq<Entry>)
    ensures Preorder(a + b) == Preorder(a) + Preorder(b)
  {
    if a == [] {
      assert a + b == b;
    } else {
      PreorderConcat(a[1..], b);
      assert (a + b)[0] == a[0] && (a + b)[1..] == a[1..] + b;
      Assoc(PreorderOf(a[0]), Preorder(a[1..]), Preorder(b));
    }
  }

  // After a block has run, what it inserted stands in front of the rest.
  lemma PreorderStep(e: Entry, rest: seq<Entry>)
    ensures Preorder([e] + rest) == [e] + Preorder(e.block.inserts + rest)
  {
    var queue := [e] + rest;
    assert queue[0] == e && queue[1..] == rest;
    PreorderConcat(e.block.inserts, rest);
    Assoc([e], Preorder(e.block.inserts), Preorder(rest));
  }

  // ---------- what Executed means ----------

  // The index of the first block that aborts, or the length of the order.
  function FirstAbort(order: seq<Entry>): (k: nat)
    ensures k <= |order|
    ensures forall i :: 0 <= i < k ==> !order[i].block.aborts
    ensures k < |order| ==> order[k].block.aborts
  {
    if order == [] || order[0].block.aborts then 0 else 1 + FirstAbort(order[1..])
  }

  ghost predicate EnsuredBetween(order: seq<Entry>, lo: nat, hi: nat) {
    forall i :: lo <= i < hi && i < |order| ==> order[i].ensured
  }

  lemma {:induction false} ExecutedIsPrefix(order: seq<Entry>, aborted: bool)
    ensures Executed(order, aborted) <= order
  {
    if order != [] {
      ExecutedIsPrefix(order[1..], aborted || order[0].block.aborts);
      assert order == [order[0]] + order[1..];
    }
  }

  // Block j runs exactly when every block after the first abort and up to it is ensured: an ensured
  // block behind one that is not does not run.
  lemma {:induction false} RunsUnlessCutOff(order: seq<Entry>, aborted: bool, j: nat)
    requires j < |order|
    ensures j < |Executed(order, aborted)| <==>
              EnsuredBetween(order, if aborted then 0 else FirstAbort(order) + 1, j + 1)
  {
    var rest, aborted' := order[1..], aborted || order[0].block.aborts;
    if j > 0 {
      RunsUnlessCutOff(rest, aborted', j - 1);
      var lo' := if aborted' then 0 else FirstAbort(rest) + 1;
      ShiftEnsured(order, lo', j);
    }
  }

  lemma ShiftEnsured(order: seq<Entry>, lo: nat, hi: nat)
    requires order != []
    ensures EnsuredBetween(order[1..], lo, hi) <==> EnsuredBetween(order, lo + 1, hi + 1)
  {
    if EnsuredBetween(order[1..], lo, hi) {
      forall i | lo + 1 <= i < hi + 1 && i < |order| ensures order[i].ensured {
        assert order[i] == order[1..][i - 1];
      }
    }
  }

  // Without an abort everything runs, in pre-order.
  lemma {:induction false} AllRunWithoutAbort(order: seq<Entry>)
    requires forall i :: 0 <= i < |order| ==> !order[i].block.aborts
    ensures Executed(order, false) == order
  {
    if order != [] {
      AllRunWithoutAbort(order[1..]);
    }
  }

  // ---------- the state of a run ----------

  // Between two blocks: what ran, and what the rest of the queue will add to it.
  ghost predicate BetweenBlocks(queue: seq<Entry>, index: nat, abort: bool, trace: seq<Entry>, order: seq<Entry>) {
    && index <= |queue|
    && Executed(order, false) == trace + Executed(Schedule(queue[index..]), abort)
  }

  // While the block at index is running: it has inserted the first `offset` of its blocks behind itself
  // and added the first `added` of its others at the end; those it will still insert or add belong
  // behind them.
  ghost predicate InBlock(queue: seq<Entry>, index: nat, offset: nat, added: nat, abort: bool, trace: seq<Entry>,
                          order: seq<Entry>)
  {
    && index < |queue| && offset <= |queue[index].block.inserts| && added <= |queue[index].block.adds|
    && index + 1 + offset <= |queue|
    && queue[index + 1..index + 1 + offset] == queue[index].block.inserts[..offset]
    && Executed(order, false) == trace + Executed(
         Schedule(ToCome(queue, index, offset, added)), abort || queue[index].block.aborts)
  }

  function ToCome(queue: seq<Entry>, index: nat, offset: nat, added: nat): seq<Entry>
    requires index + 1 + offset <= |queue| && added <= |queue[index].block.adds|
  {
    queue[index].block.inserts + queue[index + 1 + offset..] + queue[index].block.adds[added..]
  }

  lemma BlockStarts(queue: seq<Entry>, index: nat, abort: bool, trace: seq<Entry>, order: seq<Entry>)
    requires BetweenBlocks(queue, index, abort, trace, order) && index < |queue| && !(abort && !queue[index].ensured)
    ensures InBlock(queue, index, 0, 0, abort, trace + [queue[index]], order)
    ensures Size(ToCome(queue, index, 0, 0)) < Size(queue[index..])
  {
    hide Schedule, Size;
    var e, rest := queue[index], queue[index + 1..];
    assert queue[index..] == [e] + rest;
    assert ToCome(queue, index, 0, 0) == After(e, rest);
    ScheduleStep(e, rest);
    AfterIsSmaller(e, rest);
    var after := Schedule(After(e, rest));
    assert ([e] + after)[1..] == after;
    Assoc(trace, [e], Executed(after, abort || e.block.aborts));
  }

  lemma BlockInserts(queue: seq<Entry>, index: nat, offset: nat, added: nat, abort: bool, trace: seq<Entry>,
                     order: seq<Entry>)
    requires InBlock(queue, index, offset, added, abort, trace, order) && offset < |queue[index].block.inserts|
    ensures index + 1 + offset <= |queue|
    ensures var queue' := InsertAt(queue, index + 1 + offset, queue[index].block.inserts[offset]);
            && InBlock(queue', index, offset + 1, added, abort, trace, order)
            && queue'[index] == queue[index]
            && ToCome(queue', index, offset + 1, added) == ToCome(queue, index, offset, added)
  {
    hide Schedule, Executed;
    var p, e := index + 1 + offset, queue[index].block.inserts[offset];
    var queue' := InsertAt(queue, p, e);
    assert queue'[index] == queue[index] && queue'[p + 1..] == queue[p..];
    assert queue'[index + 1..p + 1] == queue[index + 1..p] + [e];
  }

  lemma BlockAdds(queue: seq<Entry>, index: nat, offset: nat, added: nat, abort: bool, trace: seq<Entry>,
                  order: seq<Entry>)
    requires InBlock(queue, index, offset, added, abort, trace, order) && added < |queue[index].block.adds|
    ensures var queue' := queue + [queue[index].block.adds[added]];
            && InBlock(queue', index, offset, added + 1, abort, trace, order)
            && queue'[index] == queue[index]
            && ToCome(queue', index, offset, added + 1) == ToCome(queue, index, offset, added)
  {
    hide Schedule, Executed;
    var p, e, b := index + 1 + offset, queue[index].block.adds[added], queue[index].block;
    var queue' := queue + [e];
    assert queue'[index] == queue[index] && queue'[p..] == queue[p..] + [e];
    assert queue'[index + 1..p] == queue[index + 1..p];
    assert b.adds[added..] == [e] + b.adds[added + 1..];
    Assoc(b.inserts, queue[p..], [e]);
    Assoc(b.inserts + queue[p..], [e], b.adds[added + 1..]);
  }

  function InsertAt<T>(s: seq<T>, p: nat, x: T): (r: seq<T>)
    requires p <= |s|
    ensures |r| == |s| + 1
  {
    s[..p] + [x] + s[p..]
  }

  lemma BlockCompletes(queue: seq<Entry>, index: nat, offset: nat, abort: bool, trace: seq<Entry>, order: seq<Entry>)
    requires index < |queue| && offset == |queue[index].block.inserts|
    requires InBlock(queue, index, offset, |queue[index].block.adds|, abort, trace, order)
    ensures BetweenBlocks(queue, index + 1, abort || queue[index].block.aborts, trace, order)
    ensures queue[index + 1..] == ToCome(queue, index, offset, |queue[index].block.adds|)
  {
    hide Schedule, Executed;
    var b, rest := queue[index].block, queue[index + 1 + offset..];
    assert queue[index + 1..] == queue[index + 1..index + 1 + offset] + rest;
    assert b.inserts[..offset] == b.inserts && b.adds[|b.adds|..] == [];
    assert b.inserts + rest + [] == b.inserts + rest;
  }

  // ---------- the queue ----------

  // What will call back into the queue: nothing, the block that is running, or the timer that was
  // set to give way to the browser.
  datatype Waiting = Nothing | ForBlock | ForTimer

  function Zip(blocks: seq<Block>, ensured: seq<bool>): (es: seq<Entry>)
    requires |blocks| == |ensured|
    ensures |es| == |blocks|
  {
    seq(|blocks|, i requires 0 <= i < |blocks| => Entry(blocks[i], ensured[i]))
  }

  class Queue {
    var blocks: seq<Block>
    var ensured: seq<bool>
    var running: bool
    var index: nat
    var offset: nat
    var abort: bool
    var waiting: Waiting
    var completions: nat  // how often the completion of the queue was called
    ghost var trace: seq<Entry>  // the blocks executed, in order
    ghost var order: seq<Entry>  // the order fixed by what the queue was started with

    predicate Parallel()
      reads this`blocks, this`ensured
    {
      |blocks| == |ensured|
    }

    function Entries(): (es: seq<Entry>)
      requires Parallel()
      reads this`blocks, this`ensured
      ensures |es| == |blocks|
    {
      Zip(blocks, ensured)
    }

    // A queue that was started, between two calls into it.
    ghost predicate Valid()
      reads this
    {
      && Parallel()
      && (running <==> waiting != Nothing)
      && completions == (if running then 0 else 1)
      && match waiting
         case Nothing => trace == Executed(order, false)
         case ForTimer => offset == 0 && BetweenBlocks(Entries(), index, abort, trace, order)
         case ForBlock =>
           index < |blocks| && InBlock(Entries(), index, offset, EarlyAdds(blocks[index]), abort, trace, order)
    }

    constructor ()
      ensures Parallel() && Entries() == [] && !running && index == offset == 0 && !abort
      ensures completions == 0 && waiting == Nothing && trace == []
    {
      blocks, ensured, running, index, offset, abort := [], [], false, 0, 0, false;
      waiting, completions, trace, order := Nothing, 0, [], [];
    }

    method AddBefore(block: Block, ensure: bool)
      requires Parallel()
      modifies this`blocks, this`ensured
      ensures Parallel() && Entries() == [Entry(block, ensure)] + old(Entries())
    {
      blocks := [block] + blocks;
      ensured := [ensure] + ensured;
    }

    method Add(block: Block, ensure: bool)
      requires Parallel()
      modifies this`blocks, this`ensured
      ensures Parallel() && Entries() == old(Entries()) + [Entry(block, ensure)]
    {
      blocks := blocks + [block];
      ensured := ensured + [ensure];
    }

    // Inserts behind the running block and what was inserted since it started.
    method InsertNext(block: Block, ensure: bool)
      requires Parallel() && index + offset + 1 <= |blocks|
      modifies this`blocks, this`ensured, this`offset
      ensures Parallel() && offset == old(offset) + 1
      ensures var p := index + old(offset) + 1;
              Entries() == InsertAt(old(Entries()), p, Entry(block, ensure))
    {
      var p := index + offset + 1;
      ensured := ensured[..p] + [ensure] + ensured[p..];
      blocks := blocks[..p] + [block] + blocks[p..];
      offset := offset + 1;
    }

    // What a running block does to the queue until it has inserted `upTo` blocks and added those up to
    // `addTo`. Which it does first makes no difference, as the places do not meet.
    method Execute(upTo: nat, added: nat, addTo: nat)
      requires Parallel() && InBlock(Entries(), index, offset, added, abort, trace, order)
      requires index < |blocks| && offset <= upTo <= |blocks[index].inserts| && index + 1 + offset <= |blocks|
      requires added <= addTo <= |blocks[index].adds|
      modifies this`blocks, this`ensured, this`offset
      ensures Parallel() && InBlock(Entries(), index, offset, addTo, abort, trace, order) && offset == upTo
      ensures index + 1 + offset <= |blocks| && blocks[index] == old(blocks[index])
      ensures ToCome(Entries(), index, offset, addTo) == old(ToCome(Entries(), index, offset, added))
    {
      hide InBlock, InsertAt, ToCome;
      while offset < upTo
        invariant Parallel() && InBlock(Entries(), index, offset, added, abort, trace, order) && offset <= upTo
        invariant index < |blocks| && blocks[index] == old(blocks[index])
        invariant index + 1 + offset <= |blocks|
        invariant ToCome(Entries(), index, offset, added) == old(ToCome(Entries(), index, offset, added))
      {
        ghost var before := Entries();
        BlockInserts(before, index, offset, added, abort, trace, order);
        var e := blocks[index].inserts[offset];
        InsertNext(e.block, e.ensured);
        assert Entries()[index] == before[index];
      }
      var done := added;
      while done < addTo
        invariant added <= done <= addTo
        invariant Parallel() && InBlock(Entries(), index, offset, done, abort, trace, order) && offset == upTo
        invariant index < |blocks| && blocks[index] == old(blocks[index])
        invariant index + 1 + offset <= |blocks|
        invariant ToCome(Entries(), index, offset, done) == old(ToCome(Entries(), index, offset, added))
      {
        ghost var before := Entries();
        BlockAdds(before, index, offset, done, abort, trace, order);
        var e := blocks[index].adds[done];
        Add(e.block, e.ensured);
        assert Entries()[index] == before[index];
        done := done + 1;
      }
    }

    // The number of blocks that may still run.
    ghost function Left(): nat
      requires Valid()
      reads this
    {
      match waiting
      case Nothing => 0
      case ForTimer => Size(Entries()[index..])
      case ForBlock => Size(ToCome(Entries(), index, offset, EarlyAdds(blocks[index])))
    }

    // The completion of the running block, up to the choice of how to go on.
    method FinishBlock()
      requires Parallel() && index < |blocks| && offset == |blocks[index].inserts|
      requires InBlock(Entries(), index, offset, |blocks[index].adds|, abort, trace, order)
      modifies this`abort, this`offset, this`index
      ensures BetweenBlocks(Entries(), index, abort, trace, order) && offset == 0 && index == old(index) + 1
      ensures Entries() == old(Entries()) && index <= |blocks|
      ensures abort == (old(abort) || blocks[old(index)].aborts)
      ensures Entries()[index..] == old(ToCome(Entries(), index, offset, |blocks[index].adds|))
    {
      BlockCompletes(Entries(), index, offset, abort, trace, order);
      if blocks[index].aborts {
        abort := true;
      }
      offset := 0;
      index := index + 1;
    }

    // Executes the block at index; the result says whether it completed before execute returned.
    method RunBlock() returns (completed: bool)
      requires Parallel() && index < |blocks| && !(abort && !ensured[index])
      requires running && offset == 0 && completions == 0 && waiting == ForTimer
      requires BetweenBlocks(Entries(), index, abort, trace, order)
      modifies this
      ensures Valid() && running && order == old(order) && waiting == (if completed then ForTimer else ForBlock)
      ensures Left() < old(Size(Entries()[index..]))
    {
      hide InBlock, BetweenBlocks, Schedule, Executed, Size, ToCome;
      BlockStarts(Entries(), index, abort, trace, order);
      trace := trace + [Entries()[index]];
      var block := blocks[index];
      Execute(EarlyInserts(block), 0, EarlyAdds(block));
      completed := block.sync;
      if completed {
        FinishBlock();
      } else {
        waiting := ForBlock;
      }
    }

    // Runs blocks as long as they complete at once and the browser need not be given the turn.
    // Whether it is given the turn after a block depends on the clock: either choice is taken.
    method Next()
      requires Valid() && waiting == ForTimer
      modifies this
      ensures Valid() && order == old(order)
      ensures waiting != Nothing ==> Left() < old(Left())
    {
      hide InBlock, BetweenBlocks, Schedule, Executed, Size, ToCome;
      var goAgain := true;
      while goAgain
        invariant Valid() && order == old(order) && (goAgain ==> waiting == ForTimer)
        invariant waiting != Nothing ==> Left() < old(Left()) || (goAgain && Left() == old(Left()))
        decreases goAgain, if goAgain then Left() else 0
      {
        goAgain := false;
        EntriesAt(index);
        if index < |blocks| && !(abort && !ensured[index]) {
          var completed := RunBlock();
          if completed {
            if * {
              goAgain := true;
            }
          }
        } else {
          RunEnds(Entries(), index, abort, trace, order);
          running := false;
          waiting := Nothing;
          completions := completions + 1;
        }
      }
    }

    lemma EntriesAt(i: nat)
      requires Parallel() && BetweenBlocks(Entries(), i, abort, trace, order)
      ensures i <= |blocks| && (i < |blocks| ==> Entries()[i] == Entry(blocks[i], ensured[i]))
    {
    }

    method Start()
      requires Parallel() && !running && index == offset == completions == 0 && !abort && trace == []
      modifies this
      ensures Valid() && order == Schedule(old(Entries()))
    {
      running := true;
      waiting := ForTimer;
      order := Schedule(Entries());
      assert Entries()[0..] == Entries();
      Next();
    }

    // The call back: the block that was waited for inserts the blocks it still wants and
    // completes, or the timer goes off.
    method Resume()
      requires Valid() && waiting != Nothing
      modifies this
      ensures Valid() && order == old(order)
      ensures || waiting == Nothing || Left() < old(Left())
              || (Left() == old(Left()) && old(waiting) == ForBlock && waiting == ForTimer)
    {
      hide InBlock, BetweenBlocks, Schedule, Executed, Size, ToCome;
      if waiting == ForBlock {
        InBlockBounds(Entries(), index, offset, EarlyAdds(blocks[index]), abort, trace, order);
        ghost var left := Left();
        Execute(|blocks[index].inserts|, EarlyAdds(blocks[index]), |blocks[index].adds|);
        FinishBlock();
        waiting := ForTimer;
        assert Left() == left;
        if * {
          return;
        }
      }
      Next();
    }

    // Whichever blocks complete at once and whenever the timer is used, a started queue comes to
    // an end, has called its completion once, and has run what Executed says of its order.
    method Run()
      requires Parallel() && !running && index == offset == completions == 0 && !abort && trace == []
      modifies this
      ensures !running && completions == 1
      ensures trace == Executed(Schedule(old(Entries())), false)
    {
      Start();
      while waiting != Nothing
        invariant Valid() && order == Schedule(old(Entries()))
        decreases if waiting == Nothing then 0 else 1, if waiting == Nothing then 0 else Left(), waiting == ForBlock
      {
        Resume();
      }
    }
  }

  lemma InBlockBounds(queue: seq<Entry>, index: nat, offset: nat, added: nat, abort: bool, trace: seq<Entry>,
                      order: seq<Entry>)
    requires InBlock(queue, index, offset, added, abort, trace, order)
    ensures index < |queue| && offset <= |queue[index].block.inserts| && index + 1 + offset <= |queue|
    ensures added <= |queue[index].block.adds|
  {
  }

  lemma RunEnds(queue: seq<Entry>, index: nat, abort: bool, trace: seq<Entry>, order: seq<Entry>)
    requires BetweenBlocks(queue, index, abort, trace, order)
    requires index < |queue| ==> abort && !queue[index].ensured
    ensures trace == Executed(order, false)
  {
    if index < |queue| {
      assert queue[index..] == [queue[index]] + queue[index + 1..];
      ScheduleStep(queue[index], queue[index + 1..]);
    }
  }

  // ---------- before and after functions ----------

  // The functions registered on a suite or on the runner, the latest registered first.
  datatype Suite = Suite(before: seq<Block>, after: seq<Block>)

  function Entered(blocks: seq<Block>, ensured: bool): (es: seq<Entry>)
    ensures |es| == |blocks|
  {
    seq(|blocks|, i requires 0 <= i < |blocks| => Entry(blocks[i], ensured))
  }

  function Reversed<T>(s: seq<T>): seq<T> {
    if s == [] then [] else Reversed(s[1..]) + [s[0]]
  }

  // Outer suites first, and in each the earliest registered first.
  function Befores(suites: seq<Suite>): seq<Block> {
    if suites == [] then [] else Befores(suites[1..]) + Reversed(suites[0].before)
  }

  // Inner suites first, and in each the latest registered first.
  function Afters(suites: seq<Suite>): seq<Block> {
    if suites == [] then [] else suites[0].after + Afters(suites[1..])
  }

  lemma EnteredConcat(a: seq<Block>, b: seq<Block>, ensured: bool)
    ensures Entered(a + b, ensured) == Entered(a, ensured) + Entered(b, ensured)
  {
  }

  lemma EnteredOne(b: Block, ensured: bool)
    ensures Entered([b], ensured) == [Entry(b, ensured)]
  {
  }

  method AddAllBefore(q: Queue, blocks: seq<Block>)
    requires q.Parallel()
    modifies q`blocks, q`ensured
    ensures q.Parallel() && q.Entries() == Entered(Reversed(blocks), false) + old(q.Entries())
  {
    hide Entered, Reversed, Zip;
    EnteredConcat([], [], false);
    assert Reversed<Block>([]) == [] by {
      ReversedEmpty<Block>();
    }
    for i := 0 to |blocks|
      invariant q.Parallel() && q.Entries() == Entered(Reversed(blocks[..i]), false) + old(q.Entries())
    {
      q.AddBefore(blocks[i], false);
      Around(blocks, i);
      ReversedAppend(blocks[..i], blocks[i]);
      EnteredOne(blocks[i], false);
      EnteredConcat([blocks[i]], Reversed(blocks[..i]), false);
      Assoc([Entry(blocks[i], false)], Entered(Reversed(blocks[..i]), false), old(q.Entries()));
    }
    assert blocks[..|blocks|] == blocks;
  }

  lemma ReversedEmpty<T>()
    ensures Reversed<T>([]) == []
  {
  }

  lemma {:induction false} ReversedAppend<T>(s: seq<T>, x: T)
    ensures Reversed(s + [x]) == [x] + Reversed(s)
  {
    if s != [] {
      ReversedAppend(s[1..], x);
      assert (s + [x])[1..] == s[1..] + [x];
    }
  }

  method AddAll(q: Queue, blocks: seq<Block>)
    requires q.Parallel()
    modifies q`blocks, q`ensured
    ensures q.Parallel() && q.Entries() == old(q.Entries()) + Entered(blocks, true)
  {
    for i := 0 to |blocks|
      invariant q.Parallel() && q.Entries() == old(q.Entries()) + Entered(blocks[..i], true)
    {
      q.Add(blocks[i], true);
      assert Entered(blocks[..i + 1], true) == Entered(blocks[..i], true) + [Entry(blocks[i], true)];
    }
    assert blocks[..|blocks|] == blocks;
  }

  // The suites are those of the spec, from the inside out; callbacks are the spec's own afters.
  method AddBeforesAndAfters(q: Queue, suites: seq<Suite>, runner: Suite, callbacks: seq<Block>)
    requires q.Parallel()
    modifies q`blocks, q`ensured
    ensures q.Parallel()
    ensures q.Entries() == Entered(Reversed(runner.before) + Befores(suites), false) + old(q.Entries())
                           + Entered(callbacks + Afters(suites) + runner.after, true)
  {
    hide Entered, Zip, Befores, Afters, Reversed;
    AddSuitesBefore(q, suites);
    AddAllBefore(q, runner.before);
    EnteredConcat(Reversed(runner.before), Befores(suites), false);
    AddAll(q, callbacks);
    AddSuitesAfter(q, suites);
    AddAll(q, runner.after);
    EnteredConcat(callbacks, Afters(suites), true);
    EnteredConcat(callbacks + Afters(suites), runner.after, true);
    Regroup(Entered(Reversed(runner.before), false), Entered(Befores(suites), false), old(q.Entries()),
            Entered(callbacks, true), Entered(Afters(suites), true), Entered(runner.after, true));
  }

  lemma Regroup<T>(a: seq<T>, b: seq<T>, body: seq<T>, c: seq<T>, d: seq<T>, e: seq<T>)
    ensures a + (b + body) + c + d + e == a + b + body + (c + d + e)
  {
    Assoc(a, b, body);
    var front := a + b + body;
    Assoc(front, c, d);
    Assoc(front, c + d, e);
  }

  method AddSuitesBefore(q: Queue, suites: seq<Suite>)
    requires q.Parallel()
    modifies q`blocks, q`ensured
    ensures q.Parallel() && q.Entries() == Entered(Befores(suites), false) + old(q.Entries())
  {
    hide Zip, Reversed;
    for i := 0 to |suites|
      invariant q.Parallel() && q.Entries() == Entered(Befores(suites[..i]), false) + old(q.Entries())
    {
      AddAllBefore(q, suites[i].before);
      Around(suites, i);
      BeforesAppend(suites[..i], suites[i]);
      EnteredConcat(Reversed(suites[i].before), Befores(suites[..i]), false);
      Assoc(Entered(Reversed(suites[i].before), false), Entered(Befores(suites[..i]), false), old(q.Entries()));
    }
    assert suites[..|suites|] == suites;
  }

  method AddSuitesAfter(q: Queue, suites: seq<Suite>)
    requires q.Parallel()
    modifies q`blocks, q`ensured
    ensures q.Parallel() && q.Entries() == old(q.Entries()) + Entered(Afters(suites), true)
  {
    hide Zip;
    for i := 0 to |suites|
      invariant q.Parallel() && q.Entries() == old(q.Entries()) + Entered(Afters(suites[..i]), true)
    {
      AddAll(q, suites[i].after);
      Around(suites, i);
      AftersAppend(suites[..i], suites[i]);
      EnteredConcat(Afters(suites[..i]), suites[i].after, true);
      Assoc(old(q.Entries()), Entered(Afters(suites[..i]), true), Entered(suites[i].after, true));
    }
    assert suites[..|suites|] == suites;
  }

  lemma {:induction false} BeforesAppend(suites: seq<Suite>, s: Suite)
    ensures Befores(suites + [s]) == Reversed(s.before) + Befores(suites)
  {
    if suites != [] {
      BeforesAppend(suites[1..], s);
      assert (suites + [s])[1..] == suites[1..] + [s];
    }
  }

  lemma {:induction false} AftersAppend(suites: seq<Suite>, s: Suite)
    ensures Afters(suites + [s]) == Afters(suites) + s.after
  {
    if suites != [] {
      AftersAppend(suites[1..], s);
      assert (suites + [s])[1..] == suites[1..] + [s];
    }
  }

  // When a block in front of the ensured ones aborts, the ensured ones all run if every block
  // between the abort and them is ensured, and none of them runs otherwise.
  lemma AftersRunAllOrNone(front: seq<Entry>, afters: seq<Entry>)
    requires FirstAbort(front) < |front| && EnsuredBetween(afters, 0, |afters|)
    ensures EnsuredBetween(front, FirstAbort(front) + 1, |front|) ==> Executed(front + afters, false) == front + afters
    ensures !EnsuredBetween(front, FirstAbort(front) + 1, |front|) ==> |Executed(front + afters, false)| < |front|
  {
    var order := front + afters;
    FirstAbortOfFront(front, afters);
    ExecutedIsPrefix(order, false);
    RunsUnlessCutOff(order, false, |order| - 1);
    RunsUnlessCutOff(order, false, |front| - 1);
    assert EnsuredBetween(front, FirstAbort(front) + 1, |front|) <==>
             EnsuredBetween(order, FirstAbort(front) + 1, |front|) by {
      assert forall i :: 0 <= i < |front| ==> order[i] == front[i];
    }
  }

  lemma {:induction false} FirstAbortOfFront(front: seq<Entry>, rest: seq<Entry>)
    requires FirstAbort(front) < |front|
    ensures FirstAbort(front + rest) == FirstAbort(front)
  {
    assert (front + rest)[0] == front[0];
    if !front[0].block.aborts {
      assert (front + rest)[1..] == front[1..] + rest;
      FirstAbortOfFront(front[1..], rest);
    }
  }
}
