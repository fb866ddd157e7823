// The fake clock of the test library (extra/jasmine-1.3.1/jasmine.js, jasmine.FakeTimer).
module FakeTimers {
  import opened Wrappers
  import opened Sequences

  // A scheduled callback. Callbacks here are recorded, and may clear their own timer: nothing else.
  datatype Scheduled = Scheduled(runAt: int, millis: int, recurring: bool, clearsItself: bool)

  type Table = map<nat, Scheduled>

  datatype Call = Call(key: nat, time: int)

  // ---------- when a timer fires ----------

  predicate Progresses(s: Scheduled) {
    s.recurring ==> s.millis > 0
  }

  function Next(s: Scheduled): Scheduled {
    s.(runAt := s.runAt + s.millis)
  }

  // Fires at time t when the clock has been moved on to now.
  predicate Fires(s: Scheduled, t: int, now: int)
    requires Progresses(s)
    decreases now - s.runAt
  {
    s.runAt <= now && (t == s.runAt || (s.recurring && Fires(Next(s), t, now)))
  }

  // What is left of it then.
  function Left(s: Scheduled, now: int): Option<Scheduled>
    requires Progresses(s)
    decreases now - s.runAt
  {
    if s.runAt > now then Some(s) else if s.recurring then Left(Next(s), now) else None
  }

  // How often it has fired before it fires at t.
  function Round(s: Scheduled, t: int): nat
    requires Progresses(s)
    decreases t - s.runAt
  {
    if s.runAt >= t || !s.recurring then 0 else 1 + Round(Next(s), t)
  }

  // A timeout fires once, an interval once at each point of its period.
  lemma {:induction false} FiresAtPeriodPoints(s: Scheduled, t: int, now: int)
    requires Progresses(s)
    ensures Fires(s, t, now) <==>
              s.runAt <= t <= now && if s.recurring then (t - s.runAt) % s.millis == 0 else t == s.runAt
    decreases now - s.runAt
  {
    if s.runAt <= now && s.recurring {
      FiresAtPeriodPoints(Next(s), t, now);
      OnePeriod(t - s.runAt, s.millis);
    }
  }

  lemma OnePeriod(d: int, m: int)
    requires m > 0
    ensures (d - m) % m == d % m
    ensures 0 <= d < m ==> d % m == d
  {
    var q, q' := d / m, (d - m) / m;
    Distribute(q, q', m);
    SmallMultiple(q - q' - 1, m, (d - m) % m - d % m);
  }

  lemma Distribute(a: int, b: int, m: int)
    ensures (a - b - 1) * m == a * m - b * m - m
  {
  }

  lemma SmallMultiple(n: int, m: int, e: int)
    requires n * m == e && -m < e < m
    ensures e == 0
  {
    AtLeastOnce(n, m);
  }

  lemma AtLeastOnce(n: int, m: int)
    requires m > 0
    ensures n >= 1 ==> n * m >= m
    ensures n <= -1 ==> n * m <= -m
  {
  }

  // What is left fires next at the first period point after now.
  lemma {:induction false} LeftIsLater(s: Scheduled, now: int)
    requires Progresses(s)
    ensures Left(s, now).Some? <==> s.recurring || s.runAt > now
    ensures Left(s, now).Some? ==>
              var l := Left(s, now).value;
              && l.runAt > now && l == s.(runAt := l.runAt) && Progresses(l)
              && (s.runAt <= now ==> l.runAt <= now + s.millis && Fires(s, l.runAt, l.runAt))
    decreases now - s.runAt
  {
    if s.runAt <= now && s.recurring {
      LeftIsLater(Next(s), now);
      var l := Left(s, now).value;
      if s.runAt + s.millis > now {
        assert Fires(Next(s), l.runAt, l.runAt);
      }
    }
  }

  // ---------- moving the clock in two steps ----------

  lemma {:induction false} FiresOnce(s: Scheduled, t: int, a: int, b: int)
    requires Progresses(s) && a <= b
    ensures Left(s, a).Some? ==> Progresses(Left(s, a).value)
    ensures Fires(s, t, b) <==> Fires(s, t, a) || (Left(s, a).Some? && Fires(Left(s, a).value, t, b))
    ensures Fires(s, t, a) ==> s.runAt <= t <= a
    ensures Left(s, a).Some? && Fires(Left(s, a).value, t, b) ==> t > a
    ensures Left(s, b) == if Left(s, a).None? then None else Left(Left(s, a).value, b)
    decreases a - s.runAt
  {
    if s.runAt <= a && s.recurring {
      FiresOnce(Next(s), t, a, b);
    } else if s.runAt > a {
      FiresAtPeriodPoints(s, t, b);
    }
  }

  ghost predicate AllProgress(table: Table) {
    forall k :: k in table ==> Progresses(table[k])
  }

  ghost predicate AllFrom(table: Table, low: int) {
    forall k :: k in table ==> low <= table[k].runAt
  }

  function Advanced(table: Table, now: int): Table
    requires AllProgress(table)
  {
    map k | k in table && Left(table[k], now).Some? :: Left(table[k], now).value
  }

  predicate Due(table: Table, c: Call, now: int)
    requires AllProgress(table)
  {
    c.key in table && Fires(table[c.key], c.time, now)
  }

  // Two steps of the clock fire what one step fires, each call in exactly one of the two, and leave
  // the same timers.
  lemma TicksAdd(table: Table, a: int, b: int)
    requires AllProgress(table) && a <= b
    ensures AllProgress(Advanced(table, a))
    ensures Advanced(Advanced(table, a), b) == Advanced(table, b)
    ensures forall c :: Due(table, c, b) <==> Due(table, c, a) || Due(Advanced(table, a), c, b)
    ensures forall c :: !(Due(table, c, a) && Due(Advanced(table, a), c, b))
  {
    hide Fires, Left;
    forall k | k in table
      ensures Left(table[k], a).Some? ==> Progresses(Left(table[k], a).value)
      ensures Left(table[k], b) == if Left(table[k], a).None? then None else Left(Left(table[k], a).value, b)
    {
      FiresOnce(table[k], 0, a, b);
    }
    var half := Advanced(table, a);
    assert Advanced(half, b) == Advanced(table, b);
    forall c: Call
      ensures Due(table, c, b) <==> Due(table, c, a) || Due(half, c, b)
      ensures !(Due(table, c, a) && Due(half, c, b))
    {
      if c.key in table {
        FiresOnce(table[c.key], c.time, a, b);
      }
    }
  }

  // ---------- a run of callbacks ----------

  ghost predicate Distinct<T>(s: seq<T>) {
    forall i, j :: 0 <= i < j < |s| ==> s[i] != s[j]
  }

  // Calls come round by round, and within a round by time.
  predicate InTurn(table: Table, a: Call, b: Call)
    requires AllProgress(table)
  {
    && a.key in table && b.key in table
    && var r, r' := Round(table[a.key], a.time), Round(table[b.key], b.time);
    (r < r' || (r == r' && a.time <= b.time))
  }

  // Exactly the calls that are due, each once.
  ghost predicate Runs(calls: seq<Call>, table: Table, now: int)
    requires AllProgress(table)
  {
    && Distinct(calls)
    && (forall c :: c in calls <==> Due(table, c, now))
    && (forall i, j :: 0 <= i < j < |calls| ==> InTurn(table, calls[i], calls[j]))
  }

  // One round: every timer that is due runs once.
  function Stepped(table: Table, now: int): Table {
    map k | k in table && (table[k].runAt > now || table[k].recurring) ::
      if table[k].runAt > now then table[k] else Next(table[k])
  }

  ghost predicate IsRound(calls: seq<Call>, table: Table, now: int) {
    && Distinct(calls)
    && (forall c :: c in calls <==> c.key in table && table[c.key].runAt <= now && c.time == table[c.key].runAt)
    && (forall i, j :: 0 <= i < j < |calls| ==> calls[i].time <= calls[j].time)
  }

  lemma SteppedAdvances(table: Table, now: int)
    requires AllProgress(table)
    ensures AllProgress(Stepped(table, now))
    ensures Advanced(Stepped(table, now), now) == Advanced(table, now)
  {
    var next := Stepped(table, now);
    assert forall k | k in table && k !in next :: Left(table[k], now).None?;
    assert forall k | k in next :: Left(next[k], now) == Left(table[k], now);
  }

  lemma SteppedMovesOn(batch: Batch, table: Table, now: int, low: int)
    requires AllProgress(table) && AllFrom(table, low)
    requires batch != [] && TakesDue(batch, table, now)
    ensures low <= now && AllFrom(Stepped(table, now), low + 1)
  {
    assert batch[0].0 in table;
  }

  // A later call belongs to a timer of the round, one round on.
  lemma LaterCall(table: Table, c: Call, now: int)
    requires AllProgress(table) && AllProgress(Stepped(table, now)) && Due(Stepped(table, now), c, now)
    ensures c.key in table && table[c.key].runAt <= now && table[c.key].recurring
    ensures c.time > table[c.key].runAt
    ensures Due(table, c, now) && Round(table[c.key], c.time) == 1 + Round(Stepped(table, now)[c.key], c.time)
  {
    FiresAtPeriodPoints(Stepped(table, now)[c.key], c.time, now);
  }

  lemma RoundThenRest(table: Table, round: seq<Call>, rest: seq<Call>, now: int)
    requires AllProgress(table) && AllProgress(Stepped(table, now))
    requires IsRound(round, table, now) && Runs(rest, Stepped(table, now), now)
    ensures Runs(round + rest, table, now)
  {
    hide Fires, Round;
    var calls, next := round + rest, Stepped(table, now);
    forall c | c in rest
      ensures Due(table, c, now) && c !in round
    {
      LaterCall(table, c, now);
    }
    forall c | c in round
      ensures Due(table, c, now) && Round(table[c.key], c.time) == 0
    {
      FirstCall(table[c.key], now);
    }
    forall c | Due(table, c, now) ensures c in calls {
      FirstOrLater(table, c, now);
    }
    forall i, j | 0 <= i < j < |calls|
      ensures calls[i] != calls[j] && InTurn(table, calls[i], calls[j])
    {
      if j >= |round| {
        assert calls[j] == rest[j - |round|];
        LaterCall(table, calls[j], now);
        if i >= |round| {
          assert calls[i] == rest[i - |round|];
          LaterCall(table, calls[i], now);
        } else {
          assert calls[i] == round[i];
        }
      } else {
        assert calls[i] == round[i] && calls[j] == round[j];
      }
    }
  }

  lemma FirstCall(s: Scheduled, now: int)
    requires Progresses(s) && s.runAt <= now
    ensures Fires(s, s.runAt, now) && Round(s, s.runAt) == 0
  {
  }

  lemma FirstOrLater(table: Table, c: Call, now: int)
    requires AllProgress(table) && AllProgress(Stepped(table, now)) && Due(table, c, now)
    ensures (c.key in table && table[c.key].runAt <= now && c.time == table[c.key].runAt)
            || Due(Stepped(table, now), c, now)
  {
  }

  lemma NoRound(table: Table, now: int)
    requires AllProgress(table) && forall k :: k in table ==> table[k].runAt > now
    ensures Runs([], table, now) && Advanced(table, now) == table
  {
  }

  // ---------- the timer ----------

  type Batch = seq<(nat, Scheduled)>

  function Keys(batch: Batch): set<nat> {
    set i | 0 <= i < |batch| :: batch[i].0
  }

  // Array.prototype.sort by time: an engine may leave equal times in any order.
  function InsertByTime(f: (nat, Scheduled), batch: Batch): Batch {
    if batch == [] || f.1.runAt <= batch[0].1.runAt then [f] + batch
    else [batch[0]] + InsertByTime(f, batch[1..])
  }

  function SortByTime(batch: Batch): Batch {
    if batch == [] then [] else InsertByTime(batch[0], SortByTime(batch[1..]))
  }

  ghost predicate ByTime(batch: Batch) {
    forall i, j :: 0 <= i < j < |batch| ==> batch[i].1.runAt <= batch[j].1.runAt
  }

  // A batch takes each due timer once.
  ghost predicate TakesDue(batch: Batch, table: Table, now: int) {
    && (forall i, j :: 0 <= i < j < |batch| ==> batch[i].0 != batch[j].0)
    && (forall i :: 0 <= i < |batch| ==>
                      batch[i].0 in table && batch[i].1 == table[batch[i].0] && batch[i].1.runAt <= now)
    && (forall k :: k in table && table[k].runAt <= now ==> k in Keys(batch))
  }

  lemma {:induction false} InsertKeeps(f: (nat, Scheduled), batch: Batch)
    ensures multiset(InsertByTime(f, batch)) == multiset(batch) + multiset{f}
  {
    if batch != [] && f.1.runAt > batch[0].1.runAt {
      InsertKeeps(f, batch[1..]);
      assert batch == [batch[0]] + batch[1..];
    }
  }

  lemma {:induction false} InsertSorts(f: (nat, Scheduled), batch: Batch)
    requires ByTime(batch)
    ensures ByTime(InsertByTime(f, batch))
  {
    if batch != [] && f.1.runAt > batch[0].1.runAt {
      InsertSorts(f, batch[1..]);
      InsertKeeps(f, batch[1..]);
      MultisetOfPush(f, batch[1..]);
      PushEarliest(batch[0], InsertByTime(f, batch[1..]), batch[1..] + [f]);
    }
  }

  lemma PushEarliest(first: (nat, Scheduled), rest: Batch, same: Batch)
    requires ByTime(rest) && multiset(rest) == multiset(same)
    requires forall j :: 0 <= j < |same| ==> first.1.runAt <= same[j].1.runAt
    ensures ByTime([first] + rest)
  {
    forall j | 0 <= j < |rest| ensures first.1.runAt <= rest[j].1.runAt {
      SameElements(rest, same, rest[j]);
    }
  }

  lemma {:induction false} SortKeeps(batch: Batch)
    ensures ByTime(SortByTime(batch)) && multiset(SortByTime(batch)) == multiset(batch)
  {
    if batch != [] {
      SortKeeps(batch[1..]);
      InsertKeeps(batch[0], SortByTime(batch[1..]));
      InsertSorts(batch[0], SortByTime(batch[1..]));
      MultisetOfHead(batch);
    }
  }

  // Keys are distinct exactly when each occurs once in the multiset, so sorting keeps a batch a batch.
  lemma SortedTakesDue(batch: Batch, sorted: Batch, table: Table, now: int)
    requires TakesDue(batch, table, now) && multiset(sorted) == multiset(batch)
    ensures TakesDue(sorted, table, now)
  {
    forall i | 0 <= i < |sorted|
      ensures sorted[i].0 in table && sorted[i].1 == table[sorted[i].0] && sorted[i].1.runAt <= now
    {
      assert sorted[i] in multiset(sorted);
      assert sorted[i] in batch;
    }
    forall k | k in table && table[k].runAt <= now ensures k in Keys(sorted) {
      var i :| 0 <= i < |batch| && batch[i].0 == k;
      assert batch[i] in multiset(batch);
      assert batch[i] in sorted;
    }
    forall i, j | 0 <= i < j < |sorted| ensures sorted[i].0 != sorted[j].0 {
      if sorted[i].0 == sorted[j].0 {
        assert sorted[i] == sorted[j];
        TwiceInMultiset(sorted, i, j);
        OnceInMultiset(batch, sorted[i]);
      }
    }
  }

  lemma TwiceInMultiset<T>(s: seq<T>, i: nat, j: nat)
    requires i < j < |s| && s[i] == s[j]
    ensures multiset(s)[s[i]] >= 2
  {
    assert s == s[..j] + [s[j]] + s[j + 1..];
    assert s[..j][i] in s[..j];
  }

  lemma {:induction false} OnceInMultiset<T>(s: seq<T>, x: T)
    requires Distinct(s)
    ensures multiset(s)[x] <= 1
  {
    if s != [] {
      OnceInMultiset(s[1..], x);
      assert s == [s[0]] + s[1..];
    }
  }

  class FakeTimer {
    var timeoutsMade: nat
    var scheduledFunctions: Table
    var nowMillis: int
    var log: seq<Call>

    // At rest no live timer is due before now.
    ghost predicate Valid()
      reads this
    {
      && AllProgress(scheduledFunctions) && AllFrom(scheduledFunctions, nowMillis)
      && forall k :: k in scheduledFunctions ==> 0 < k <= timeoutsMade
    }

    constructor ()
      ensures Valid() && scheduledFunctions == map[] && nowMillis == 0 && log == []
    {
      timeoutsMade, scheduledFunctions, nowMillis, log := 0, map[], 0, [];
    }

    method SetTimeout(millis: int, clearsItself: bool) returns (key: nat)
      requires Valid()
      modifies this`timeoutsMade, this`scheduledFunctions
      ensures key !in old(scheduledFunctions) && (millis >= 0 ==> Valid())
      ensures scheduledFunctions
              == old(scheduledFunctions)[key := Scheduled(nowMillis + millis, millis, false, clearsItself)]
    {
      timeoutsMade := timeoutsMade + 1;
      ScheduleFunction(timeoutsMade, millis, false, clearsItself);
      key := timeoutsMade;
    }

    method SetInterval(millis: int, clearsItself: bool) returns (key: nat)
      requires Valid()
      modifies this`timeoutsMade, this`scheduledFunctions
      ensures key !in old(scheduledFunctions) && (millis > 0 ==> Valid())
      ensures scheduledFunctions
              == old(scheduledFunctions)[key := Scheduled(nowMillis + millis, millis, true, clearsItself)]
    {
      timeoutsMade := timeoutsMade + 1;
      ScheduleFunction(timeoutsMade, millis, true, clearsItself);
      key := timeoutsMade;
    }

    method Clear(key: nat)
      modifies this`scheduledFunctions
      ensures scheduledFunctions == old(scheduledFunctions) - {key}
      ensures old(Valid()) ==> Valid()
    {
      scheduledFunctions := scheduledFunctions - {key};
    }

    method ScheduleFunction(key: nat, millis: int, recurring: bool, clearsItself: bool)
      modifies this`scheduledFunctions
      ensures scheduledFunctions
              == old(scheduledFunctions)[key := Scheduled(nowMillis + millis, millis, recurring, clearsItself)]
    {
      scheduledFunctions := scheduledFunctions[key := Scheduled(nowMillis + millis, millis, recurring, clearsItself)];
    }

    // A clock moved backwards runs nothing.
    method Tick(millis: int)
      requires Valid()
      modifies this`scheduledFunctions, this`nowMillis, this`log
      ensures Valid() && nowMillis == old(nowMillis) + millis
      ensures scheduledFunctions == Advanced(old(scheduledFunctions), nowMillis)
      ensures old(log) <= log && Runs(log[|old(log)|..], old(scheduledFunctions), nowMillis)
    {
      var oldMillis := nowMillis;
      var newMillis := oldMillis + millis;
      RunFunctionsWithinRange(oldMillis, newMillis, oldMillis);
      AdvancedIsLater(old(scheduledFunctions), newMillis);
      nowMillis := newMillis;
    }

    // Every live timer is at low or later; a round moves each of those that are due past low.
    method RunFunctionsWithinRange(oldMillis: int, newMillis: int, ghost low: int)
      requires AllProgress(scheduledFunctions) && AllFrom(scheduledFunctions, low) && oldMillis <= low
      modifies this`scheduledFunctions, this`nowMillis, this`log
      ensures scheduledFunctions == Advanced(old(scheduledFunctions), newMillis)
      ensures old(log) <= log && Runs(log[|old(log)|..], old(scheduledFunctions), newMillis)
      decreases newMillis + 1 - low
    {
      hide Runs, Advanced, IsRound;
      ghost var table, before := scheduledFunctions, log;
      var funcsToRun := TakeDue(oldMillis, newMillis, low);
      if |funcsToRun| > 0 {
        RunBatch(funcsToRun, newMillis, table);
        SteppedAdvances(table, newMillis);
        ghost var round := log[|before|..];
        SteppedMovesOn(funcsToRun, table, newMillis, low);
        RunFunctionsWithinRange(oldMillis, newMillis, low + 1);
        ghost var rest := log[|before + round|..];
        assert log[|before|..] == round + rest;
        RoundThenRest(table, round, rest, newMillis);
      } else {
        NoRound(table, newMillis);
        assert log[|before|..] == [];
      }
    }

    method TakeDue(oldMillis: int, newMillis: int, ghost low: int) returns (funcsToRun: Batch)
      requires AllProgress(scheduledFunctions) && AllFrom(scheduledFunctions, low) && oldMillis <= low
      modifies this`scheduledFunctions
      ensures TakesDue(funcsToRun, old(scheduledFunctions), newMillis)
      ensures scheduledFunctions == old(scheduledFunctions) - Keys(funcsToRun)
    {
      ghost var table := scheduledFunctions;
      var keys := scheduledFunctions.Keys;
      funcsToRun := [];
      while keys != {}
        invariant keys <= table.Keys
        invariant scheduledFunctions == table - Keys(funcsToRun)
        invariant forall k :: k in keys ==> k !in Keys(funcsToRun)
        invariant forall i, j :: 0 <= i < j < |funcsToRun| ==> funcsToRun[i].0 != funcsToRun[j].0
        invariant forall i :: 0 <= i < |funcsToRun| ==>
                    && funcsToRun[i].0 in table && funcsToRun[i].1 == table[funcsToRun[i].0]
                    && funcsToRun[i].1.runAt <= newMillis
        invariant forall k :: k in table && k !in keys && table[k].runAt <= newMillis ==> k in Keys(funcsToRun)
      {
        var key :| key in keys;
        keys := keys - {key};
        var scheduled := scheduledFunctions[key];
        if oldMillis <= scheduled.runAt <= newMillis {
          KeysOfPush(funcsToRun, (key, scheduled));
          funcsToRun := funcsToRun + [(key, scheduled)];
          scheduledFunctions := scheduledFunctions - {key};
        }
      }
    }

    // Runs one batch in order of time.
    method RunBatch(batch: Batch, newMillis: int, ghost table: Table)
      requires AllProgress(table) && TakesDue(batch, table, newMillis)
      requires scheduledFunctions == table - Keys(batch)
      modifies this`scheduledFunctions, this`nowMillis, this`log
      ensures scheduledFunctions == Stepped(table, newMillis)
      ensures old(log) <= log && IsRound(log[|old(log)|..], table, newMillis)
    {
      hide TakesDue, Stepped, Keys, CallsOf, IsRound, SortByTime;
      var funcsToRun := SortByTime(batch);
      SortKeeps(batch);
      SortedTakesDue(batch, funcsToRun, table, newMillis);
      SameKeys(batch, funcsToRun);
      ghost var before := log;
      var i := 0;
      BatchStarts(funcsToRun, table, newMillis);
      while i < |funcsToRun|
        invariant i <= |funcsToRun|
        invariant scheduledFunctions == Stepped(table, newMillis) - Keys(funcsToRun[i..])
        invariant log == before + CallsOf(funcsToRun[..i])
      {
        var key, f := funcsToRun[i].0, funcsToRun[i].1;
        BatchStep(funcsToRun, i, table, newMillis);
        nowMillis := f.runAt;
        log := log + [Call(key, nowMillis)];
        if f.clearsItself {
          Clear(key);
        }
        if f.recurring {
          ScheduleFunction(key, f.millis, true, f.clearsItself);
        }
        i := i + 1;
      }
      BatchEnds(funcsToRun, table, newMillis);
      assert log[|before|..] == CallsOf(funcsToRun);
    }
  }

  lemma KeysOfPush(batch: Batch, f: (nat, Scheduled))
    ensures Keys(batch + [f]) == Keys(batch) + {f.0}
  {
    var all := batch + [f];
    assert all[|batch|] == f;
    forall k | k in Keys(batch) ensures k in Keys(all) {
      var i :| 0 <= i < |batch| && batch[i].0 == k;
      assert all[i].0 == k;
    }
  }

  lemma SameKeys(batch: Batch, sorted: Batch)
    requires multiset(batch) == multiset(sorted)
    ensures Keys(batch) == Keys(sorted)
  {
    forall k ensures k in Keys(batch) <==> k in Keys(sorted) {
      if k in Keys(batch) {
        var i :| 0 <= i < |batch| && batch[i].0 == k;
        assert batch[i] in multiset(sorted);
      }
      if k in Keys(sorted) {
        var i :| 0 <= i < |sorted| && sorted[i].0 == k;
        assert sorted[i] in multiset(batch);
      }
    }
  }

  function CallsOf(batch: Batch): seq<Call> {
    seq(|batch|, i requires 0 <= i < |batch| => Call(batch[i].0, batch[i].1.runAt))
  }

  lemma BatchStarts(batch: Batch, table: Table, now: int)
    requires TakesDue(batch, table, now)
    ensures table - Keys(batch) == Stepped(table, now) - Keys(batch[0..])
    ensures CallsOf(batch[..0]) == []
  {
    assert batch[0..] == batch;
  }

  lemma BatchStep(batch: Batch, i: nat, table: Table, now: int)
    requires TakesDue(batch, table, now) && i < |batch|
    ensures CallsOf(batch[..i + 1]) == CallsOf(batch[..i]) + [Call(batch[i].0, batch[i].1.runAt)]
    ensures var key, f := batch[i].0, batch[i].1;
            var here := Stepped(table, now) - Keys(batch[i..]);
            && here - {key} == here
            && Stepped(table, now) - Keys(batch[i + 1..]) == if f.recurring then here[key := Next(f)] else here
  {
    KeysOfDrop(batch, i);
    assert forall j :: i < j < |batch| ==> batch[j].0 != batch[i].0;
    assert batch[i].0 !in Keys(batch[i + 1..]);
  }

  lemma KeysOfDrop(batch: Batch, i: nat)
    requires i < |batch|
    ensures Keys(batch[i..]) == {batch[i].0} + Keys(batch[i + 1..])
  {
    var tail := batch[i + 1..];
    assert batch[i..][0] == batch[i];
    forall k | k in Keys(tail) ensures k in Keys(batch[i..]) {
      var j :| 0 <= j < |tail| && tail[j].0 == k;
      assert batch[i..][j + 1].0 == k;
    }
    forall k | k in Keys(batch[i..]) && k != batch[i].0 ensures k in Keys(tail) {
      var j :| 0 <= j < |batch[i..]| && batch[i..][j].0 == k;
      assert tail[j - 1].0 == k;
    }
  }

  lemma BatchEnds(batch: Batch, table: Table, now: int)
    requires TakesDue(batch, table, now) && ByTime(batch)
    ensures Keys(batch[|batch|..]) == {} && batch[..|batch|] == batch
    ensures IsRound(CallsOf(batch), table, now)
  {
    var calls := CallsOf(batch);
    forall c ensures c in calls <==> c.key in table && table[c.key].runAt <= now && c.time == table[c.key].runAt {
      if c.key in table && table[c.key].runAt <= now && c.time == table[c.key].runAt {
        var i :| 0 <= i < |batch| && batch[i].0 == c.key;
        assert calls[i] == c;
      }
    }
  }

  lemma AdvancedIsLater(table: Table, now: int)
    requires AllProgress(table)
    ensures AllProgress(Advanced(table, now)) && AllFrom(Advanced(table, now), now + 1)
  {
    forall k | k in Advanced(table, now)
      ensures Progresses(Advanced(table, now)[k]) && Advanced(table, now)[k].runAt > now
    {
      LeftIsLater(table[k], now);
    }
  }

  // ---------- what the runs mean together ----------

  // Two ticks on one timer, one long tick on another in the same state: the same timers are left at
  // the same time, and the same calls were made.
  method TickTwice(one: FakeTimer, other: FakeTimer, a: int, b: int)
    requires one != other && one.Valid() && other.Valid() && a >= 0 && b >= 0
    requires one.scheduledFunctions == other.scheduledFunctions && one.nowMillis == other.nowMillis
    requires one.log == other.log
    modifies one`scheduledFunctions, one`nowMillis, one`log, other`scheduledFunctions, other`nowMillis, other`log
    ensures one.Valid() && other.Valid()
    ensures one.scheduledFunctions == other.scheduledFunctions && one.nowMillis == other.nowMillis
    ensures multiset(one.log) == multiset(other.log)
  {
    hide Advanced, InTurn, Due;
    ghost var table, before, now := one.scheduledFunctions, one.log, one.nowMillis;
    one.Tick(a);
    ghost var first := one.log[|before|..];
    one.Tick(b);
    ghost var second := one.log[|before + first|..];
    other.Tick(a + b);
    ghost var all := other.log[|before|..];
    TicksAdd(table, now + a, now + a + b);
    DistinctConcat(first, second);
    SameCalls(first + second, all);
    assert one.log == before + (first + second) && other.log == before + all;
  }

  lemma DistinctConcat(a: seq<Call>, b: seq<Call>)
    requires Distinct(a) && Distinct(b) && forall c :: c in a ==> c !in b
    ensures Distinct(a + b)
  {
    forall i, j | 0 <= i < j < |a + b| ensures (a + b)[i] != (a + b)[j] {
      if i < |a| <= j {
        assert (a + b)[i] == a[i] && (a + b)[j] == b[j - |a|];
        assert a[i] in a && b[j - |a|] in b;
      }
    }
  }

  lemma SameCalls(a: seq<Call>, b: seq<Call>)
    requires Distinct(a) && Distinct(b) && forall c :: c in a <==> c in b
    ensures multiset(a) == multiset(b)
  {
    forall c ensures multiset(a)[c] == multiset(b)[c] {
      OnceInMultiset(a, c);
      OnceInMultiset(b, c);
      assert c in a <==> c in multiset(a);
      assert c in b <==> c in multiset(b);
    }
  }

  // ---------- when the calls come in order of time ----------

  // The time of a timer's call after n others; a timeout has one call only.
  function NthTime(s: Scheduled, n: nat): int {
    s.runAt + n * s.millis
  }

  lemma NthTimeOfNext(s: Scheduled, n: nat)
    requires n > 0
    ensures NthTime(Next(s), n - 1) == NthTime(s, n)
  {
    assert (n - 1) * s.millis == n * s.millis - s.millis;
  }

  lemma {:induction false} LaterTimes(s: Scheduled, m: nat, n: nat)
    requires s.millis > 0 && m <= n
    ensures NthTime(s, m) <= NthTime(s, n) && (m < n ==> NthTime(s, m) < NthTime(s, n))
  {
    if m < n {
      LaterTimes(s, m, n - 1);
      NthTimeOfNext(s, n);
    }
  }

  lemma {:induction false} NthTimeFires(s: Scheduled, n: nat, now: int)
    requires Progresses(s) && (n > 0 ==> s.recurring)
    ensures Round(s, NthTime(s, n)) == n
    ensures Fires(s, NthTime(s, n), now) <==> NthTime(s, n) <= now
    decreases n
  {
    if n > 0 {
      NthTimeFires(Next(s), n - 1, now);
      NthTimeOfNext(s, n);
      LaterTimes(s, 0, n);
    }
  }

  lemma {:induction false} FiresAtNthTime(s: Scheduled, t: int, now: int)
    requires Progresses(s) && Fires(s, t, now)
    ensures t == NthTime(s, Round(s, t)) <= now && (Round(s, t) > 0 ==> s.recurring)
    decreases now - s.runAt
  {
    if t != s.runAt {
      FiresAtNthTime(Next(s), t, now);
      FiresAtPeriodPoints(Next(s), t, now);
      NthTimeOfNext(s, Round(s, t));
    } else {
      assert Round(s, t) == 0;
    }
  }

  // No timer p has its n-th time behind the next time of an interval q, both up to now.
  ghost predicate InStep(p: Scheduled, q: Scheduled, n: nat, now: int) {
    var fire := q.recurring && (n > 0 ==> p.recurring) && NthTime(p, n) <= now && NthTime(q, n + 1) <= now;
    fire ==> NthTime(p, n) <= NthTime(q, n + 1)
  }

  ghost predicate AllInStep(table: Table, now: int) {
    forall k, k', n: nat :: k in table && k' in table ==> InStep(table[k], table[k'], n, now)
  }

  // An earlier call of a lower round is earlier in time when the timers are in step.
  lemma InStepOrders(p: Scheduled, q: Scheduled, t: int, t': int, now: int)
    requires Progresses(p) && Progresses(q) && Fires(p, t, now) && Fires(q, t', now)
    requires Round(p, t) < Round(q, t') && InStep(p, q, Round(p, t), now)
    ensures t <= t'
  {
    hide Fires, Round;
    FiresAtNthTime(p, t, now);
    FiresAtNthTime(q, t', now);
    LaterTimes(q, Round(p, t) + 1, Round(q, t'));
  }

  // The calls of one run come in order of time exactly when the timers are in step: a condition on
  // their times and periods alone.
  lemma TimeOrderedExactlyWhen(calls: seq<Call>, table: Table, now: int)
    requires AllProgress(table) && Runs(calls, table, now)
    ensures (forall i, j :: 0 <= i < j < |calls| ==> calls[i].time <= calls[j].time) <==> AllInStep(table, now)
  {
    hide Fires, Round, InStep, Distinct;
    if AllInStep(table, now) {
      forall i, j | 0 <= i < j < |calls| ensures calls[i].time <= calls[j].time {
        var a, b := calls[i], calls[j];
        assert Due(table, a, now) && Due(table, b, now) && InTurn(table, a, b);
        if Round(table[a.key], a.time) < Round(table[b.key], b.time) {
          InStepOrders(table[a.key], table[b.key], a.time, b.time, now);
        }
      }
    }
    if forall i, j :: 0 <= i < j < |calls| ==> calls[i].time <= calls[j].time {
      forall k, k', n: nat | k in table && k' in table ensures InStep(table[k], table[k'], n, now) {
        OrderedInStep(calls, table, now, k, k', n);
      }
    }
  }

  lemma OrderedInStep(calls: seq<Call>, table: Table, now: int, k: nat, k': nat, n: nat)
    requires AllProgress(table) && Runs(calls, table, now) && k in table && k' in table
    requires forall i, j :: 0 <= i < j < |calls| ==> calls[i].time <= calls[j].time
    ensures InStep(table[k], table[k'], n, now)
  {
    hide Fires, Round, NthTime, Distinct;
    var p, q := table[k], table[k'];
    if q.recurring && (n > 0 ==> p.recurring) && NthTime(p, n) <= now && NthTime(q, n + 1) <= now {
      NthTimeFires(p, n, now);
      NthTimeFires(q, n + 1, now);
      var a, b := Call(k, NthTime(p, n)), Call(k', NthTime(q, n + 1));
      assert Due(table, a, now) && Due(table, b, now) && !InTurn(table, b, a);
      var i :| 0 <= i < |calls| && calls[i] == a;
      var j :| 0 <= j < |calls| && calls[j] == b;
      assert i < j;
    }
  }

  // It need not be so: an interval of 10 and a timeout of 25, ticked by 30, run at 10, 25, 20 and 30.
  lemma RunsOutOfOrder(calls: seq<Call>)
    requires Runs(calls, map[1 := Scheduled(10, 10, true, false), 2 := Scheduled(25, 25, false, false)], 30)
    ensures calls == [Call(1, 10), Call(2, 25), Call(1, 20), Call(1, 30)]
  {
    hide Fires, Round;
    var interval, timeout := Scheduled(10, 10, true, false), Scheduled(25, 25, false, false);
    var table := map[1 := interval, 2 := timeout];
    var expected := [Call(1, 10), Call(2, 25), Call(1, 20), Call(1, 30)];
    forall c ensures c in calls <==> c in expected {
      if c.key in table {
        FiresAtPeriodPoints(table[c.key], c.time, 30);
      }
    }
    SameCalls(calls, expected);
    assert |calls| == |multiset(calls)| == 4;
    assert Round(interval, 10) == 0 && Round(interval, 20) == 1 && Round(interval, 30) == 2
           && Round(timeout, 25) == 0 by {
      RoundsOfTen(interval);
    }
    FourInTurn(calls, table);
  }

  lemma RoundsOfTen(s: Scheduled)
    requires s.runAt == 10 && s.millis == 10 && s.recurring
    ensures Round(s, 10) == 0 && Round(s, 20) == 1 && Round(s, 30) == 2
    ensures Round(Scheduled(25, 25, false, false), 25) == 0
  {
    assert Round(Next(s), 20) == 0 && Round(Next(s), 30) == 1 + Round(Next(Next(s)), 30);
  }

  lemma FourInTurn(calls: seq<Call>, table: Table)
    requires AllProgress(table) && |calls| == 4 && Distinct(calls)
    requires forall c :: c in calls <==> c in [Call(1, 10), Call(2, 25), Call(1, 20), Call(1, 30)]
    requires forall i, j :: 0 <= i < j < |calls| ==> InTurn(table, calls[i], calls[j])
    requires 1 in table && 2 in table && Round(table[2], 25) == 0
    requires Round(table[1], 10) == 0 && Round(table[1], 20) == 1 && Round(table[1], 30) == 2
    ensures calls == [Call(1, 10), Call(2, 25), Call(1, 20), Call(1, 30)]
  {
    hide Round;
    assert forall i :: 0 <= i < 4 ==> calls[i] in calls;
    assert Call(1, 10) in calls && Call(2, 25) in calls && Call(1, 20) in calls && Call(1, 30) in calls;
  }

  // Clearing an interval in its own callback does not stop it: it is scheduled again afterwards.
  lemma {:induction false} ClearingItselfChangesNothing(s: Scheduled, t: int, now: int)
    requires Progresses(s)
    ensures var plain := s.(clearsItself := false);
            && (Fires(s, t, now) <==> Fires(plain, t, now))
            && (Left(s, now).Some? <==> Left(plain, now).Some?)
            && (Left(s, now).Some? ==> Left(s, now).value.runAt == Left(plain, now).value.runAt)
    decreases now - s.runAt
  {
    if s.runAt <= now && s.recurring {
      ClearingItselfChangesNothing(Next(s), t, now);
    }
  }
}
