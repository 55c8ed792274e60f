/** The bound on the pool of free blocks is attained: a run that ends with 200 blocks and one more for
    each producer. */
module Log4zPool {
  import opened Bytes
  import opened Log4zLogger
  import opened Log4zQueue

  // ---- Reachability ----

  ghost predicate CanRun(s: State, steps: seq<Step>)
    decreases |steps|
  {
    steps == [] || (Enabled(s, steps[0]) && CanRun(Next(s, steps[0]), steps[1..]))
  }

  ghost function Final(s: State, steps: seq<Step>): State
    requires CanRun(s, steps)
    decreases |steps|
  {
    if steps == [] then s else Final(Next(s, steps[0]), steps[1..])
  }

  ghost predicate Reach(s: State, s': State) {
    exists steps :: CanRun(s, steps) && Final(s, steps) == s'
  }

  lemma ReachSelf(s: State)
    ensures Reach(s, s)
  {
    assert CanRun(s, []) && Final(s, []) == s;
  }

  lemma {:induction false} RunAppend(s: State, steps: seq<Step>, step: Step)
    requires CanRun(s, steps) && Enabled(Final(s, steps), step)
    ensures CanRun(s, steps + [step]) && Final(s, steps + [step]) == Next(Final(s, steps), step)
    decreases |steps|
  {
    hide Enabled, Next;
    var all := steps + [step];
    if steps == [] {
      assert all[1..] == [];
    } else {
      assert all[1..] == steps[1..] + [step];
      RunAppend(Next(s, steps[0]), steps[1..], step);
    }
  }

  lemma ReachStep(s: State, s': State, step: Step)
    requires Reach(s, s') && Enabled(s', step)
    ensures Reach(s, Next(s', step))
  {
    hide Enabled, Next;
    var steps :| CanRun(s, steps) && Final(s, steps) == s';
    RunAppend(s, steps, step);
  }

  /** What can be reached from a start is the end of a run. */
  lemma {:induction false} StatesOf(s: State, steps: seq<Step>) returns (ss: seq<State>)
    requires CanRun(s, steps)
    ensures |ss| == |steps| + 1 && ss[0] == s && ss[|steps|] == Final(s, steps)
    ensures forall k :: 0 <= k < |steps| ==> Enabled(ss[k], steps[k]) && ss[k + 1] == Next(ss[k], steps[k])
    decreases |steps|
  {
    hide Enabled, Next;
    if steps == [] {
      ss := [s];
    } else {
      var rest := StatesOf(Next(s, steps[0]), steps[1..]);
      ss := [s] + rest;
    }
  }

  // ---- Shapes of the states on the way ----

  const TIME: Midnight := x => x

  const CONSUME: Step := Consume(TIME, None)

  /** A change that names an existing logger. */
  predicate IsChange(s: State, r: LogData) {
    r.kind != General && ValidId(s, r.id)
  }

  ghost predicate AllChanges(s: State, rs: seq<LogData>) {
    forall k :: 0 <= k < |rs| ==> IsChange(s, rs[k])
  }

  /** Running, with the first `f` producers about to free a block, the others idle, `k` blocks pooled and
      `q` changes waiting. */
  ghost predicate Ready(s: State, f: nat, k: nat, q: nat) {
    && s.running && s.consumer.Looking? && |s.loggers| > 0
    && f <= |s.producers| && |s.pool| == k && |s.cache| + |s.logs| == q
    && AllChanges(s, s.cache) && AllChanges(s, s.logs)
    && (forall t :: 0 <= t < f ==> s.producers[t].Freeing?)
    && (forall t :: f <= t < |s.producers| ==> s.producers[t].Idle?)
  }

  /** An address that is not live. */
  lemma {:induction false} FreshAddress(live: set<nat>) returns (a: nat)
    ensures a !in live && forall b :: b in live ==> b < a
    decreases |live|
  {
    if live == {} {
      a := 0;
    } else {
      var x :| x in live;
      var above := FreshAddress(live - {x});
      a := if above > x then above else x + 1;
      assert forall b :: b in live ==> b == x || b in live - {x};
    }
  }

  const CHANGE: LogData := LogData(0, 0, 0, SetDisplay, 0, 0, [])
  const NOBODYS: LogData := LogData(0, -1, 0, General, 0, 0, [])

  /** Idle producer `t` takes a new block, the pool being empty, and fills it in. */
  lemma MakeRecord(s0: State, s: State, t: nat, draft: LogData) returns (s': State, r: LogData)
    requires Reach(s0, s) && t < |s.producers| && s.producers[t].Idle? && s.pool == [] && CanBegin(s, draft)
    ensures Reach(s0, s')
    ensures r == draft.(address := r.address) && s' == s.(live := s'.live, producers := s.producers[t := Holding(r)])
  {
    hide Reach, CanBegin;
    var s1 := Next(s, Begin(t, draft));
    ReachStep(s0, s, Begin(t, draft));
    var s2 := Next(s1, Peek(t));
    ReachStep(s0, s1, Peek(t));
    var a := FreshAddress(s.live);
    s' := Next(s2, Allocate(t, a));
    ReachStep(s0, s2, Allocate(t, a));
    r := draft.(address := a);
    assert s'.producers == s.producers[t := Holding(r)];
  }

  /** The first producer puts a change in the queue. */
  lemma Queue(s0: State, s: State, q: nat) returns (s': State)
    requires Reach(s0, s) && Ready(s, 0, 0, q) && |s.producers| > 0
    ensures Reach(s0, s') && Ready(s', 0, 0, q + 1) && |s'.producers| == |s.producers|
  {
    hide Reach;
    var s1, r := MakeRecord(s0, s, 0, CHANGE);
    var s2 := Next(s1, SeeRunning(0));
    ReachStep(s0, s1, SeeRunning(0));
    s' := Next(s2, Push(0));
    ReachStep(s0, s2, Push(0));
  }

  /** Producer `f` makes a record for a logger that does not exist. */
  lemma Refuse(s0: State, s: State, f: nat, q: nat) returns (s': State)
    requires Reach(s0, s) && Ready(s, f, 0, q) && f < |s.producers|
    ensures Reach(s0, s') && Ready(s', f + 1, 0, q) && |s'.producers| == |s.producers|
  {
    hide Reach;
    var s1, r := MakeRecord(s0, s, f, NOBODYS);
    s' := Next(s1, SeeRunning(f));
    ReachStep(s0, s1, SeeRunning(f));
  }

  /** The consumer takes the oldest change from queue or cache. */
  lemma PopChange(s0: State, s: State, f: nat, k: nat, q: nat) returns (s': State)
    requires Reach(s0, s) && Ready(s, f, k, q) && q > 0
    ensures Reach(s0, s') && s'.consumer.Processing? && IsChange(s', s'.consumer.p)
    ensures Ready(s'.(consumer := Looking), f, k, q - 1) && |s'.producers| == |s.producers|
  {
    hide Reach;
    if s.cache != [] {
      s' := Next(s, CONSUME);
      ReachStep(s0, s, CONSUME);
    } else {
      var s1 := Next(s, CONSUME);
      ReachStep(s0, s, CONSUME);
      s' := Next(s1, CONSUME);
      ReachStep(s0, s1, CONSUME);
    }
  }

  /** A change is made, and its block is about to be freed. */
  lemma MakeChange(s0: State, s: State, f: nat, k: nat, q: nat) returns (s': State)
    requires Reach(s0, s) && s.consumer.Processing? && IsChange(s, s.consumer.p)
      && Ready(s.(consumer := Looking), f, k, q)
    ensures Reach(s0, s') && s'.consumer == Releasing(s.consumer.p)
    ensures Ready(s'.(consumer := Looking), f, k, q) && |s'.producers| == |s.producers|
  {
    hide Reach, Reconfigured;
    s' := Next(s, CONSUME);
    ReachStep(s0, s, CONSUME);
  }

  /** A change leaves the queue and its block goes into the pool. */
  lemma Recycle(s0: State, s: State, f: nat, k: nat, q: nat) returns (s': State)
    requires Reach(s0, s) && Ready(s, f, k, q) && q > 0 && k < POOL_SIZE
    ensures Reach(s0, s') && Ready(s', f, k + 1, q - 1) && |s'.producers| == |s.producers|
  {
    hide Reach, Next;
    var s1 := PopChange(s0, s, f, k, q);
    var s2 := MakeChange(s0, s1, f, k, q - 1);
    Released(s2, f, k, q - 1);
    var s3 := Next(s2, CONSUME);
    ReachStep(s0, s2, CONSUME);
    s' := Next(s3, CONSUME);
    ReachStep(s0, s3, CONSUME);
  }

  lemma Released(s: State, f: nat, k: nat, q: nat)
    requires s.consumer.Releasing? && Ready(s.(consumer := Looking), f, k, q) && k < POOL_SIZE
    ensures var s1 := Next(s, CONSUME);
            && s1 == s.(consumer := Returning(s.consumer.p))
            && Enabled(s1, CONSUME) && Ready(Next(s1, CONSUME), f, k + 1, q)
            && Next(s1, CONSUME).producers == s.producers
  {
  }

  // ---- The four parts of the run ----

  lemma {:induction false} QueueUp(s0: State, s: State, q: nat, n: nat) returns (s': State)
    requires Reach(s0, s) && Ready(s, 0, 0, q) && |s.producers| > 0
    ensures Reach(s0, s') && Ready(s', 0, 0, q + n) && |s'.producers| == |s.producers|
    decreases n
  {
    hide Reach, Ready;
    if n == 0 {
      s' := s;
    } else {
      var s1 := Queue(s0, s, q);
      s' := QueueUp(s0, s1, q + 1, n - 1);
    }
  }

  lemma {:induction false} RefuseAll(s0: State, s: State, f: nat, q: nat) returns (s': State)
    requires Reach(s0, s) && Ready(s, f, 0, q) && f <= |s.producers|
    ensures Reach(s0, s') && Ready(s', |s'.producers|, 0, q) && |s'.producers| == |s.producers|
    decreases |s.producers| - f
  {
    hide Reach, Ready;
    if f == |s.producers| {
      s' := s;
    } else {
      var s1 := Refuse(s0, s, f, q);
      s' := RefuseAll(s0, s1, f + 1, q);
    }
  }

  lemma {:induction false} RecycleMany(s0: State, s: State, f: nat, k: nat, q: nat, n: nat) returns (s': State)
    requires Reach(s0, s) && Ready(s, f, k, q) && n <= q && k + n <= POOL_SIZE
    ensures Reach(s0, s') && Ready(s', f, k + n, q - n) && |s'.producers| == |s.producers|
    decreases n
  {
    hide Reach, Ready;
    if n == 0 {
      s' := s;
    } else {
      var s1 := Recycle(s0, s, f, k, q);
      s' := RecycleMany(s0, s1, f, k + 1, q - 1, n - 1);
    }
  }

  /** One block short of full: everyone has a block to free, and sees room for it. */
  ghost predicate Crowd(s: State, measured: nat, kept: nat) {
    && s.consumer.Returning? && kept <= measured <= |s.producers|
    && |s.pool| == POOL_SIZE - 1 + kept
    && (kept > 0 ==> measured == |s.producers|)
    && (forall t :: 0 <= t < kept ==> s.producers[t].Idle?)
    && (forall t :: kept <= t < measured ==> s.producers[t].Keeping?)
    && (forall t :: measured <= t < |s.producers| ==> s.producers[t].Freeing?)
  }

  lemma {:induction false} MeasureAll(s0: State, s: State, i: nat) returns (s': State)
    requires Reach(s0, s) && Crowd(s, i, 0)
    ensures Reach(s0, s') && Crowd(s', |s'.producers|, 0) && |s'.producers| == |s.producers|
    decreases |s.producers| - i
  {
    hide Reach;
    if i == |s.producers| {
      s' := s;
    } else {
      var s1 := Next(s, Measure(i));
      ReachStep(s0, s, Measure(i));
      s' := MeasureAll(s0, s1, i + 1);
    }
  }

  lemma {:induction false} KeepAll(s0: State, s: State, i: nat) returns (s': State)
    requires Reach(s0, s) && Crowd(s, |s.producers|, i)
    ensures Reach(s0, s') && Crowd(s', |s'.producers|, |s'.producers|) && |s'.producers| == |s.producers|
    decreases |s.producers| - i
  {
    hide Reach;
    if i == |s.producers| {
      s' := s;
    } else {
      var s1 := Next(s, Keep(i));
      ReachStep(s0, s, Keep(i));
      s' := KeepAll(s0, s1, i + 1);
    }
  }

  /** From 199 blocks and one change waiting, the consumer and all producers free a block at once. */
  lemma FreeAtOnce(s0: State, s: State) returns (s': State)
    requires Reach(s0, s) && Ready(s, |s.producers|, POOL_SIZE - 1, 1)
    ensures Reach(s0, s') && |s'.pool| == POOL_SIZE + |s.producers|
  {
    hide Reach, Next;
    var n := |s.producers|;
    var s1 := PopChange(s0, s, n, POOL_SIZE - 1, 1);
    var s2 := MakeChange(s0, s1, n, POOL_SIZE - 1, 0);
    Released(s2, n, POOL_SIZE - 1, 0);
    var s3 := Next(s2, CONSUME);
    ReachStep(s0, s2, CONSUME);
    var s4 := MeasureAll(s0, s3, 0);
    var s5 := KeepAll(s0, s4, 0);
    LastReturn(s5);
    s' := Next(s5, CONSUME);
    ReachStep(s0, s5, CONSUME);
  }

  lemma LastReturn(s: State)
    requires Crowd(s, |s.producers|, |s.producers|)
    ensures Enabled(s, CONSUME) && |Next(s, CONSUME).pool| == POOL_SIZE + |s.producers|
  {
  }

  lemma Started(s: State)
    requires Init(s) && |s.loggers| > 0
    ensures Enabled(s, CONSUME) && Ready(Next(s, CONSUME), 0, 0, 0) && Next(s, CONSUME).producers == s.producers
  {
  }

  /** However the manager is set up, with at least one producer and one logger, some run ends with 200
      blocks in the pool and one more for each producer. */
  lemma PoolBoundIsAttained(s: State) returns (ss: seq<State>, steps: seq<Step>)
    requires Init(s) && |s.loggers| > 0 && |s.producers| > 0
    ensures Run(ss, steps) && ss[0] == s && |ss[|steps|].pool| == 200 + |s.producers|
  {
    hide Enabled, Next, Init, Ready;
    ReachSelf(s);
    Started(s);
    var s1 := Next(s, CONSUME);
    ReachStep(s, s, CONSUME);
    var s2 := QueueUp(s, s1, 0, POOL_SIZE);
    var s3 := RefuseAll(s, s2, 0, POOL_SIZE);
    var s4 := RecycleMany(s, s3, |s3.producers|, 0, POOL_SIZE, POOL_SIZE - 1);
    var s5 := FreeAtOnce(s, s4);
    steps :| CanRun(s, steps) && Final(s, steps) == s5;
    ss := StatesOf(s, steps);
  }
}
