/** The log manager's guarantees over whole runs, whatever the threads do and in whatever order. */
module Log4zRuns {
  import opened Bytes
  import opened Log4zLogger
  import opened Log4zQueue
  import opened Log4zInvariants
  import opened Log4zOwnership
  import opened Log4zSettings

  ghost predicate Invariant(s: State) {
    ConsumerOk(s) && InOrder(s) && RecordsOk(s) && CountersOk(s) && OwnedOnce(s) && PoolBounded(s) && SettingsOk(s)
  }

  lemma {:induction false} IdleOwnsNothing(ps: seq<Producer>, a: nat)
    requires forall t :: 0 <= t < |ps| ==> ps[t].Idle?
    ensures InHands(ps, a) == 0 && KeepingCount(ps) == 0
  {
    if ps != [] {
      IdleOwnsNothing(ps[..|ps| - 1], a);
    }
  }

  lemma InitInvariant(s: State)
    requires Init(s)
    ensures Invariant(s)
  {
    hide InHands, KeepingCount;
    forall a: nat
      ensures Places(s, a) == 0
    {
      IdleOwnsNothing(s.producers, a);
    }
    IdleOwnsNothing(s.producers, 0);
  }

  lemma InvariantStep(s: State, step: Step)
    requires Invariant(s) && Enabled(s, step)
    ensures Invariant(Next(s, step))
  {
    hide ConsumerOk, InOrder, RecordsOk, CountersOk, OwnedOnce, PoolBounded, SettingsOk, Enabled, Next;
    ConsumerOkStep(s, step);
    InOrderStep(s, step);
    RecordsOkStep(s, step);
    CountersStep(s, step);
    OwnedOnceStep(s, step);
    PoolBoundedStep(s, step);
    SettingsStep(s, step);
  }

  lemma {:induction false} RunInvariant(ss: seq<State>, steps: seq<Step>, k: nat)
    requires Run(ss, steps) && k < |ss|
    ensures Invariant(ss[k])
  {
    hide Invariant, Enabled, Next;
    if k == 0 {
      InitInvariant(ss[0]);
    } else {
      RunInvariant(ss, steps, k - 1);
      InvariantStep(ss[k - 1], steps[k - 1]);
    }
  }

  /** Queue conservation. In every state of every run: what was enqueued is what was popped, followed by
      the cache, followed by the queue; each live block is in one place; pushed minus popped counts the
      general records still queued; and the pool has at most 200 blocks plus one for each producer. */
  lemma QueueConservation(ss: seq<State>, steps: seq<Step>, k: nat)
    requires Run(ss, steps) && k < |ss|
    ensures var s := ss[k];
            && s.enqueued == s.popped + s.cache + s.logs
            && (forall a :: Places(s, a) == if a in s.live then 1 else 0)
            && s.pushCount - s.popCount == GeneralCount(s.logs) + GeneralCount(s.cache) + Uncounted(s)
            && s.writeCount <= s.popCount
            && |s.pool| <= 200 + |s.producers|
  {
    hide ConsumerOk, RecordsOk, SettingsOk, GeneralCount, Places, KeepingCount, Run;
    RunInvariant(ss, steps, k);
    CountersMean(ss[k]);
  }

  lemma HistoryStep(s: State, step: Step)
    requires Invariant(s) && Enabled(s, step)
    ensures s.enqueued <= Next(s, step).enqueued && s.popped <= Next(s, step).popped
  {
    hide ConsumerOk, InOrder, RecordsOk, CountersOk, OwnedOnce, PoolBounded, SettingsOk, Enabled, Next;
    InOrderStep(s, step);
  }

  lemma RunStep(ss: seq<State>, steps: seq<Step>, k: nat)
    requires Run(ss, steps) && k < |steps|
    ensures Enabled(ss[k], steps[k]) && ss[k + 1] == Next(ss[k], steps[k])
  {
    hide Enabled, Next;
  }

  /** Both histories only grow. */
  lemma {:induction false} HistoryGrows(ss: seq<State>, steps: seq<Step>, j: nat, k: nat)
    requires Run(ss, steps) && j <= k < |ss|
    ensures ss[j].enqueued <= ss[k].enqueued && ss[j].popped <= ss[k].popped
  {
    hide Invariant, Enabled, Next, Init;
    if j < k {
      HistoryGrows(ss, steps, j, k - 1);
      RunInvariant(ss, steps, k - 1);
      RunStep(ss, steps, k - 1);
      HistoryStep(ss[k - 1], steps[k - 1]);
    }
  }

  /** The test under the lock in `popLog` never finds the queue empty, and when `run` leaves its loop
      both queues are empty: every record enqueued by then has been popped, in order. */
  lemma NothingLeftAtExit(ss: seq<State>, steps: seq<Step>, k: nat)
    requires Run(ss, steps) && k < |steps|
    ensures ss[k].consumer.Swapping? ==> ss[k].logs != []
    ensures ss[k].consumer.AskEmpty? && ss[k + 1].consumer.Closing? ==>
              ss[k + 1].logs == [] && ss[k + 1].cache == [] && ss[k + 1].popped == ss[k + 1].enqueued
  {
    hide RecordsOk, CountersOk, OwnedOnce, PoolBounded, SettingsOk, ProducerStep, ImmediateStep, ProducerEnabled,
      ImmediateEnabled;
    RunInvariant(ss, steps, k);
    if IsProducerStep(steps[k]) {
      ProducerFrame(ss[k], steps[k]);
    } else if IsImmediate(steps[k]) {
      ImmediateFrame(ss[k], steps[k]);
    }
  }

  /** After each drain the files of the loggers that are switched off are closed, and all others stay as they
      are; when `run` ends, the loggers still on are switched off and their files closed. */
  lemma FilesAreClosed(s: State, step: Step, i: nat)
    requires step.Consume? && Enabled(s, step) && i < |s.loggers|
    ensures s.consumer.Drained? ==>
              Next(s, step).loggers[i] == if s.loggers[i].enable then s.loggers[i] else s.loggers[i].(handle := None)
    ensures s.consumer.Closing? ==>
              Next(s, step).loggers[i]
              == if s.loggers[i].enable then s.loggers[i].(enable := false, handle := None) else s.loggers[i]
  {
    hide Popped, ProcessStep, OutputStep, ReleaseStep;
  }

  /** Out of the loop of `run`. */
  predicate LoopLeft(s: State) {
    s.consumer.Closing? || s.consumer.Exited?
  }

  lemma LoopLeftStep(s: State, step: Step)
    requires LoopLeft(s) && Enabled(s, step)
    ensures LoopLeft(Next(s, step)) && Next(s, step).cache == s.cache && Next(s, step).popped == s.popped
  {
    hide ProducerStep, ImmediateStep, ProducerEnabled, ImmediateEnabled;
    if IsProducerStep(step) {
      ProducerFrame(s, step);
    } else if IsImmediate(step) {
      ImmediateFrame(s, step);
    }
  }

  /** A thread that saw the manager running may push after that. Such records stay: from then on, exactly
      the records enqueued before `run` left its loop have been popped, and all later ones are still in
      the queue. */
  lemma {:induction false} LateRecordsStay(ss: seq<State>, steps: seq<Step>, k: nat, j: nat)
    requires Run(ss, steps) && k < |steps| && ss[k].consumer.AskEmpty? && ss[k + 1].consumer.Closing?
    requires k < j < |ss|
    ensures var n := |ss[k + 1].enqueued|;
            && n <= |ss[j].enqueued| && LoopLeft(ss[j]) && ss[j].cache == []
            && ss[j].popped == ss[j].enqueued[..n] && ss[j].logs == ss[j].enqueued[n..]
    decreases j
  {
    hide Enabled, Next, ConsumerOk, RecordsOk, CountersOk, OwnedOnce, PoolBounded, SettingsOk, Init;
    RunInvariant(ss, steps, j);
    if j == k + 1 {
      NothingLeftAtExit(ss, steps, k);
    } else {
      LateRecordsStay(ss, steps, k, j - 1);
      RunStep(ss, steps, j - 1);
      LoopLeftStep(ss[j - 1], steps[j - 1]);
      HistoryGrows(ss, steps, k + 1, j);
    }
  }

  lemma KeptIs(l: LoggerInfo, r: LogData)
    ensures Discards(l, r) <==> !l.enable || r.level < l.level
  {
  }

  /** Settings follow queue order. While no change has bypassed the queue since the start and no open has
      failed, the record being shown or written is the last one popped, its logger has the initial
      settings plus exactly the changes enqueued before it, no logger is discarding it, every open file
      is the one its logger's settings ask for, and none that was within its limit when it was opened
      has grown past the limit by more than 8191 bytes. */
  lemma SettingsFollowQueueOrder(ss: seq<State>, steps: seq<Step>, k: nat)
    requires Run(ss, steps) && k < |ss| && ss[k].clean && ss[k].consumer.Outputting?
    ensures var s, r := ss[k], ss[k].consumer.p;
            var n := |s.popped|;
            && 0 < n <= |s.enqueued| && s.enqueued[n - 1] == r && ValidId(s, r.id) && |s.base| == |s.loggers|
            && LastChangesCount(s.base[r.id], s.loggers[r.id].settings, r.id, s.enqueued[..n - 1])
            && s.loggers[r.id].enable && r.level >= s.loggers[r.id].level
            && forall i :: 0 <= i < |s.loggers| ==> FileMatches(s.loggers[i]) && WithinLimit(s.loggers[i])
  {
    hide CountersOk, OwnedOnce, PoolBounded, SettingsAfter, Discards, FileMatches, WithinLimit, Run, ProducerOk,
      LastChangesCount;
    var s, n := ss[k], |ss[k].popped|;
    RunInvariant(ss, steps, k);
    InHandIsValid(s);
    var r := s.consumer.p;
    assert s.popped[..n - 1] + [r] == s.popped;
    assert s.enqueued[..n - 1] == s.popped[..n - 1];
    SettingsAfterOne(s.base[r.id], r.id, s.popped[..n - 1], r);
    SettingsAreLastChanges(s.base[r.id], r.id, s.enqueued[..n - 1]);
    KeptIs(s.loggers[r.id], r);
  }

  /** In every clean state of a run, whatever the threads are doing, each logger has the settings of the
      changes applied so far, each open file carries its logger's current name, path and month directory,
      and none that was within its limit when it was opened has grown past it by more than 8191 bytes. */
  lemma FilesStayCurrent(ss: seq<State>, steps: seq<Step>, k: nat, i: nat)
    requires Run(ss, steps) && k < |ss| && ss[k].clean && i < |ss[k].loggers|
    ensures var s, l := ss[k], ss[k].loggers[i];
            && |s.base| == |s.loggers| && LastChangesCount(s.base[i], l.settings, i, Applied(s))
            && FileMatches(l) && WithinLimit(l)
  {
    hide ConsumerOk, InOrder, RecordsOk, CountersOk, OwnedOnce, PoolBounded, SettingsAfter, Applied, FileMatches,
      WithinLimit, Run, LastChangesCount;
    RunInvariant(ss, steps, k);
    SettingsAreLastChanges(ss[k].base[i], i, Applied(ss[k]));
  }
}
