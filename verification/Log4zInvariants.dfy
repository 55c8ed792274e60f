/** What every interleaving of the log manager's threads keeps. */
module Log4zInvariants {
  import opened Log4zLogger
  import opened Log4zQueue

  // ---- What each kind of step leaves alone ----

  lemma DirectFrame(s: State, p: Producer)
    requires p.Direct?
    ensures var s' := ApplyDirectly(s, p);
            && |s'.loggers| == |s.loggers|
            && s' == s.(loggers := s'.loggers, base := s'.base, clean := s'.clean)
  {
    hide HotChanged;
  }

  lemma SharedFrame(s: State, step: Step)
    requires IsProducerStep(step) && ProducerEnabled(s, step)
    ensures var s' := SharedStep(s, step);
            && s'.producers == s.producers && |s'.loggers| == |s.loggers|
            && s'.cache == s.cache && s'.popped == s.popped && s'.consumer == s.consumer && s'.running == s.running
            && s'.popCount == s.popCount && s'.writeCount == s.writeCount
            && (!step.ApplyDirect? ==> s'.loggers == s.loggers && s'.base == s.base && s'.clean == s.clean)
            && (if step.Push? then s' == Enqueue(s, s.producers[step.t].r)
                else s'.logs == s.logs && s'.enqueued == s.enqueued && s'.pushCount == s.pushCount)
  {
    hide ApplyDirectly, CanBegin;
    if step.ApplyDirect? {
      DirectFrame(s, s.producers[step.t]);
    }
  }

  lemma ProducerFrame(s: State, step: Step)
    requires IsProducerStep(step) && Enabled(s, step)
    ensures var s', t := Next(s, step), step.t;
            && t < |s.producers| && |s'.producers| == |s.producers| && |s'.loggers| == |s.loggers|
            && s'.producers == s.producers[t := NewProducer(s, step)]
            && s'.cache == s.cache && s'.popped == s.popped && s'.consumer == s.consumer && s'.running == s.running
            && s'.popCount == s.popCount && s'.writeCount == s.writeCount
            && (!step.ApplyDirect? ==> s'.loggers == s.loggers && s'.base == s.base && s'.clean == s.clean)
            && (step.Push? ==>
                  var r := s.producers[t].r;
                  && s'.logs == s.logs + [r] && s'.enqueued == s.enqueued + [r]
                  && s'.pushCount == s.pushCount + OneIfGeneral(r))
            && (!step.Push? ==>
                  s'.logs == s.logs && s'.enqueued == s.enqueued && s'.pushCount == s.pushCount)
  {
    hide SharedStep, NewProducer, CanBegin;
    SharedFrame(s, step);
  }

  /** A state as far as queues, pool and producers go. */
  predicate SameQueues(s: State, s': State) {
    && s'.producers == s.producers && s'.enqueued == s.enqueued && s'.pushCount == s.pushCount
    && s'.popped == s.popped && s'.cache == s.cache && s'.logs == s.logs
  }

  lemma ProcessFrame(s: State, r: LogData)
    ensures var s' := ProcessStep(s, r);
            && SameQueues(s, s') && s'.pool == s.pool && s'.live == s.live && |s'.loggers| == |s.loggers|
              && s'.base == s.base
            && (s'.consumer == Releasing(r) || (s'.consumer == Outputting(r) && r.kind == General))
  {
    hide HotChanged, Discards;
  }

  lemma OutputFrame(s: State, r: LogData, midnight: Midnight, open: OpenResult)
    ensures var s' := OutputStep(s, r, midnight, open);
            && SameQueues(s, s') && s'.pool == s.pool && s'.live == s.live && |s'.loggers| == |s.loggers|
              && s'.base == s.base
            && s'.consumer == Releasing(r)
  {
    hide Output;
  }

  lemma PoppedFrame(s: State)
    requires s.cache != []
    ensures var s' := Popped(s);
            && s'.producers == s.producers && s'.enqueued == s.enqueued && s'.pushCount == s.pushCount
            && s'.popped == s.popped + [s.cache[0]] && s'.cache == s.cache[1..] && s'.logs == s.logs
            && s'.loggers == s.loggers && s'.pool == s.pool && s'.base == s.base
            && (s'.consumer == Processing(s.cache[0]) || s'.consumer == Releasing(s.cache[0]))
  {
  }

  lemma ImmediateFrame(s: State, step: Step)
    requires IsImmediate(step) && Enabled(s, step)
    ensures var s' := Next(s, step);
            && SameQueues(s, s') && s'.pool == s.pool && s'.live == s.live && s'.consumer == s.consumer
            && s'.popCount == s.popCount && s'.writeCount == s.writeCount && s'.clean == s.clean
            && |s'.loggers| >= |s.loggers|
  {
  }

  lemma ConsumerFrame(s: State, midnight: Midnight, open: OpenResult)
    ensures var s' := ConsumerStep(s, midnight, open);
            && s'.producers == s.producers && s'.enqueued == s.enqueued && s'.pushCount == s.pushCount
            && |s'.loggers| == |s.loggers| && s'.base == s.base
            && (!s.consumer.Looking? && !s.consumer.Swapping? ==> SameQueues(s, s'))
  {
    hide ProcessStep, OutputStep, Popped, CloseIf, ValidId;
    match s.consumer {
      case Processing(p) => ProcessFrame(s, p);
      case Outputting(p) => OutputFrame(s, p, midnight, open);
      case Looking =>
        if s.cache != [] {
          PoppedFrame(s);
        }
      case Swapping =>
        if s.logs != [] {
          PoppedFrame(s.(cache := s.logs, logs := s.cache));
        }
      case _ =>
    }
  }

  // ---- Where the consumer stands ----

  /** In `popLog` the second test under the lock never fails, and the cache is empty whenever the
      consumer is not in the middle of draining it. */
  ghost predicate ConsumerOk(s: State) {
    match s.consumer
    case NotStarted => s.cache == [] && s.popped == []
    case Looking => true
    case Swapping => s.cache == [] && s.logs != []
    case Processing(p) => s.popped != [] && p == s.popped[|s.popped| - 1]
    case Outputting(p) => s.popped != [] && p == s.popped[|s.popped| - 1] && p.kind == General
    case Releasing(_) => true
    case Returning(_) => true
    case _ => s.cache == []
  }

  lemma ConsumerOkStep(s: State, step: Step)
    requires ConsumerOk(s) && Enabled(s, step)
    ensures ConsumerOk(Next(s, step))
  {
    hide ProducerStep, NewProducer, ConsumerStep, ImmediateStep;
    if IsProducerStep(step) {
      ProducerFrame(s, step);
    } else if IsImmediate(step) {
      ImmediateFrame(s, step);
    } else {
      ConsumerMoves(s, step.midnight, step.open);
    }
  }

  lemma ConsumerMoves(s: State, midnight: Midnight, open: OpenResult)
    requires ConsumerOk(s)
    ensures ConsumerOk(ConsumerStep(s, midnight, open))
  {
    hide Popped, ProcessStep, OutputStep, CloseIf, ValidId;
    match s.consumer {
      case Processing(p) => ProcessFrame(s, p);
      case Outputting(p) => OutputFrame(s, p, midnight, open);
      case Looking =>
        if s.cache != [] {
          PoppedFrame(s);
        }
      case Swapping => PoppedFrame(s.(cache := s.logs, logs := s.cache));
      case _ =>
    }
  }

  // ---- Order: nothing is lost, invented or reordered ----

  ghost predicate InOrder(s: State) {
    s.enqueued == s.popped + s.cache + s.logs
  }

  lemma HeadTail(a: seq<LogData>, b: seq<LogData>)
    requires b != []
    ensures a + b == a + [b[0]] + b[1..]
  {
  }

  lemma InOrderStep(s: State, step: Step)
    requires ConsumerOk(s) && InOrder(s) && Enabled(s, step)
    ensures InOrder(Next(s, step))
    ensures s.enqueued <= Next(s, step).enqueued && s.popped <= Next(s, step).popped
  {
    hide ProducerStep, ConsumerStep, ImmediateStep;
    if IsProducerStep(step) {
      ProducerInOrder(s, step);
    } else if IsImmediate(step) {
      ImmediateFrame(s, step);
    } else if s.consumer.Looking? || s.consumer.Swapping? {
      PopInOrder(s, step.midnight, step.open);
    } else {
      ConsumerFrame(s, step.midnight, step.open);
    }
  }

  lemma ProducerInOrder(s: State, step: Step)
    requires IsProducerStep(step) && InOrder(s) && Enabled(s, step)
    ensures InOrder(Next(s, step))
    ensures s.enqueued <= Next(s, step).enqueued && s.popped == Next(s, step).popped
  {
    hide Next, NewProducer;
    ProducerFrame(s, step);
    if step.Push? {
      var r := s.producers[step.t].r;
      assert s.popped + s.cache + (s.logs + [r]) == s.popped + s.cache + s.logs + [r];
    }
  }

  lemma PopInOrder(s: State, midnight: Midnight, open: OpenResult)
    requires ConsumerOk(s) && InOrder(s) && (s.consumer.Looking? || s.consumer.Swapping?)
    ensures var s' := ConsumerStep(s, midnight, open);
            InOrder(s') && s.enqueued == s'.enqueued && s.popped <= s'.popped
  {
    hide Popped, ValidId;
    if s.consumer.Looking? {
      if s.cache != [] {
        HeadTail(s.popped, s.cache);
        PoppedFrame(s);
      }
    } else {
      HeadTail(s.popped, s.logs);
      PoppedFrame(s.(cache := s.logs, logs := s.cache));
      assert s.popped + [] == s.popped;
      assert s.popped + [s.logs[0]] + s.logs[1..] + [] == s.popped + [s.logs[0]] + s.logs[1..];
    }
  }

  // ---- Records: each names an existing logger and fits the buffer ----

  /** A record fit for the queue: its logger exists and its text fits the buffer. */
  predicate QueueOk(s: State, r: LogData) {
    ValidId(s, r.id) && |r.content| < LOG_BUF_SIZE
  }

  predicate RecordOk(s: State, r: LogData) {
    r.kind == General || QueueOk(s, r)
  }

  predicate ProducerOk(s: State, p: Producer) {
    match p
    case Idle => true
    case Asking(d) => RecordOk(s, d)
    case Making(_, d) => RecordOk(s, d)
    case Pushing(r) => QueueOk(s, r)
    case Holding(r) => RecordOk(s, r)
    case Admitted(r) => ValidId(s, r.id)
    case Permitted(r) => ValidId(s, r.id)
    case Freeing(_) => true
    case Keeping(_) => true
    case Direct(id, _, _, _) => ValidId(s, id)
  }

  ghost predicate RecordsOk(s: State) {
    && (forall t :: 0 <= t < |s.producers| ==> ProducerOk(s, s.producers[t]))
    && (forall k :: 0 <= k < |s.enqueued| ==> QueueOk(s, s.enqueued[k]))
  }

  lemma ProducerOkStep(s: State, step: Step)
    requires IsProducerStep(step) && Enabled(s, step) && ProducerOk(s, s.producers[step.t])
    ensures ProducerOk(s, NewProducer(s, step))
  {
    hide HotChanged, Terminated;
  }

  lemma ProducerOkKept(s: State, s': State, p: Producer)
    requires |s.loggers| <= |s'.loggers| && ProducerOk(s, p)
    ensures ProducerOk(s', p)
  {
  }

  lemma RecordsOkStep(s: State, step: Step)
    requires RecordsOk(s) && Enabled(s, step)
    ensures RecordsOk(Next(s, step))
  {
    hide Next, ProducerOk;
    var s' := Next(s, step);
    if IsProducerStep(step) {
      ProducerFrame(s, step);
      ProducerOkStep(s, step);
      if step.Push? {
        PushedIsValid(s, step);
      }
    } else if IsImmediate(step) {
      ImmediateFrame(s, step);
    } else {
      ConsumerIsNext(s, step);
      ConsumerFrame(s, step.midnight, step.open);
    }
    forall t | 0 <= t < |s'.producers|
      ensures ProducerOk(s', s'.producers[t])
    {
      ProducerOkKept(s, s', if IsProducerStep(step) && t == step.t then NewProducer(s, step) else s.producers[t]);
    }
  }

  lemma ConsumerIsNext(s: State, step: Step)
    requires step.Consume? && Enabled(s, step)
    ensures Next(s, step) == ConsumerStep(s, step.midnight, step.open)
  {
    hide ConsumerStep;
  }

  lemma PushedIsValid(s: State, step: Step)
    requires step.Push? && Enabled(s, step) && ProducerOk(s, s.producers[step.t])
    ensures QueueOk(s, s.producers[step.t].r)
  {
  }

  // ---- Counters ----

  /** How many general records there are. */
  function GeneralCount(rs: seq<LogData>): nat {
    if rs == [] then 0 else GeneralCount(rs[..|rs| - 1]) + if rs[|rs| - 1].kind == General then 1 else 0
  }

  lemma {:induction false} GeneralCountAppend(a: seq<LogData>, b: seq<LogData>)
    ensures GeneralCount(a + b) == GeneralCount(a) + GeneralCount(b)
  {
    if b == [] {
      assert a + b == a;
    } else {
      assert (a + b)[..|a + b| - 1] == a + b[..|b| - 1];
      GeneralCountAppend(a, b[..|b| - 1]);
    }
  }

  lemma GeneralCountPush(a: seq<LogData>, r: LogData)
    ensures GeneralCount(a + [r]) == GeneralCount(a) + OneIfGeneral(r)
  {
    assert (a + [r])[..|a|] == a;
  }

  /** The record the consumer holds but has not counted yet. */
  function Uncounted(s: State): nat {
    if s.consumer.Processing? && s.consumer.p.kind == General then 1 else 0
  }

  ghost predicate CountersOk(s: State) {
    && s.pushCount == GeneralCount(s.enqueued)
    && s.popCount + Uncounted(s) == GeneralCount(s.popped)
    && s.writeCount + (if s.consumer.Outputting? then 1 else 0) <= s.popCount
  }

  lemma PoppedCount(s: State)
    requires s.cache != [] && ValidId(s, s.cache[0].id) && !s.consumer.Processing?
    requires s.popCount == GeneralCount(s.popped)
    ensures var s' := Popped(s); s'.popCount + Uncounted(s') == GeneralCount(s'.popped)
  {
    GeneralCountPush(s.popped, s.cache[0]);
  }

  lemma ProducerCounts(s: State, step: Step)
    requires CountersOk(s) && IsProducerStep(step) && Enabled(s, step)
    ensures CountersOk(Next(s, step))
  {
    hide GeneralCount, Next, NewProducer;
    ProducerFrame(s, step);
    if step.Push? {
      GeneralCountPush(s.enqueued, s.producers[step.t].r);
    }
  }

  lemma PoppedCounts(s: State)
    requires CountersOk(s) && s.cache != [] && ValidId(s, s.cache[0].id)
      && (s.consumer.Looking? || s.consumer.Swapping?)
    ensures CountersOk(Popped(s))
  {
    hide GeneralCount;
    PoppedCount(s);
  }

  lemma ProcessCounts(s: State, r: LogData)
    requires CountersOk(s) && s.consumer == Processing(r) && ValidId(s, r.id)
    ensures CountersOk(ProcessStep(s, r))
  {
    hide GeneralCount, Discards, HotChanged;
  }

  lemma OutputCounts(s: State, r: LogData, midnight: Midnight, open: OpenResult)
    requires CountersOk(s) && s.consumer == Outputting(r)
    ensures CountersOk(OutputStep(s, r, midnight, open))
  {
    hide GeneralCount, Output;
  }

  lemma InHandIsValid(s: State)
    requires ConsumerOk(s) && InOrder(s) && RecordsOk(s)
    ensures s.consumer.Processing? || s.consumer.Outputting? ==> QueueOk(s, s.consumer.p)
    ensures s.cache != [] ==> QueueOk(s, s.cache[0])
    ensures s.cache == [] && s.logs != [] ==> QueueOk(s, s.logs[0])
  {
    hide ProducerOk, QueueOk;
    var n := |s.popped|;
    if s.consumer.Processing? || s.consumer.Outputting? {
      assert s.consumer.p == s.enqueued[n - 1];
    }
    if s.cache != [] {
      assert s.cache[0] == s.enqueued[n];
    } else if s.logs != [] {
      assert s.logs[0] == s.enqueued[n];
    }
  }

  lemma ConsumerCounts(s: State, midnight: Midnight, open: OpenResult)
    requires CountersOk(s) && ConsumerOk(s) && InOrder(s) && RecordsOk(s)
    ensures CountersOk(ConsumerStep(s, midnight, open))
  {
    hide GeneralCount, Popped, ProcessStep, OutputStep, CloseIf, ProducerOk, RecordsOk, InOrder;
    InHandIsValid(s);
    match s.consumer {
      case Processing(p) => ProcessCounts(s, p);
      case Outputting(p) => OutputCounts(s, p, midnight, open);
      case Looking =>
        if s.cache != [] {
          PoppedCounts(s);
        }
      case Swapping => PoppedCounts(s.(cache := s.logs, logs := s.cache));
      case _ =>
    }
  }

  lemma CountersStep(s: State, step: Step)
    requires CountersOk(s) && ConsumerOk(s) && InOrder(s) && RecordsOk(s) && Enabled(s, step)
    ensures CountersOk(Next(s, step))
  {
    hide GeneralCount, ProducerStep, ConsumerStep, ImmediateStep, RecordsOk, InOrder;
    if IsProducerStep(step) {
      ProducerCounts(s, step);
    } else if IsImmediate(step) {
      ImmediateFrame(s, step);
    } else {
      ConsumerCounts(s, step.midnight, step.open);
    }
  }

  /** At every step, pushed minus popped is the number of general records still queued (and perhaps the
      one in the consumer's hand), and no more records are written than popped. */
  lemma CountersMean(s: State)
    requires CountersOk(s) && InOrder(s)
    ensures s.pushCount - s.popCount == GeneralCount(s.logs) + GeneralCount(s.cache) + Uncounted(s)
    ensures s.writeCount <= s.popCount <= s.pushCount
  {
    GeneralCountAppend(s.popped + s.cache, s.logs);
    GeneralCountAppend(s.popped, s.cache);
  }
}
