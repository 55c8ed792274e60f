/** Every live block of the log manager is in exactly one place, in every interleaving. */
module Log4zOwnership {
  import opened Log4zLogger
  import opened Log4zQueue
  import opened Log4zInvariants

  /** How often address `a` occurs. */
  function InPool(pool: seq<nat>, a: nat): nat {
    if pool == [] then 0 else InPool(pool[..|pool| - 1], a) + (if pool[|pool| - 1] == a then 1 else 0)
  }

  function InQueue(rs: seq<LogData>, a: nat): nat {
    if rs == [] then 0 else InQueue(rs[..|rs| - 1], a) + (if rs[|rs| - 1].address == a then 1 else 0)
  }

  predicate HasBlock(p: Producer) {
    p.Holding? || p.Admitted? || p.Permitted? || p.Pushing? || p.Freeing? || p.Keeping?
  }

  /** Whether the block in a thread's hand is the one at `a`. */
  function InHand(p: Producer, a: nat): nat {
    if HasBlock(p) && p.r.address == a then 1 else 0
  }

  function InHands(ps: seq<Producer>, a: nat): nat {
    if ps == [] then 0 else InHands(ps[..|ps| - 1], a) + InHand(ps[|ps| - 1], a)
  }

  function AtConsumer(c: Consumer, a: nat): nat {
    if (c.Processing? || c.Outputting? || c.Releasing? || c.Returning?) && c.p.address == a then 1 else 0
  }

  /** In how many places of the manager the block at `a` is. */
  function Places(s: State, a: nat): nat {
    InPool(s.pool, a) + InQueue(s.cache, a) + InQueue(s.logs, a) + InHands(s.producers, a) + AtConsumer(s.consumer, a)
  }

  /** A live block is in one place, a block that is not live in none: no leak, no double free, no block
      shared between two threads. */
  ghost predicate OwnedOnce(s: State) {
    forall a :: Places(s, a) == if a in s.live then 1 else 0
  }

  lemma InQueuePush(rs: seq<LogData>, r: LogData, a: nat)
    ensures InQueue(rs + [r], a) == InQueue(rs, a) + (if r.address == a then 1 else 0)
  {
    assert (rs + [r])[..|rs|] == rs;
  }

  lemma {:induction false} InQueuePop(rs: seq<LogData>, a: nat)
    requires rs != []
    ensures InQueue(rs, a) == (if rs[0].address == a then 1 else 0) + InQueue(rs[1..], a)
  {
    var last := |rs| - 1;
    if last > 0 {
      InQueuePop(rs[..last], a);
      assert rs[..last][1..] == rs[1..][..last - 1];
    }
  }

  lemma InPoolPush(pool: seq<nat>, b: nat, a: nat)
    ensures InPool(pool + [b], a) == InPool(pool, a) + (if b == a then 1 else 0)
  {
    assert (pool + [b])[..|pool|] == pool;
  }

  lemma {:induction false} InHandsUpdate(ps: seq<Producer>, t: nat, p: Producer, a: nat)
    requires t < |ps|
    ensures InHands(ps[t := p], a) == InHands(ps, a) - InHand(ps[t], a) + InHand(p, a)
  {
    hide InHand;
    var last := |ps| - 1;
    if t == last {
      assert ps[t := p][..last] == ps[..last];
    } else {
      assert ps[t := p][..last] == ps[..last][t := p];
      InHandsUpdate(ps[..last], t, p, a);
    }
  }

  lemma {:induction false} HandAmong(ps: seq<Producer>, t: nat, a: nat)
    requires t < |ps|
    ensures InHand(ps[t], a) <= InHands(ps, a)
  {
    hide InHand;
    if t < |ps| - 1 {
      HandAmong(ps[..|ps| - 1], t, a);
    }
  }

  lemma TestsKeepTheBlock(s: State, step: Step, a: nat)
    requires (step.SeeRunning? || step.SeeEnabled? || step.SeeLevel?) && Enabled(s, step)
    ensures InHand(NewProducer(s, step), a) == InHand(s.producers[step.t], a)
  {
    hide Terminated;
  }

  /** Only these steps move a block between a hand and somewhere else. */
  predicate MovesBlock(step: Step) {
    step.Take? || step.Allocate? || step.Push? || step.Measure? || step.Keep?
  }

  lemma OthersMoveNothing(s: State, step: Step, a: nat)
    requires IsProducerStep(step) && Enabled(s, step) && !MovesBlock(step)
    ensures var s' := SharedStep(s, step);
            && InHand(NewProducer(s, step), a) == InHand(s.producers[step.t], a)
            && s'.pool == s.pool && s'.live == s.live && s'.cache == s.cache && s'.logs == s.logs
            && s'.consumer == s.consumer && s'.producers == s.producers
  {
    hide HotChanged, AfterSeeRunning, AfterSeeEnabled, AfterSeeLevel;
    if step.SeeRunning? || step.SeeEnabled? || step.SeeLevel? {
      TestsKeepTheBlock(s, step, a);
    }
  }

  /** A producer's step moves its block, and no other. */
  lemma SharedPlaces(s: State, step: Step, a: nat)
    requires IsProducerStep(step) && Enabled(s, step) && MovesBlock(step)
    requires Places(s, a) == if a in s.live then 1 else 0
    ensures var s' := SharedStep(s, step);
            && s'.producers == s.producers
            && Places(s', a) - InHand(s.producers[step.t], a) + InHand(NewProducer(s, step), a)
               == if a in s'.live then 1 else 0
  {
    hide InHands, AtConsumer, InQueue, InPool, AfterSeeRunning, AfterSeeEnabled, AfterSeeLevel;
    var p := s.producers[step.t];
    HandAmong(s.producers, step.t, a);
    match step {
      case Push(_) => InQueuePush(s.logs, p.r, a);
      case Keep(_) => InPoolPush(s.pool, p.r.address, a);
      case Take(_) =>
        if s.pool != [] {
          var last := |s.pool| - 1;
          assert s.pool == s.pool[..last] + [s.pool[last]];
          InPoolPush(s.pool[..last], s.pool[last], a);
        }
      case _ =>
    }
  }

  lemma ProducerPlaces(s: State, step: Step, a: nat)
    requires IsProducerStep(step) && Enabled(s, step) && OwnedOnce(s)
    ensures var s' := Next(s, step); Places(s', a) == if a in s'.live then 1 else 0
  {
    hide InQueue, InPool, InHands, AtConsumer, InHand, SharedStep, NewProducer;
    InHandsUpdate(s.producers, step.t, NewProducer(s, step), a);
    if MovesBlock(step) {
      SharedPlaces(s, step, a);
    } else {
      OthersMoveNothing(s, step, a);
    }
  }

  lemma ProducerOwns(s: State, step: Step)
    requires IsProducerStep(step) && Enabled(s, step) && OwnedOnce(s)
    ensures OwnedOnce(Next(s, step))
  {
    hide Places, Next, Enabled;
    var s' := Next(s, step);
    forall a: nat
      ensures Places(s', a) == if a in s'.live then 1 else 0
    {
      ProducerPlaces(s, step, a);
    }
  }

  lemma PoppedPlaces(s: State, a: nat)
    requires s.cache != [] && (s.consumer.Looking? || s.consumer.Swapping?)
    ensures Places(Popped(s), a) == Places(s, a) && Popped(s).live == s.live
  {
    hide InQueue, InHands, InPool, ValidId;
    InQueuePop(s.cache, a);
  }

  lemma ConsumerPlaces(s: State, midnight: Midnight, open: OpenResult, a: nat)
    requires ConsumerOk(s) && Places(s, a) == if a in s.live then 1 else 0
    ensures var s' := ConsumerStep(s, midnight, open); Places(s', a) == if a in s'.live then 1 else 0
  {
    hide InQueue, InHands, InPool, Popped, CloseIf, ProcessStep, OutputStep, ValidId;
    match s.consumer {
      case Processing(p) => ProcessFrame(s, p);
      case Outputting(p) => OutputFrame(s, p, midnight, open);
      case Looking =>
        if s.cache != [] {
          PoppedPlaces(s, a);
        }
      case Swapping => PoppedPlaces(s.(cache := s.logs, logs := s.cache), a);
      case Returning(p) => InPoolPush(s.pool, p.address, a);
      case _ =>
    }
  }

  lemma OwnedOnceStep(s: State, step: Step)
    requires Enabled(s, step) && OwnedOnce(s) && ConsumerOk(s)
    ensures OwnedOnce(Next(s, step))
  {
    if IsProducerStep(step) {
      ProducerOwns(s, step);
    } else {
      forall a: nat
        ensures Places(Next(s, step), a) == if a in Next(s, step).live then 1 else 0
      {
        hide InQueue, InHands, InPool, AtConsumer, ConsumerStep, ImmediateStep, OwnedOnce;
        assert Places(s, a) == if a in s.live then 1 else 0 by { OwnedAt(s, a); }
        if IsImmediate(step) {
          ImmediateFrame(s, step);
        } else {
          ConsumerPlaces(s, step.midnight, step.open, a);
        }
      }
    }
  }

  lemma OwnedAt(s: State, a: nat)
    requires OwnedOnce(s)
    ensures Places(s, a) == if a in s.live then 1 else 0
  {
  }

  // ---- How large the pool gets ----

  function KeepingCount(ps: seq<Producer>): (n: nat)
    ensures n <= |ps|
  {
    if ps == [] then 0 else KeepingCount(ps[..|ps| - 1]) + (if ps[|ps| - 1].Keeping? then 1 else 0)
  }

  function ReturningCount(c: Consumer): nat {
    if c.Returning? then 1 else 0
  }

  /** The size test is made before the lock is taken, so the pool can grow past 200, but by no more
      than there are producers. */
  ghost predicate PoolBounded(s: State) {
    |s.pool| + KeepingCount(s.producers) + ReturningCount(s.consumer) <= POOL_SIZE + |s.producers|
  }

  lemma {:induction false} KeepingUpdate(ps: seq<Producer>, t: nat, p: Producer)
    requires t < |ps|
    ensures KeepingCount(ps[t := p]) + (if ps[t].Keeping? then 1 else 0)
            == KeepingCount(ps) + (if p.Keeping? then 1 else 0)
  {
    var last := |ps| - 1;
    if t == last {
      assert ps[t := p][..last] == ps[..last];
    } else {
      assert ps[t := p][..last] == ps[..last][t := p];
      KeepingUpdate(ps[..last], t, p);
    }
  }

  lemma ConsumerPool(s: State, midnight: Midnight, open: OpenResult)
    requires PoolBounded(s)
    ensures PoolBounded(ConsumerStep(s, midnight, open))
  {
    hide KeepingCount, CloseIf, ProcessStep, OutputStep, Popped;
    match s.consumer {
      case Processing(p) => ProcessFrame(s, p);
      case Outputting(p) => OutputFrame(s, p, midnight, open);
      case Looking =>
        if s.cache != [] {
          PoppedFrame(s);
        }
      case Swapping =>
        if s.logs != [] {
          PoppedFrame(s.(cache := s.logs, logs := s.cache));
        }
      case _ =>
    }
  }

  lemma ProducerPool(s: State, step: Step)
    requires PoolBounded(s) && IsProducerStep(step) && Enabled(s, step)
    ensures PoolBounded(Next(s, step))
  {
    hide KeepingCount, AfterSeeRunning, AfterSeeEnabled, AfterSeeLevel, ApplyDirectly;
    KeepingUpdate(s.producers, step.t, NewProducer(s, step));
    match step {
      case ApplyDirect(_) => DirectFrame(s, s.producers[step.t]);
      case SeeRunning(_) => TestsDoNotKeep(s, step);
      case SeeEnabled(_) => TestsDoNotKeep(s, step);
      case SeeLevel(_, _) => TestsDoNotKeep(s, step);
      case _ =>
    }
  }

  lemma TestsDoNotKeep(s: State, step: Step)
    requires (step.SeeRunning? || step.SeeEnabled? || step.SeeLevel?) && Enabled(s, step)
    ensures !NewProducer(s, step).Keeping?
  {
    hide Terminated;
  }

  lemma PoolBoundedStep(s: State, step: Step)
    requires PoolBounded(s) && Enabled(s, step)
    ensures PoolBounded(Next(s, step))
  {
    hide KeepingCount, ProducerStep, ConsumerStep, ImmediateStep;
    if IsProducerStep(step) {
      ProducerPool(s, step);
    } else if IsImmediate(step) {
      ImmediateFrame(s, step);
    } else {
      ConsumerPool(s, step.midnight, step.open);
    }
  }
}
