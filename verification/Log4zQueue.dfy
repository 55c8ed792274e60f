/** The log manager as a state machine: any number of producer threads, the consumer thread, two
    queues, a pool of free blocks, and configuration changes travelling with the records. Each locked
    section is one step, and each unlocked test that the code acts on later is a step of its own. */
module Log4zQueue {
  import opened Bytes
  import opened Log4zLogger

  /** The free pool takes a block back while it is seen to hold fewer than this many. */
  const POOL_SIZE: nat := 200
  const LOGGER_MAX: nat := 20

  /** Where a thread outside the manager's own stands. */
  datatype Producer =
    | Idle
    | Asking(draft: LogData)                    // entering makeLogData
    | Making(pooled: bool, draft: LogData)      // having seen the pool non-empty or not
    | Holding(r: LogData)                       // a block filled in, not yet offered to the queue
    | Admitted(r: LogData)                      // in pushLog, having seen the manager running
    | Permitted(r: LogData)                     // having seen the logger enabled
    | Pushing(r: LogData)                       // about to lock the queue
    | Freeing(r: LogData)                       // in freeLogData
    | Keeping(r: LogData)                       // having seen room in the pool
    | Direct(id: nat, kind: LogDataType, num: int, text: bytes)  // in onHotChange, having seen the manager stopped

  /** Where the manager's own thread stands in `run`. */
  datatype Consumer =
    | NotStarted
    | Looking                                   // in popLog
    | Swapping                                  // having seen `_logs` non-empty
    | Processing(p: LogData)                    // a record popped
    | Outputting(p: LogData)                    // past the discard test
    | Releasing(p: LogData)                     // in freeLogData
    | Returning(p: LogData)                     // having seen room in the pool
    | Drained                                   // popLog returned false
    | AskRunning                                // at the quit test
    | AskEmpty                                  // having seen the manager stopped
    | Closing                                   // out of the loop
    | Exited

  datatype State = State(
    running: bool,
    loggers: seq<LoggerInfo>,
    logs: seq<LogData>,
    cache: seq<LogData>,
    pool: seq<nat>,
    live: set<nat>,
    producers: seq<Producer>,
    consumer: Consumer,
    pushCount: nat,
    popCount: nat,
    writeCount: nat,
    // history
    enqueued: seq<LogData>,
    popped: seq<LogData>,
    base: seq<Settings>,
    clean: bool)

  /** A step, with the choices it makes. */
  datatype Step =
    | Begin(t: nat, draft: LogData)
    | Peek(t: nat)
    | BeginDirect(t: nat, id: nat, kind: LogDataType, num: int, text: bytes)
    | Take(t: nat)
    | Allocate(t: nat, address: nat)
    | SeeRunning(t: nat)
    | SeeEnabled(t: nat)
    | SeeLevel(t: nat, written: bytes)
    | Push(t: nat)
    | Measure(t: nat)
    | Keep(t: nat)
    | ApplyDirect(t: nat)
    | EnableNow(id: nat)
    | LowerLevel(id: nat, level: int)
    | CreateLogger(logger: LoggerInfo)
    | Stop
    | Consume(midnight: Midnight, open: OpenResult)

  predicate ValidId(s: State, id: int) {
    0 <= id < |s.loggers|
  }

  function Loggers(s: State, id: nat, l: LoggerInfo): State
    requires id < |s.loggers|
  {
    s.(loggers := s.loggers[id := l])
  }

  function OneIfGeneral(r: LogData): nat {
    if r.kind == General then 1 else 0
  }

  // ---- Producers ----

  /** `makeLogData` is entered for a record, or by `hotChange` while the manager is running. */
  predicate CanBegin(s: State, draft: LogData) {
    draft.kind == General || (s.running && ValidId(s, draft.id) && |draft.content| < LOG_BUF_SIZE)
  }

  function Enqueue(s: State, r: LogData): State {
    s.(logs := s.logs + [r], enqueued := s.enqueued + [r], pushCount := s.pushCount + OneIfGeneral(r))
  }

  predicate IsProducerStep(step: Step) {
    step.Begin? || step.BeginDirect? || step.Peek? || step.Take? || step.Allocate? || step.SeeRunning?
      || step.SeeEnabled?
    || step.SeeLevel? || step.Push? || step.Measure? || step.Keep? || step.ApplyDirect?
  }

  predicate ProducerEnabled(s: State, step: Step)
    requires IsProducerStep(step)
  {
    step.t < |s.producers|
    && var p := s.producers[step.t];
       match step
       case Begin(_, draft) => p.Idle? && CanBegin(s, draft)
       case BeginDirect(_, id, _, _, text) => p.Idle? && ValidId(s, id) && |text| < LOG_BUF_SIZE && !s.running
       case Peek(_) => p.Asking?
       case Take(_) => p.Making? && p.pooled
       case Allocate(_, address) => p.Making? && !p.pooled && address !in s.live
       case SeeRunning(_) => p.Holding?
       case SeeEnabled(_) => p.Admitted?
       case SeeLevel(_, _) => p.Permitted?
       case Push(_) => p.Pushing?
       case Measure(_) => p.Freeing?
       case Keep(_) => p.Keeping?
       case ApplyDirect(_) => p.Direct?
  }

  /** The tests of `pushLog`, one after the other. A configuration record is not tested. */
  function AfterSeeRunning(s: State, r: LogData): Producer {
    if r.kind != General then Pushing(r)
    else if !ValidId(s, r.id) || !s.running then Freeing(r)
    else Admitted(r)
  }

  function AfterSeeEnabled(s: State, r: LogData): Producer {
    if ValidId(s, r.id) && s.loggers[r.id].enable then Permitted(r) else Freeing(r)
  }

  function AfterSeeLevel(s: State, r: LogData, written: bytes): Producer {
    if ValidId(s, r.id) && r.level >= s.loggers[r.id].level then Pushing(r.(content := Terminated(written)))
    else Freeing(r)
  }

  /** Where the thread stands after its step. */
  function NewProducer(s: State, step: Step): Producer
    requires IsProducerStep(step) && ProducerEnabled(s, step)
  {
    var p := s.producers[step.t];
    match step
    case Begin(_, draft) => Asking(draft)
    case BeginDirect(_, id, kind, num, text) => Direct(id, kind, num, text)
    case Peek(_) => Making(s.pool != [], p.draft)
    case Take(_) =>
      if s.pool == [] then Making(false, p.draft) else Holding(p.draft.(address := s.pool[|s.pool| - 1]))
    case Allocate(_, address) => Holding(p.draft.(address := address))
    case SeeRunning(_) => AfterSeeRunning(s, p.r)
    case SeeEnabled(_) => AfterSeeEnabled(s, p.r)
    case SeeLevel(_, written) => AfterSeeLevel(s, p.r, written)
    case Measure(_) => if |s.pool| < POOL_SIZE then Keeping(p.r) else Idle
    case _ => Idle
  }

  /** What the step does to what the threads share. */
  function SharedStep(s: State, step: Step): State
    requires IsProducerStep(step) && ProducerEnabled(s, step)
  {
    var p := s.producers[step.t];
    match step
    case Take(_) => s.(pool := if s.pool == [] then [] else s.pool[..|s.pool| - 1])
    case Allocate(_, address) => s.(live := s.live + {address})
    case Push(_) => Enqueue(s, p.r)
    case Measure(_) => if |s.pool| < POOL_SIZE then s else s.(live := s.live - {p.r.address})
    case Keep(_) => s.(pool := s.pool + [p.r.address])
    case ApplyDirect(_) => ApplyDirectly(s, p)
    case _ => s
  }

  /** A change made directly: before the start it belongs to the initial settings. */
  function ApplyDirectly(s: State, p: Producer): State
    requires p.Direct?
  {
    if !ValidId(s, p.id) then s
    else
      var l := HotChanged(s.loggers[p.id], p.kind, p.num, p.text);
      if s.consumer.NotStarted? && p.id < |s.base| then Loggers(s, p.id, l).(base := s.base[p.id := l.settings])
      else Loggers(s, p.id, l).(clean := false)
  }

  function ProducerStep(s: State, step: Step): State
    requires IsProducerStep(step) && ProducerEnabled(s, step)
  {
    SharedStep(s, step).(producers := s.producers[step.t := NewProducer(s, step)])
  }

  // ---- The consumer ----

  function Popped(s: State): State
    requires s.cache != []
  {
    var r := s.cache[0];
    s.(cache := s.cache[1..], popped := s.popped + [r],
       consumer := if ValidId(s, r.id) then Processing(r) else Releasing(r))
  }

  function ProcessStep(s: State, r: LogData): State {
    if !ValidId(s, r.id) then s.(consumer := Releasing(r))
    else if r.kind != General then Loggers(s, r.id, Reconfigured(s.loggers[r.id], r)).(consumer := Releasing(r))
    else if Discards(s.loggers[r.id], r) then s.(popCount := s.popCount + 1, consumer := Releasing(r))
    else s.(popCount := s.popCount + 1, consumer := Outputting(r))
  }

  function OutputStep(s: State, r: LogData, midnight: Midnight, open: OpenResult): State {
    if !ValidId(s, r.id) then s.(consumer := Releasing(r))
    else
      var l := s.loggers[r.id];
      var o := Output(l, r, midnight, open);
      Loggers(s, r.id, o.logger).(
        consumer := Releasing(r),
        writeCount := s.writeCount + (if o.ok then 1 else 0),
        clean := s.clean && o.logger.settings == l.settings)
  }

  function Closed(l: LoggerInfo): LoggerInfo {
    l.(handle := None)
  }

  function CloseIf(ls: seq<LoggerInfo>, enabled: bool): (r: seq<LoggerInfo>)
    ensures |r| == |ls|
    ensures forall i :: 0 <= i < |ls| ==> r[i].settings == ls[i].settings && r[i].writeLen == ls[i].writeLen
    ensures forall i :: 0 <= i < |ls| ==> r[i].handle == ls[i].handle || r[i].handle == None
  {
    seq(|ls|, i requires 0 <= i < |ls| =>
      if ls[i].enable != enabled then ls[i]
      else if enabled then Closed(ls[i]).(enable := false)
      else Closed(ls[i]))
  }

  /** One step of `run`, wherever it stands. */
  function ConsumerStep(s: State, midnight: Midnight, open: OpenResult): State {
    match s.consumer
    case NotStarted => s.(running := true, consumer := Looking)
    case Looking =>
      if s.cache != [] then Popped(s)
      else s.(consumer := if s.logs != [] then Swapping else Drained)
    case Swapping =>
      if s.logs == [] then s.(consumer := Drained)
      else Popped(s.(cache := s.logs, logs := s.cache))
    case Processing(p) => ProcessStep(s, p)
    case Outputting(p) => OutputStep(s, p, midnight, open)
    case Releasing(p) => ReleaseStep(s, p)
    case Returning(p) => s.(consumer := Looking, pool := s.pool + [p.address])
    case Drained => s.(loggers := CloseIf(s.loggers, false), consumer := AskRunning)
    case AskRunning => s.(consumer := if s.running then Looking else AskEmpty)
    case AskEmpty => s.(consumer := if s.logs == [] then Closing else Looking)
    case Closing => s.(loggers := CloseIf(s.loggers, true), consumer := Exited)
    case Exited => s
  }

  function ReleaseStep(s: State, r: LogData): State {
    if |s.pool| < POOL_SIZE then s.(consumer := Returning(r))
    else s.(consumer := Looking, live := s.live - {r.address})
  }

  // ---- Calls that take effect at once ----

  predicate IsImmediate(step: Step) {
    step.EnableNow? || step.LowerLevel? || step.CreateLogger? || step.Stop?
  }

  predicate ImmediateEnabled(s: State, step: Step)
    requires IsImmediate(step)
  {
    match step
    case EnableNow(id) => ValidId(s, id)
    case LowerLevel(id, level) => ValidId(s, id) && level <= s.loggers[id].level
    case CreateLogger(l) => |s.loggers| < LOGGER_MAX && l.handle.None?
    case Stop => s.running
  }

  function ImmediateStep(s: State, step: Step): State
    requires IsImmediate(step) && ImmediateEnabled(s, step)
  {
    match step
    case EnableNow(id) => Loggers(s, id, s.loggers[id].(enable := true))
    case LowerLevel(id, level) => Loggers(s, id, s.loggers[id].(level := level))
    case CreateLogger(l) => s.(loggers := s.loggers + [l], base := s.base + [l.settings])
    case Stop => s.(running := false)
  }

  predicate Enabled(s: State, step: Step) {
    if step.Consume? then !s.consumer.Exited?
    else if IsImmediate(step) then ImmediateEnabled(s, step)
    else ProducerEnabled(s, step)
  }

  function Next(s: State, step: Step): State
    requires Enabled(s, step)
  {
    if step.Consume? then ConsumerStep(s, step.midnight, step.open)
    else if IsImmediate(step) then ImmediateStep(s, step)
    else ProducerStep(s, step)
  }

  /** Before the manager is started, with `n` threads and whatever loggers were configured. */
  ghost predicate Init(s: State) {
    && !s.running && s.consumer.NotStarted?
    && s.logs == s.cache == s.enqueued == s.popped == [] && s.pool == [] && s.live == {}
    && s.pushCount == s.popCount == s.writeCount == 0
    && (forall t :: 0 <= t < |s.producers| ==> s.producers[t].Idle?)
    && (forall i :: 0 <= i < |s.loggers| ==> s.loggers[i].handle.None?)
    && |s.base| == |s.loggers|
    && (forall i :: 0 <= i < |s.loggers| ==> s.base[i] == s.loggers[i].settings)
    && s.clean
  }

  /** A run: a start and the steps taken from it. */
  ghost predicate Run(ss: seq<State>, steps: seq<Step>) {
    && |ss| == |steps| + 1 && Init(ss[0])
    && forall k :: 0 <= k < |steps| ==> Enabled(ss[k], steps[k]) && ss[k + 1] == Next(ss[k], steps[k])
  }
}
