/** Settings follow queue order: under every interleaving, a record is shown and written under the
    initial settings plus exactly the changes enqueued before it. */
module Log4zSettings {
  import opened Bytes
  import opened Log4zLogger
  import opened Log4zQueue
  import opened Log4zInvariants

  /** The settings of logger `id` once the changes among `rs` have been made, in order. */
  function SettingsAfter(base: Settings, id: nat, rs: seq<LogData>): Settings {
    if rs == [] then base
    else
      var before, r := SettingsAfter(base, id, rs[..|rs| - 1]), rs[|rs| - 1];
      if r.id == id && r.kind != General then ChangedSettings(before, r.kind, r.typeval, r.content) else before
  }

  /** The last of the records that changes what `kind` names in logger `id`. */
  function LastChange(id: nat, kind: LogDataType, rs: seq<LogData>): Option<LogData> {
    if rs == [] then None
    else if rs[|rs| - 1].id == id && rs[|rs| - 1].kind == kind then Some(rs[|rs| - 1])
    else LastChange(id, kind, rs[..|rs| - 1])
  }

  function NumberOr(change: Option<LogData>, value: int): int {
    if change.Some? then change.value.typeval else value
  }

  function TextOr(change: Option<LogData>, value: bytes): bytes {
    if change.Some? then change.value.content else value
  }

  function FlagOr(change: Option<LogData>, value: bool): bool {
    if change.Some? then change.value.typeval != 0 else value
  }

  predicate TextsCount(base: Settings, s: Settings, id: nat, rs: seq<LogData>) {
    && s.name == TextOr(LastChange(id, SetName, rs), base.name)
    && s.path == TextOr(LastChange(id, SetPath, rs), base.path)
  }

  predicate FlagsCount(base: Settings, s: Settings, id: nat, rs: seq<LogData>) {
    && s.fileLine == FlagOr(LastChange(id, SetFileLine, rs), base.fileLine)
    && s.display == FlagOr(LastChange(id, SetDisplay, rs), base.display)
    && s.outFile == FlagOr(LastChange(id, SetOutFile, rs), base.outFile)
    && s.monthDir == FlagOr(LastChange(id, SetMonthDir, rs), base.monthDir)
  }

  predicate NumbersCount(base: Settings, s: Settings, id: nat, rs: seq<LogData>) {
    && s.limitSize == (match LastChange(id, SetLimitSize, rs)
                       case None => base.limitSize
                       case Some(r) => r.typeval % 0x1_0000_0000)
    && s.reserveTime == (match LastChange(id, SetReserveTime, rs)
                         case None => base.reserveTime
                         case Some(r) => if r.typeval < 0 then 0 else r.typeval)
  }

  /** Each setting is the one asked for by the last change of its kind, and the initial one if there is none. */
  predicate LastChangesCount(base: Settings, s: Settings, id: nat, rs: seq<LogData>) {
    TextsCount(base, s, id, rs) && FlagsCount(base, s, id, rs) && NumbersCount(base, s, id, rs)
  }

  lemma LastChangeStep(id: nat, kind: LogDataType, rs: seq<LogData>)
    requires rs != []
    ensures var r := rs[|rs| - 1];
            LastChange(id, kind, rs)
            == if r.id == id && r.kind == kind then Some(r) else LastChange(id, kind, rs[..|rs| - 1])
  {
  }

  lemma FieldByField(s: Settings, kind: LogDataType, num: int, text: bytes)
    ensures var s' := ChangedSettings(s, kind, num, text);
            && s'.name == (if kind == SetName then text else s.name)
            && s'.path == (if kind == SetPath then text else s.path)
            && s'.fileLine == (if kind == SetFileLine then num != 0 else s.fileLine)
            && s'.display == (if kind == SetDisplay then num != 0 else s.display)
            && s'.outFile == (if kind == SetOutFile then num != 0 else s.outFile)
            && s'.limitSize == (if kind == SetLimitSize then num % 0x1_0000_0000 else s.limitSize)
            && s'.monthDir == (if kind == SetMonthDir then num != 0 else s.monthDir)
            && s'.reserveTime == (if kind == SetReserveTime then (if num < 0 then 0 else num) else s.reserveTime)
  {
    var l := LoggerInfo(true, 0, s, None, 0, 0, 0);
    OneFieldChanges(l, kind, num, text);
  }

  function AfterOne(s: Settings, id: nat, r: LogData): Settings {
    if r.id == id && r.kind != General then ChangedSettings(s, r.kind, r.typeval, r.content) else s
  }

  lemma TextsStep(base: Settings, s: Settings, id: nat, rs: seq<LogData>)
    requires rs != [] && TextsCount(base, s, id, rs[..|rs| - 1])
    ensures TextsCount(base, AfterOne(s, id, rs[|rs| - 1]), id, rs)
  {
    hide LastChange, ChangedSettings;
    var r := rs[|rs| - 1];
    FieldByField(s, r.kind, r.typeval, r.content);
    LastChangeStep(id, SetName, rs);
    LastChangeStep(id, SetPath, rs);
  }

  lemma FlagsStep(base: Settings, s: Settings, id: nat, rs: seq<LogData>)
    requires rs != [] && FlagsCount(base, s, id, rs[..|rs| - 1])
    ensures FlagsCount(base, AfterOne(s, id, rs[|rs| - 1]), id, rs)
  {
    hide LastChange, ChangedSettings;
    var r := rs[|rs| - 1];
    FieldByField(s, r.kind, r.typeval, r.content);
    LastChangeStep(id, SetFileLine, rs);
    LastChangeStep(id, SetDisplay, rs);
    LastChangeStep(id, SetOutFile, rs);
    LastChangeStep(id, SetMonthDir, rs);
  }

  lemma NumbersStep(base: Settings, s: Settings, id: nat, rs: seq<LogData>)
    requires rs != [] && NumbersCount(base, s, id, rs[..|rs| - 1])
    ensures NumbersCount(base, AfterOne(s, id, rs[|rs| - 1]), id, rs)
  {
    hide LastChange, ChangedSettings;
    var r := rs[|rs| - 1];
    FieldByField(s, r.kind, r.typeval, r.content);
    LastChangeStep(id, SetLimitSize, rs);
    LastChangeStep(id, SetReserveTime, rs);
  }

  /** After any sequence of changes each setting is the last one asked for. */
  lemma {:induction false} SettingsAreLastChanges(base: Settings, id: nat, rs: seq<LogData>)
    ensures LastChangesCount(base, SettingsAfter(base, id, rs), id, rs)
  {
    if rs != [] {
      hide LastChange, ChangedSettings, TextsCount, FlagsCount, NumbersCount;
      var before := SettingsAfter(base, id, rs[..|rs| - 1]);
      SettingsAreLastChanges(base, id, rs[..|rs| - 1]);
      TextsStep(base, before, id, rs);
      FlagsStep(base, before, id, rs);
      NumbersStep(base, before, id, rs);
    } else {
      assert forall kind :: LastChange(id, kind, []) == None;
    }
  }

  /** The logger once the changes among `rs` have been made, in order. */
  function ChangedBy(l: LoggerInfo, id: nat, rs: seq<LogData>): LoggerInfo {
    if rs == [] then l
    else
      var before, r := ChangedBy(l, id, rs[..|rs| - 1]), rs[|rs| - 1];
      if r.id == id && r.kind != General then HotChanged(before, r.kind, r.typeval, r.content) else before
  }

  /** The same for the switch and the level of a logger, whose settings follow their own law. */
  lemma {:induction false} SwitchAndLevelAreLastChanges(l: LoggerInfo, id: nat, rs: seq<LogData>)
    ensures var l' := ChangedBy(l, id, rs);
            && l'.enable == FlagOr(LastChange(id, EnableLogger, rs), l.enable)
            && l'.level == NumberOr(LastChange(id, SetLevel, rs), l.level)
            && l'.settings == SettingsAfter(l.settings, id, rs)
  {
    hide ChangedSettings;
    if rs != [] {
      SwitchAndLevelAreLastChanges(l, id, rs[..|rs| - 1]);
      var r := rs[|rs| - 1];
      if r.kind == EnableLogger || r.kind == SetLevel {
        UnnamedKinds(SettingsAfter(l.settings, id, rs[..|rs| - 1]), r);
      }
    }
  }

  lemma UnnamedKinds(s: Settings, r: LogData)
    requires r.kind == EnableLogger || r.kind == SetLevel || r.kind == General
    ensures ChangedSettings(s, r.kind, r.typeval, r.content) == s
  {
  }

  /** The records whose effect has been applied: those popped, but for the one about to be processed. */
  function Applied(s: State): seq<LogData> {
    if s.consumer.Processing? && s.popped != [] then s.popped[..|s.popped| - 1] else s.popped
  }

  /** The path of an open file is the one the settings ask for. */
  predicate FileMatches(l: LoggerInfo) {
    match l.handle
    case None => true
    case Some(f) => f.name == l.settings.name && f.path == l.settings.path && f.monthDir == l.settings.monthDir
  }

  /** `clean` says that since the start no change bypassed the queue and no open failed. */
  ghost predicate SettingsOk(s: State) {
    && |s.base| == |s.loggers|
    && (s.clean ==>
          forall i :: 0 <= i < |s.loggers| ==>
            && s.loggers[i].settings == SettingsAfter(s.base[i], i, Applied(s))
            && FileMatches(s.loggers[i]) && WithinLimit(s.loggers[i]))
    && (s.clean && s.consumer.Outputting? && ValidId(s, s.consumer.p.id) ==>
          !Discards(s.loggers[s.consumer.p.id], s.consumer.p))
    && (s.consumer.NotStarted? ==> forall i :: 0 <= i < |s.loggers| ==> s.loggers[i].handle.None?)
  }

  lemma {:induction false} NoChanges(base: Settings, id: nat, rs: seq<LogData>)
    requires forall k :: 0 <= k < |rs| ==> rs[k].id != id
    ensures SettingsAfter(base, id, rs) == base
  {
    hide ChangedSettings;
    if rs != [] {
      NoChanges(base, id, rs[..|rs| - 1]);
    }
  }

  lemma SettingsAfterOne(base: Settings, id: nat, rs: seq<LogData>, r: LogData)
    ensures var before := SettingsAfter(base, id, rs);
            SettingsAfter(base, id, rs + [r])
            == if r.id == id && r.kind != General then ChangedSettings(before, r.kind, r.typeval, r.content) else before
  {
    hide ChangedSettings;
    assert (rs + [r])[..|rs|] == rs;
  }

  lemma OutputMatches(l: LoggerInfo, r: LogData, midnight: Midnight, open: OpenResult)
    requires FileMatches(l) && WithinLimit(l) && |r.content| < LOG_BUF_SIZE
    ensures var l' := Output(l, r, midnight, open).logger;
            WithinLimit(l') && (l'.settings == l.settings ==> FileMatches(l'))
  {
    hide Limit;
    SizeStaysBounded(l, r, midnight, open);
  }

  // ---- Producers ----

  lemma DirectSettings(s: State, p: Producer)
    requires SettingsOk(s) && ConsumerOk(s) && p.Direct?
    ensures SettingsOk(ApplyDirectly(s, p))
  {
    hide HotChanged, ChangedSettings, Discards;
    if ValidId(s, p.id) {
      HotChangedHandle(s.loggers[p.id], p.kind, p.num, p.text);
    }
  }

  lemma HotChangedHandle(l: LoggerInfo, kind: LogDataType, num: int, text: bytes)
    ensures HotChanged(l, kind, num, text).handle == l.handle
  {
  }

  lemma ProducerSettings(s: State, step: Step)
    requires SettingsOk(s) && ConsumerOk(s) && IsProducerStep(step) && Enabled(s, step)
    ensures SettingsOk(Next(s, step))
  {
    hide NewProducer, SettingsAfter, Discards, ApplyDirectly;
    if step.ApplyDirect? {
      DirectSettings(s, s.producers[step.t]);
    } else {
      ProducerFrame(s, step);
    }
  }

  // ---- Calls that take effect at once ----

  lemma NewLogger(s: State, base: Settings)
    requires RecordsOk(s) && InOrder(s)
    ensures SettingsAfter(base, |s.loggers|, Applied(s)) == base
  {
    hide SettingsAfter, ProducerOk;
    forall k | 0 <= k < |Applied(s)|
      ensures Applied(s)[k].id != |s.loggers|
    {
      assert Applied(s)[k] == s.enqueued[k];
    }
    NoChanges(base, |s.loggers|, Applied(s));
  }

  lemma ImmediateSettings(s: State, step: Step)
    requires SettingsOk(s) && ConsumerOk(s) && InOrder(s) && RecordsOk(s) && IsImmediate(step) && Enabled(s, step)
    ensures SettingsOk(Next(s, step))
  {
    hide SettingsAfter, RecordsOk, InOrder;
    if step.CreateLogger? {
      InHandIsValid(s);
      NewLogger(s, step.logger.settings);
      assert Applied(Next(s, step)) == Applied(s);
    }
  }

  // ---- The consumer ----

  lemma PoppedSettings(s: State)
    requires SettingsOk(s) && s.cache != [] && ValidId(s, s.cache[0].id)
      && (s.consumer.Looking? || s.consumer.Swapping?)
    ensures SettingsOk(Popped(s))
  {
    hide SettingsAfter, Discards;
    assert Applied(Popped(s)) == s.popped;
  }

  lemma ReconfiguredLogger(l: LoggerInfo, r: LogData)
    ensures var l' := Reconfigured(l, r);
            l'.settings == ChangedSettings(l.settings, r.kind, r.typeval, r.content) && l'.handle.None?
  {
  }

  lemma ProcessSettings(s: State, r: LogData)
    requires SettingsOk(s) && ConsumerOk(s) && s.consumer == Processing(r) && ValidId(s, r.id)
    ensures SettingsOk(ProcessStep(s, r))
  {
    hide SettingsAfter, Discards, Reconfigured, ChangedSettings;
    var s' := ProcessStep(s, r);
    assert s.popped == Applied(s) + [r];
    ReconfiguredLogger(s.loggers[r.id], r);
    forall i | 0 <= i < |s.loggers|
      ensures SettingsAfter(s.base[i], i, s.popped)
              == if r.id == i && r.kind != General then
                   ChangedSettings(SettingsAfter(s.base[i], i, Applied(s)), r.kind, r.typeval, r.content)
                 else SettingsAfter(s.base[i], i, Applied(s))
    {
      SettingsAfterOne(s.base[i], i, Applied(s), r);
    }
  }

  lemma OutputSettings(s: State, r: LogData, midnight: Midnight, open: OpenResult)
    requires SettingsOk(s) && ConsumerOk(s) && s.consumer == Outputting(r) && |r.content| < LOG_BUF_SIZE
    ensures SettingsOk(OutputStep(s, r, midnight, open))
  {
    hide SettingsAfter, Discards, Output, FileMatches, WithinLimit;
    if ValidId(s, r.id) && s.clean {
      OutputMatches(s.loggers[r.id], r, midnight, open);
    }
  }

  lemma CloseSettings(s: State, enabled: bool, c: Consumer)
    requires SettingsOk(s) && (s.consumer.Drained? || s.consumer.Closing?) && (c == AskRunning || c == Exited)
    ensures SettingsOk(s.(loggers := CloseIf(s.loggers, enabled), consumer := c))
  {
    hide SettingsAfter, Discards, CloseIf;
  }

  lemma ConsumerSettings(s: State, midnight: Midnight, open: OpenResult)
    requires SettingsOk(s) && ConsumerOk(s) && InOrder(s) && RecordsOk(s)
    ensures SettingsOk(ConsumerStep(s, midnight, open))
  {
    hide SettingsAfter, Popped, ProcessStep, OutputStep, CloseIf, ProducerOk, RecordsOk, InOrder, Discards,
      FileMatches, WithinLimit;
    InHandIsValid(s);
    match s.consumer {
      case Processing(p) => ProcessSettings(s, p);
      case Outputting(p) => OutputSettings(s, p, midnight, open);
      case Looking =>
        if s.cache != [] {
          PoppedSettings(s);
        }
      case Swapping => PoppedSettings(s.(cache := s.logs, logs := s.cache));
      case Drained => CloseSettings(s, false, AskRunning);
      case Closing => CloseSettings(s, true, Exited);
      case _ =>
    }
  }

  lemma SettingsStep(s: State, step: Step)
    requires SettingsOk(s) && ConsumerOk(s) && InOrder(s) && RecordsOk(s) && Enabled(s, step)
    ensures SettingsOk(Next(s, step))
  {
    if IsProducerStep(step) {
      ProducerSettings(s, step);
    } else if IsImmediate(step) {
      ImmediateSettings(s, step);
    } else {
      hide SettingsOk, ConsumerOk, InOrder, RecordsOk, ConsumerStep;
      ConsumerSettings(s, step.midnight, step.open);
    }
  }
}
