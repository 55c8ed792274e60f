/** The manager's methods as they run when no other thread interferes, each proved against the functions
    that the state machine is made of. */
module Log4zManager {
  import opened Bytes
  import opened Log4zLogger
  import opened Log4zQueue
  import opened Log4zSettings

  const DEFAULT_LEVEL: int := 1

  /** The loggers after a record has been taken from the queue and dealt with. */
  function AfterRecord(loggers: seq<LoggerInfo>, r: LogData, midnight: Midnight,
                       open: OpenResult): (r': seq<LoggerInfo>)
    ensures |r'| == |loggers|
  {
    if 0 <= r.id < |loggers| then loggers[r.id := Processed(loggers[r.id], r, midnight, open)] else loggers
  }

  /** The pool after a block was given back. */
  function AfterFree(pool: seq<nat>, address: nat): seq<nat> {
    if |pool| < POOL_SIZE then pool + [address] else pool
  }

  /** The pool after the blocks of the first `n` records were given back. */
  function AfterFrees(pool: seq<nat>, rs: seq<LogData>, n: nat): seq<nat>
    requires n <= |rs|
  {
    if n == 0 then pool else AfterFree(AfterFrees(pool, rs, n - 1), rs[n - 1].address)
  }

  /** Whether a record is counted as written. */
  function Writes(loggers: seq<LoggerInfo>, r: LogData, midnight: Midnight, open: OpenResult): nat {
    if 0 <= r.id < |loggers| && r.kind == General && !Discards(loggers[r.id], r)
       && Output(loggers[r.id], r, midnight, open).ok then 1
    else 0
  }

  /** The loggers after the first `n` records. */
  function AfterRecords(loggers: seq<LoggerInfo>, rs: seq<LogData>, midnight: Midnight, opens: seq<OpenResult>,
                        n: nat): (r: seq<LoggerInfo>)
    requires n <= |rs| <= |opens|
    ensures |r| == |loggers|
  {
    if n == 0 then loggers
    else AfterRecord(AfterRecords(loggers, rs, midnight, opens, n - 1), rs[n - 1], midnight, opens[n - 1])
  }

  lemma ProcessedSettings(l: LoggerInfo, r: LogData, midnight: Midnight, open: OpenResult)
    requires open.Some?
    ensures Processed(l, r, midnight, open).settings
            == if r.kind != General then ChangedSettings(l.settings, r.kind, r.typeval, r.content) else l.settings
  {
    hide Limit;
  }

  /** Draining the queue by hand, with every open succeeding, leaves each logger with the settings that
      the queue order prescribes. */
  lemma {:induction false} DrainSettings(loggers: seq<LoggerInfo>, rs: seq<LogData>, midnight: Midnight,
                                         opens: seq<OpenResult>, n: nat, i: nat)
    requires n <= |rs| <= |opens| && i < |loggers| && forall k :: 0 <= k < |opens| ==> opens[k].Some?
    ensures AfterRecords(loggers, rs, midnight, opens, n)[i].settings == SettingsAfter(loggers[i].settings, i, rs[..n])
    ensures LastChangesCount(loggers[i].settings, AfterRecords(loggers, rs, midnight, opens, n)[i].settings, i, rs[..n])
  {
    hide Processed, ChangedSettings, LastChangesCount, SettingsAfter;
    SettingsAreLastChanges(loggers[i].settings, i, rs[..n]);
    if n == 0 {
      assert rs[..0] == [];
      NoChanges(loggers[i].settings, i, []);
    }
    if n > 0 {
      var before := AfterRecords(loggers, rs, midnight, opens, n - 1);
      var r := rs[n - 1];
      DrainSettings(loggers, rs, midnight, opens, n - 1, i);
      if 0 <= r.id < |loggers| {
        ProcessedSettings(before[r.id], r, midnight, opens[n - 1]);
      }
      assert rs[..n - 1] + [r] == rs[..n];
      SettingsAfterOne(loggers[i].settings, i, rs[..n - 1], r);
    }
  }

  /** A record is counted as written if it passes its logger's tests, unless a file must be opened for it and
      cannot be. */
  lemma WrittenIs(loggers: seq<LoggerInfo>, r: LogData, midnight: Midnight, open: OpenResult)
    requires 0 <= r.id < |loggers| && Days(midnight) && DayKnown(loggers[r.id], midnight)
    ensures var l := loggers[r.id];
            Writes(loggers, r, midnight, open)
            == if r.kind == General && l.enable && r.level >= l.level
                  && (!l.settings.outFile || open.Some? || (l.handle.Some? && !Rolls(l, r, midnight)))
               then 1 else 0
  {
    hide Limit, Unsigned32;
    FullIs(loggers[r.id]);
  }

  /** A change is offered to the queue without a test. */
  lemma ChangesAreQueued(s: State, r: LogData)
    requires r.kind != General
    ensures AfterSeeRunning(s, r) == Pushing(r)
  {
  }

  /** The three tests of `pushLog`, taken one after the other without interference, queue a record
      exactly when its logger exists and does not discard it and the manager runs. */
  lemma TestsTogether(s: State, r: LogData, written: bytes)
    requires r.kind == General
    ensures var p1 := AfterSeeRunning(s, r);
            var p2 := if p1 == Admitted(r) then AfterSeeEnabled(s, r) else p1;
            var p3 := if p2 == Permitted(r) then AfterSeeLevel(s, r, written) else p2;
            p3 == if ValidId(s, r.id) && s.running && s.loggers[r.id].enable && r.level >= s.loggers[r.id].level
                  then Pushing(r.(content := Terminated(written)))
                  else Freeing(r)
  {
    hide Terminated;
  }

  /** The consumer's steps on one record, taken together, are the body of its loop: one logger changes as
      prescribed, and a general record is counted once. */
  lemma StepsTogether(s: State, r: LogData, midnight: Midnight, open: OpenResult)
    requires s.consumer == Processing(r)
    ensures var s1 := ConsumerStep(s, midnight, open);
            var s2 := if s1.consumer == Outputting(r) then ConsumerStep(s1, midnight, open) else s1;
            && s2.consumer == Releasing(r)
            && s2.loggers == AfterRecord(s.loggers, r, midnight, open)
            && s2.popCount == s.popCount + (if ValidId(s, r.id) && r.kind == General then 1 else 0)
            && s2.writeCount == s.writeCount + Writes(s.loggers, r, midnight, open)
  {
    hide Log4zLogger.OpenLogger, HotChanged;
  }

  /** `LogerManager`, with a `LoggerInfo` as a value and each update of one of its fields written back. */
  class LogerManager {
    var loggers: seq<LoggerInfo>
    var logs: seq<LogData>
    var logsCache: seq<LogData>
    var freeLogDatas: seq<nat>
    var running: bool
    var pushLogCount: nat
    var popLogCount: nat
    var writeFileCount: nat

    constructor (loggers: seq<LoggerInfo>)
      ensures this.loggers == loggers && logs == logsCache == [] && freeLogDatas == [] && !running
      ensures pushLogCount == popLogCount == writeFileCount == 0
    {
      this.loggers := loggers;
      logs, logsCache, freeLogDatas, running := [], [], [], false;
      pushLogCount, popLogCount, writeFileCount := 0, 0, 0;
    }

    /** Everything waiting, oldest first. */
    function Waiting(): seq<LogData>
      reads this
    {
      logsCache + logs
    }

    /** `block` is what the allocator would return; it is used only when the pool is empty. */
    method MakeLogData(id: int, level: int, time: int, header: bytes, block: nat) returns (log: LogData)
      modifies this`freeLogDatas
      ensures log == LogData(log.address, id, level, General, 0, time, header)
      ensures old(freeLogDatas) == [] ==> log.address == block && freeLogDatas == []
      ensures old(freeLogDatas) != [] ==> freeLogDatas + [log.address] == old(freeLogDatas)
    {
      var address := block;
      if freeLogDatas != [] {
        address := freeLogDatas[|freeLogDatas| - 1];
        freeLogDatas := freeLogDatas[..|freeLogDatas| - 1];
      }
      log := LogData(address, id, level, General, 0, time, header);
    }

    /** True if the block went back to the allocator. */
    method FreeLogData(log: LogData) returns (freed: bool)
      modifies this`freeLogDatas
      ensures freed <==> |old(freeLogDatas)| >= 200
      ensures freeLogDatas == if freed then old(freeLogDatas) else old(freeLogDatas) + [log.address]
      ensures freeLogDatas == AfterFree(old(freeLogDatas), log.address)
    {
      if |freeLogDatas| < POOL_SIZE {
        freeLogDatas := freeLogDatas + [log.address];
        return false;
      }
      return true;
    }

    /** A record is queued exactly when its logger exists, is enabled and does not filter its level, and
        the manager is running; the text is cut to leave room for its ending. */
    method PushLog(log: LogData, suffix: bytes) returns (pushed: bool)
      requires |log.content| + |suffix| <= 8192
      modifies this`logs, this`pushLogCount, this`freeLogDatas
      ensures pushed <==>
                0 <= log.id < |loggers| && running && loggers[log.id].enable && log.level >= loggers[log.id].level
      ensures pushed ==>
                var text := if loggers[log.id].settings.fileLine then log.content + suffix else log.content;
                && Waiting() == old(Waiting()) + [log.(content := text[..Min(|text|, 8189)] + [0x0D, 0x0A])]
                && pushLogCount == old(pushLogCount) + 1 && freeLogDatas == old(freeLogDatas)
      ensures !pushed ==>
                && Waiting() == old(Waiting()) && pushLogCount == old(pushLogCount)
                && freeLogDatas == AfterFree(old(freeLogDatas), log.address)
    {
      if log.id < 0 || log.id >= |loggers| || !running || !loggers[log.id].enable {
        var _ := FreeLogData(log);
        return false;
      }
      if log.level < loggers[log.id].level {
        var _ := FreeLogData(log);
        return false;
      }
      var content := log.content;
      if loggers[log.id].settings.fileLine {
        content := content + suffix;
      }
      ghost var text := content;
      if |content| + 3 > LOG_BUF_SIZE {
        content := content[..LOG_BUF_SIZE - 3];
      }
      assert content == text[..Min(|text|, 8189)];
      content := content + [0x0D, 0x0A];
      logs := logs + [log.(content := content)];
      pushLogCount := pushLogCount + 1;
      return true;
    }

    method OnHotChange(id: int, kind: LogDataType, num: int, text: bytes) returns (ok: bool)
      modifies this`loggers
      ensures ok <==> 0 <= id < |old(loggers)|
      ensures ok ==> loggers == old(loggers)[id := HotChanged(old(loggers)[id], kind, num, text)]
      ensures ok ==> OnlyFieldChanged(old(loggers)[id], loggers[id], kind, num, text)
      ensures !ok ==> loggers == old(loggers)
    {
      if id < 0 || id >= |loggers| {
        return false;
      }
      var logger := loggers[id];
      match kind {
        case EnableLogger => logger := logger.(enable := num != 0);
        case SetName => logger := logger.(settings := logger.settings.(name := text));
        case SetPath => logger := logger.(settings := logger.settings.(path := text));
        case SetLevel => logger := logger.(level := num);
        case SetFileLine => logger := logger.(settings := logger.settings.(fileLine := num != 0));
        case SetDisplay => logger := logger.(settings := logger.settings.(display := num != 0));
        case SetOutFile => logger := logger.(settings := logger.settings.(outFile := num != 0));
        case SetLimitSize => logger := logger.(settings := logger.settings.(limitSize := Unsigned32(num)));
        case SetMonthDir => logger := logger.(settings := logger.settings.(monthDir := num != 0));
        case SetReserveTime => logger := logger.(settings := logger.settings.(reserveTime :=
          if num >= 0 then num else 0));
        case General =>
      }
      loggers := loggers[id := logger];
      return true;
    }

    /** Queued while the manager runs, made at once while it does not. */
    method HotChange(id: int, kind: LogDataType, num: int, text: bytes, time: int, block: nat) returns (ok: bool)
      requires kind != General
      modifies this`loggers, this`logs, this`freeLogDatas
      ensures ok <==> 0 <= id < |old(loggers)| && |text| < 8192
      ensures ok && running ==>
                && loggers == old(loggers) && |Waiting()| == |old(Waiting())| + 1
                && var r := Waiting()[|old(Waiting())|];
                   && Waiting() == old(Waiting()) + [r]
                   && r == LogData(r.address, id, 1, kind, num, time, text)
                   && if old(freeLogDatas) == [] then r.address == block && freeLogDatas == []
                      else freeLogDatas + [r.address] == old(freeLogDatas)
      ensures ok && !running ==>
                loggers == old(loggers)[id := HotChanged(old(loggers)[id], kind, num, text)]
                  && Waiting() == old(Waiting())
      ensures !ok ==> loggers == old(loggers) && Waiting() == old(Waiting())
      ensures !(ok && running) ==> freeLogDatas == old(freeLogDatas)
    {
      if id < 0 || id >= |loggers| {
        return false;
      }
      if |text| >= LOG_BUF_SIZE {
        return false;
      }
      if !running {
        ok := OnHotChange(id, kind, num, text);
        return ok;
      }
      var log := MakeLogData(id, DEFAULT_LEVEL, time, [], block);
      log := log.(id := id, kind := kind, typeval := num, content := text);
      logs := logs + [log];
      return true;
    }

    /** `open` is what the file system answers if a file has to be opened. */
    method OpenLogger(log: LogData, midnight: Midnight, open: OpenResult) returns (ok: bool)
      modifies this`loggers
      ensures ok ==> 0 <= log.id < |old(loggers)|
      ensures 0 <= log.id < |old(loggers)| ==>
                var o := Log4zLogger.OpenLogger(old(loggers)[log.id], log, midnight, open);
                ok == o.ok && loggers == old(loggers)[log.id := o.logger]
      ensures !(0 <= log.id < |old(loggers)|) ==> loggers == old(loggers)
    {
      hide Limit;
      if log.id < 0 || log.id >= |loggers| {
        return false;
      }
      var logger := loggers[log.id];
      if !logger.enable || !logger.settings.outFile || log.level < logger.level {
        return false;
      }
      var sameDay := log.time >= logger.createDay && log.time - logger.createDay < DAY;
      var needChangeFile := logger.writeLen > Limit(logger.settings.limitSize);
      if !sameDay || needChangeFile {
        if !sameDay {
          logger := logger.(fileIndex := 0);
        } else {
          logger := logger.(fileIndex := Unsigned32(logger.fileIndex + 1));
        }
        logger := logger.(handle := None);
      }
      if logger.handle.None? {
        logger := logger.(writeLen := 0);
        logger := logger.(createDay := midnight(log.time));
        if open.None? {
          logger := logger.(settings := logger.settings.(outFile := false));
          loggers := loggers[log.id := logger];
          return false;
        }
        var s := logger.settings;
        var file := OpenFile(s.name, s.path, s.monthDir, log.time, logger.fileIndex, open.value, open.value);
        logger := logger.(handle := Some(file), writeLen := Unsigned32(open.value));
      }
      loggers := loggers[log.id := logger];
      return true;
    }

    /** The oldest waiting record. */
    method PopLog() returns (found: bool, log: LogData)
      modifies this`logs, this`logsCache
      ensures found <==> old(Waiting()) != []
      ensures found ==> old(Waiting()) == [log] + Waiting()
      ensures !found ==> Waiting() == []
    {
      log := LogData(0, 0, 0, General, 0, 0, []);
      if logsCache == [] {
        if logs != [] {
          logsCache, logs := logs, logsCache;
        }
      }
      if logsCache != [] {
        log := logsCache[0];
        logsCache := logsCache[1..];
        return true, log;
      }
      return false, log;
    }

    /** The body of the consumer's loop. */
    method HandleLog(log: LogData, midnight: Midnight, open: OpenResult)
      modifies this`loggers, this`freeLogDatas, this`popLogCount, this`writeFileCount
      ensures loggers == AfterRecord(old(loggers), log, midnight, open)
      ensures popLogCount
              == old(popLogCount) + (if 0 <= log.id < |old(loggers)| && log.kind == General then 1 else 0)
      ensures writeFileCount == old(writeFileCount) + Writes(old(loggers), log, midnight, open)
      ensures freeLogDatas == AfterFree(old(freeLogDatas), log.address)
    {
      hide Log4zLogger.OpenLogger, HotChanged, AfterFree;
      if log.id < 0 || log.id >= |loggers| {
        var _ := FreeLogData(log);
        return;
      }
      if log.kind != General {
        var _ := OnHotChange(log.id, log.kind, log.typeval, log.content);
        loggers := loggers[log.id := loggers[log.id].(handle := None)];
        var _ := FreeLogData(log);
        return;
      }
      popLogCount := popLogCount + 1;
      var curLogger := loggers[log.id];
      if !curLogger.enable || log.level < curLogger.level {
        var _ := FreeLogData(log);
        return;
      }
      if curLogger.settings.outFile {
        var isOpen := OpenLogger(log, midnight, open);
        if !isOpen {
          var _ := FreeLogData(log);
          return;
        }
        loggers := loggers[log.id := Write(loggers[log.id], log)];
        writeFileCount := writeFileCount + 1;
      } else {
        writeFileCount := writeFileCount + 1;
      }
      var _ := FreeLogData(log);
    }

    /** `while (popLog(pLog))`: everything waiting is handled, in order, and nothing is left. `opens` gives
        the file system's answer for each record. */
    method Drain(midnight: Midnight, opens: seq<OpenResult>)
      requires |opens| >= |Waiting()|
      modifies this`loggers, this`logs, this`logsCache, this`freeLogDatas, this`popLogCount, this`writeFileCount
      ensures Waiting() == []
      ensures loggers == AfterRecords(old(loggers), old(Waiting()), midnight, opens, |old(Waiting())|)
      ensures freeLogDatas == AfterFrees(old(freeLogDatas), old(Waiting()), |old(Waiting())|)
      ensures writeFileCount - old(writeFileCount) <= popLogCount - old(popLogCount)
    {
      hide AfterRecord, AfterFree;
      ghost var all := Waiting();
      var n := 0;
      while true
        invariant n <= |all| && Waiting() == all[n..]
        invariant loggers == AfterRecords(old(loggers), all, midnight, opens, n)
        invariant freeLogDatas == AfterFrees(old(freeLogDatas), all, n)
        invariant writeFileCount - old(writeFileCount) <= popLogCount - old(popLogCount)
        decreases |all| - n
      {
        var found, log := PopLog();
        if !found {
          return;
        }
        assert log == all[n];
        HandleLog(log, midnight, opens[n]);
        n := n + 1;
      }
    }
  }
}
