/** One logger of the log manager: its settings, its rolling file, and what a record does to them. */
module Log4zLogger {
  import opened Bytes

  const LOG_BUF_SIZE: nat := 1024 * 8
  const DAY: nat := 24 * 3600

  datatype LogDataType =
    | General
    | EnableLogger
    | SetName
    | SetPath
    | SetLevel
    | SetFileLine
    | SetDisplay
    | SetOutFile
    | SetLimitSize
    | SetMonthDir
    | SetReserveTime

  /** A `LogData`: the block of memory it occupies and what is written in it. */
  datatype LogData = LogData(address: nat, id: int, level: int, kind: LogDataType, typeval: int, time: int,
                             content: bytes)

  /** An open log file: the settings and the moment its path was made from, its length when it was
      opened and its length now. */
  datatype OpenFile = OpenFile(name: bytes, path: bytes, monthDir: bool, created: int, index: nat,
                               openedAt: nat, size: nat)

  /** The settings that change only through `onHotChange`. */
  datatype Settings = Settings(name: bytes, path: bytes, fileLine: bool, display: bool, outFile: bool,
                               monthDir: bool, limitSize: nat, reserveTime: int)

  datatype LoggerInfo = LoggerInfo(enable: bool, level: int, settings: Settings, handle: Option<OpenFile>,
                                   createDay: int, fileIndex: nat, writeLen: nat)

  /** Local midnight before a moment. */
  type Midnight = int -> int

  /** What the file system answers to an open: the length of the file, or nothing. */
  type OpenResult = Option<nat>

  function Unsigned32(x: int): (r: nat)
    ensures r < 0x1_0000_0000
  {
    x % 0x1_0000_0000
  }

  function ChangedSettings(s: Settings, kind: LogDataType, num: int, text: bytes): Settings {
    match kind
    case SetName => s.(name := text)
    case SetPath => s.(path := text)
    case SetFileLine => s.(fileLine := num != 0)
    case SetDisplay => s.(display := num != 0)
    case SetOutFile => s.(outFile := num != 0)
    case SetLimitSize => s.(limitSize := Unsigned32(num))
    case SetMonthDir => s.(monthDir := num != 0)
    case SetReserveTime => s.(reserveTime := if num >= 0 then num else 0)
    case _ => s
  }

  /** `onHotChange` on a logger that exists. */
  function HotChanged(l: LoggerInfo, kind: LogDataType, num: int, text: bytes): LoggerInfo {
    match kind
    case EnableLogger => l.(enable := num != 0)
    case SetLevel => l.(level := num)
    case _ => l.(settings := ChangedSettings(l.settings, kind, num, text))
  }

  /** What a change does, field by field: the field its kind names takes the value, all others stay. */
  predicate OnlyFieldChanged(l: LoggerInfo, l': LoggerInfo, kind: LogDataType, num: int, text: bytes) {
    var s, s' := l.settings, l'.settings;
    && l'.enable == (if kind == EnableLogger then num != 0 else l.enable)
    && l'.level == (if kind == SetLevel then num else l.level)
    && s'.name == (if kind == SetName then text else s.name)
    && s'.path == (if kind == SetPath then text else s.path)
    && s'.fileLine == (if kind == SetFileLine then num != 0 else s.fileLine)
    && s'.display == (if kind == SetDisplay then num != 0 else s.display)
    && s'.outFile == (if kind == SetOutFile then num != 0 else s.outFile)
    && s'.limitSize == (if kind == SetLimitSize then num % 0x1_0000_0000 else s.limitSize)
    && s'.monthDir == (if kind == SetMonthDir then num != 0 else s.monthDir)
    && s'.reserveTime == (if kind == SetReserveTime then (if num < 0 then 0 else num) else s.reserveTime)
    && l'.handle == l.handle && l'.createDay == l.createDay && l'.fileIndex == l.fileIndex && l'.writeLen == l.writeLen
  }

  lemma OneFieldChanges(l: LoggerInfo, kind: LogDataType, num: int, text: bytes)
    ensures OnlyFieldChanged(l, HotChanged(l, kind, num, text), kind, num, text)
  {
    match kind
    case EnableLogger =>
    case SetLevel =>
    case SetName =>
    case SetPath =>
    case SetFileLine =>
    case SetDisplay =>
    case SetOutFile =>
    case SetLimitSize =>
    case SetMonthDir =>
    case SetReserveTime =>
    case General =>
  }

  /** The size limit in bytes, computed in 32 bits. */
  function Limit(limitSize: nat): (r: nat)
    ensures r <= 0xFFF0_0000
  {
    var r := Unsigned32(limitSize * 1024 * 1024);
    assert r % 0x10_0000 == 0 by { Multiple(limitSize); }
    r
  }

  lemma Multiple(n: nat)
    ensures n * 1024 * 1024 % 0x1_0000_0000 % 0x10_0000 == 0
  {
    assert n * 1024 * 1024 == n / 4096 * 0x1_0000_0000 + n % 4096 * 0x10_0000;
  }

  /** The limit is what the setting says exactly below 4096 million. */
  lemma LimitIsExact(limitSize: nat)
    ensures Limit(limitSize) == limitSize % 4096 * 0x10_0000
    ensures Limit(limitSize) == limitSize * 0x10_0000 <==> limitSize < 4096
  {
    var q, r := limitSize / 4096, limitSize % 4096;
    assert limitSize * 1024 * 1024 == q * 0x1_0000_0000 + r * 0x10_0000 && r * 0x10_0000 < 0x1_0000_0000;
  }

  predicate SameDay(l: LoggerInfo, time: int) {
    time >= l.createDay && time - l.createDay < DAY
  }

  predicate Full(l: LoggerInfo) {
    l.writeLen > Limit(l.settings.limitSize)
  }

  predicate Discards(l: LoggerInfo, r: LogData) {
    !l.enable || r.level < l.level
  }

  /** Moving on to another file: the next index on the same day, index 0 on another day. */
  function Rolled(l: LoggerInfo, time: int): LoggerInfo {
    if !SameDay(l, time) then l.(fileIndex := 0, handle := None)
    else if Full(l) then l.(fileIndex := Unsigned32(l.fileIndex + 1), handle := None)
    else l
  }

  datatype Opening = Opening(ok: bool, logger: LoggerInfo)

  function OpenLogger(l: LoggerInfo, r: LogData, midnight: Midnight, open: OpenResult): (o: Opening)
    ensures o.ok ==> o.logger.handle.Some?
  {
    if Discards(l, r) || !l.settings.outFile then Opening(false, l)
    else
      var l1 := Rolled(l, r.time);
      if l1.handle.Some? then Opening(true, l1)
      else
        var l2 := l1.(createDay := midnight(r.time), writeLen := 0);
        match open
        case None => Opening(false, l2.(settings := l2.settings.(outFile := false)))
        case Some(n) =>
          var s := l2.settings;
          Opening(true, l2.(handle := Some(OpenFile(s.name, s.path, s.monthDir, r.time, l2.fileIndex, n, n)),
                            writeLen := Unsigned32(n)))
  }

  function Write(l: LoggerInfo, r: LogData): LoggerInfo
    requires l.handle.Some?
  {
    var f := l.handle.value;
    l.(handle := Some(f.(size := f.size + |r.content|)), writeLen := Unsigned32(l.writeLen + |r.content|))
  }

  /** The part of the consumer's loop after the discard test, and whether the record is counted as
      written. */
  function Output(l: LoggerInfo, r: LogData, midnight: Midnight, open: OpenResult): (o: Opening)
    ensures o.ok && l.settings.outFile ==> o.logger.handle.Some?
  {
    if !l.settings.outFile then Opening(true, l)
    else
      var o := OpenLogger(l, r, midnight, open);
      if o.ok then Opening(true, Write(o.logger, r)) else o
  }

  /** A configuration record: the change, then the file is closed. */
  function Reconfigured(l: LoggerInfo, r: LogData): LoggerInfo {
    HotChanged(l, r.kind, r.typeval, r.content).(handle := None)
  }

  /** What the consumer does to the logger of a record. */
  function Processed(l: LoggerInfo, r: LogData, midnight: Midnight, open: OpenResult): LoggerInfo {
    if r.kind != General then Reconfigured(l, r)
    else if Discards(l, r) then l
    else Output(l, r, midnight, open).logger
  }

  // ---- The end of a record ----

  /** What `pushLog` makes of the text in the buffer: cut so that CR, LF and NUL fit. */
  function Terminated(content: bytes): (r: bytes)
    ensures r == content[..Min(|content|, 8189)] + [0x0D, 0x0A]
    ensures 2 <= |r| <= 8191
    ensures |content| <= LOG_BUF_SIZE - 3 ==> r == content + [0x0D, 0x0A]
  {
    (if |content| + 3 > LOG_BUF_SIZE then content[..LOG_BUF_SIZE - 3] else content) + [0x0D, 0x0A]
  }

  // ---- Rolling ----

  /** Days of 24 hours: local midnights are moments a day begins at, and lie 24 hours apart. */
  ghost predicate Days(midnight: Midnight) {
    && (forall t :: midnight(t) <= t < midnight(t) + 86400)
    && (forall t, u :: midnight(t) <= u < midnight(t) + 86400 ==> midnight(u) == midnight(t))
  }

  /** The counter the manager keeps is the length of the open file modulo 2^32, and a file that was
      within the limit when it was opened is at most one record beyond it. */
  ghost predicate WithinLimit(l: LoggerInfo) {
    match l.handle
    case None => true
    case Some(f) =>
      && l.writeLen == Unsigned32(f.size) && f.openedAt <= f.size
      && (f.openedAt <= Limit(l.settings.limitSize) ==> f.size <= Limit(l.settings.limitSize) + 8191)
  }

  lemma SmallIsExact(n: nat)
    requires n < 0x1_0000_0000
    ensures Unsigned32(n) == n
  {
  }

  lemma OpenWithinLimit(l: LoggerInfo, r: LogData, midnight: Midnight, open: OpenResult)
    requires WithinLimit(l)
    ensures var o := OpenLogger(l, r, midnight, open);
            && WithinLimit(o.logger)
            && (o.ok ==>
                  var f := o.logger.handle.value;
                  f.openedAt <= Limit(o.logger.settings.limitSize) ==> f.size <= Limit(o.logger.settings.limitSize))
  {
    hide Limit;
    if l.handle.Some? && l.handle.value.openedAt <= Limit(l.settings.limitSize) {
      SmallIsExact(l.handle.value.size);
    }
  }

  /** Writing a record keeps the file within its limit plus 8191 bytes. */
  lemma SizeStaysBounded(l: LoggerInfo, r: LogData, midnight: Midnight, open: OpenResult)
    requires WithinLimit(l) && |r.content| < LOG_BUF_SIZE
    ensures WithinLimit(Output(l, r, midnight, open).logger)
  {
    hide Limit, OpenLogger, Unsigned32;
    OpenWithinLimit(l, r, midnight, open);
    var o := OpenLogger(l, r, midnight, open);
    if o.logger.handle.Some? {
      CountersAgree(o.logger.handle.value.size, |r.content|);
    }
  }

  lemma CountersAgree(size: nat, n: nat)
    ensures Unsigned32(Unsigned32(size) + n) == Unsigned32(size + n)
  {
  }

  // What becomes of the file index over a run of records.

  /** The logger after the first `n` records, with what each open answered. */
  function After(l: LoggerInfo, rs: seq<LogData>, midnight: Midnight, opens: seq<OpenResult>, n: nat): LoggerInfo
    requires n <= |rs| == |opens|
  {
    if n == 0 then l else Processed(After(l, rs, midnight, opens, n - 1), rs[n - 1], midnight, opens[n - 1])
  }

  predicate GoesToFile(l: LoggerInfo, r: LogData) {
    r.kind == General && l.enable && r.level >= l.level && l.settings.outFile
  }

  /** Where a record goes to another file: the day has changed, or the last file is over the limit. */
  predicate Rolls(l: LoggerInfo, r: LogData, midnight: Midnight) {
    midnight(r.time) != l.createDay || l.writeLen > l.settings.limitSize % 4096 * 0x10_0000
  }

  /** The day of the current file is a day: true from the first open on. */
  ghost predicate DayKnown(l: LoggerInfo, midnight: Midnight) {
    exists t :: l.createDay == midnight(t)
  }

  /** The three cases of the file index when a record is written: 0 on a new day, one more when the
      file is full, the same otherwise. Either way the file is now of the record's day. */
  lemma IndexRule(l: LoggerInfo, r: LogData, midnight: Midnight, open: OpenResult)
    requires Days(midnight) && DayKnown(l, midnight) && GoesToFile(l, r) && open.Some?
    ensures var l' := Processed(l, r, midnight, open);
            && l'.createDay == midnight(r.time)
            && l'.fileIndex == if midnight(r.time) != l.createDay then 0
                               else if l.writeLen > l.settings.limitSize % 4096 * 0x10_0000
                                    then (l.fileIndex + 1) % 0x1_0000_0000
                               else l.fileIndex
  {
    hide Limit, Unsigned32;
    FullIs(l);
    NextIs(l.fileIndex);
  }

  lemma FullIs(l: LoggerInfo)
    ensures Full(l) <==> l.writeLen > l.settings.limitSize % 4096 * 0x10_0000
  {
    hide Limit;
    LimitIsExact(l.settings.limitSize);
  }

  lemma NextIs(i: nat)
    ensures Unsigned32(i + 1) == (i + 1) % 0x1_0000_0000
  {
  }

  /** The file a record is written to: the open one if the record does not roll it, and otherwise the one
      opened for it, of length `n`, under the current name, path and month directory. Exactly the record's
      text is added to it. */
  lemma FileAfterRecord(l: LoggerInfo, r: LogData, midnight: Midnight, n: nat)
    requires Days(midnight) && DayKnown(l, midnight) && GoesToFile(l, r) && WithinLimit(l)
    ensures var l' := Processed(l, r, midnight, Some(n));
            && l'.settings == l.settings && l'.enable == l.enable && l'.level == l.level
            && l'.handle.Some? && l'.writeLen == l'.handle.value.size % 0x1_0000_0000
            && l'.handle.value == if l.handle.Some? && !Rolls(l, r, midnight)
                                  then l.handle.value.(size := l.handle.value.size + |r.content|)
                                  else OpenFile(l.settings.name, l.settings.path, l.settings.monthDir, r.time,
                                                l'.fileIndex, n, n + |r.content|)
  {
    hide Limit, Unsigned32;
    FullIs(l);
    if l.handle.Some? {
      CountersAgree(l.handle.value.size, |r.content|);
    }
    CountersAgree(n, |r.content|);
    WordIs(n + |r.content|);
    if l.handle.Some? {
      WordIs(l.handle.value.size + |r.content|);
    }
  }

  lemma WordIs(n: nat)
    ensures Unsigned32(n) == n % 0x1_0000_0000
  {
  }

  /** Where a file has to be opened and cannot be, nothing is written and the logger stops writing files. */
  lemma RefusedOpen(l: LoggerInfo, r: LogData, midnight: Midnight)
    requires Days(midnight) && DayKnown(l, midnight) && GoesToFile(l, r)
    requires l.handle.None? || Rolls(l, r, midnight)
    ensures var o := Output(l, r, midnight, None);
            !o.ok && o.logger.handle.None? && o.logger.settings == l.settings.(outFile := false)
  {
    hide Limit, Unsigned32;
    FullIs(l);
  }

  lemma FirstOpen(l: LoggerInfo, r: LogData, midnight: Midnight, open: OpenResult)
    requires GoesToFile(l, r) && open.Some? && l.handle.None?
    ensures Processed(l, r, midnight, open).createDay == midnight(r.time)
  {
    hide Limit, Unsigned32;
  }

  /** Any other record leaves index and day alone. */
  lemma OtherwiseUnchanged(l: LoggerInfo, r: LogData, midnight: Midnight, open: OpenResult)
    requires !GoesToFile(l, r)
    ensures var l' := Processed(l, r, midnight, open);
            && l'.fileIndex == l.fileIndex && l'.createDay == l.createDay && l'.writeLen == l.writeLen
            && if r.kind == General then l' == l else l'.handle.None?
  {
  }

  lemma {:induction false} OpenFilesHaveDays(l: LoggerInfo, rs: seq<LogData>, midnight: Midnight,
                                             opens: seq<OpenResult>, n: nat)
    requires n <= |rs| == |opens| && forall k :: 0 <= k < |opens| ==> opens[k].Some?
    requires Days(midnight) && (l.handle.Some? ==> DayKnown(l, midnight))
    ensures var l' := After(l, rs, midnight, opens, n); l'.handle.Some? ==> DayKnown(l', midnight)
  {
    if n > 0 {
      hide Processed;
      var before, r, open := After(l, rs, midnight, opens, n - 1), rs[n - 1], opens[n - 1];
      OpenFilesHaveDays(l, rs, midnight, opens, n - 1);
      if !GoesToFile(before, r) {
        OtherwiseUnchanged(before, r, midnight, open);
      } else if before.handle.None? {
        FirstOpen(before, r, midnight, open);
      } else {
        IndexRule(before, r, midnight, open);
      }
    }
  }

  /** While days last 24 hours, record times do not fall back and opens succeed: once a record has been
      written on some day, the file index never falls on that day, however many records of whatever
      kind follow. */
  lemma {:induction false} IndexNeverFalls(l: LoggerInfo, rs: seq<LogData>, midnight: Midnight, opens: seq<OpenResult>,
                                           i: nat, j: nat)
    requires i < j < |rs| == |opens| && forall k :: 0 <= k < |opens| ==> opens[k].Some?
    requires Days(midnight) && (l.handle.Some? ==> DayKnown(l, midnight))
    requires forall a, b :: 0 <= a < b < |rs| ==> rs[a].time <= rs[b].time
    requires GoesToFile(After(l, rs, midnight, opens, i), rs[i])
    requires midnight(rs[i].time) == midnight(rs[j].time)
    requires After(l, rs, midnight, opens, i + 1).fileIndex + (j - i) < 0x1_0000_0000
    ensures var first, last := After(l, rs, midnight, opens, i + 1), After(l, rs, midnight, opens, j + 1);
            && first.createDay == last.createDay == midnight(rs[i].time)
            && first.fileIndex <= last.fileIndex <= first.fileIndex + (j - i)
    decreases j
  {
    hide Processed, GoesToFile;
    var before := After(l, rs, midnight, opens, j);
    if j == i + 1 {
      var start := After(l, rs, midnight, opens, i);
      OpenFilesHaveDays(l, rs, midnight, opens, i);
      if start.handle.None? {
        FirstOpen(start, rs[i], midnight, opens[i]);
      } else {
        IndexRule(start, rs[i], midnight, opens[i]);
      }
    } else {
      assert midnight(rs[i].time) <= rs[i].time <= rs[j - 1].time <= rs[j].time < midnight(rs[i].time) + DAY;
      IndexNeverFalls(l, rs, midnight, opens, i, j - 1);
    }
    NextIndex(before, rs[j], midnight, opens[j]);
  }

  lemma NextIndex(l: LoggerInfo, r: LogData, midnight: Midnight, open: OpenResult)
    requires Days(midnight) && l.createDay == midnight(r.time) && l.fileIndex < 0xFFFF_FFFF && open.Some?
    ensures var l' := Processed(l, r, midnight, open);
            l'.createDay == l.createDay && l.fileIndex <= l'.fileIndex <= l.fileIndex + 1
  {
    hide Processed;
    if GoesToFile(l, r) {
      IndexRule(l, r, midnight, open);
    } else {
      OtherwiseUnchanged(l, r, midnight, open);
    }
  }

  /** Over any run, every file that was within the limit when it was opened stays within the limit plus
      8191 bytes, whatever is logged, reconfigured or refused by the file system. */
  lemma {:induction false} FilesStayBounded(l: LoggerInfo, rs: seq<LogData>, midnight: Midnight,
                                            opens: seq<OpenResult>, n: nat)
    requires n <= |rs| == |opens| && WithinLimit(l)
    requires forall k :: 0 <= k < |rs| ==> |rs[k].content| < LOG_BUF_SIZE
    ensures WithinLimit(After(l, rs, midnight, opens, n))
  {
    hide Output, HotChanged, Limit;
    if n > 0 {
      FilesStayBounded(l, rs, midnight, opens, n - 1);
      SizeStaysBounded(After(l, rs, midnight, opens, n - 1), rs[n - 1], midnight, opens[n - 1]);
    }
  }

  /** Over any run, while the day stays the same the file index changes only where a record goes to a file
      and the counter of the last file, which is the length of the open one modulo 2^32, is over the
      limit; and then it is raised by one. */
  lemma IndexRisesWhenFull(l: LoggerInfo, rs: seq<LogData>, midnight: Midnight, opens: seq<OpenResult>, n: nat)
    requires n < |rs| == |opens| && forall k :: 0 <= k < |opens| ==> opens[k].Some?
    requires Days(midnight) && DayKnown(After(l, rs, midnight, opens, n), midnight) && WithinLimit(l)
    requires forall k :: 0 <= k < |rs| ==> |rs[k].content| < 8192
    ensures var before, after := After(l, rs, midnight, opens, n), After(l, rs, midnight, opens, n + 1);
            var limit := before.settings.limitSize % 4096 * 0x10_0000;
            after.createDay == before.createDay && after.fileIndex != before.fileIndex ==>
              && GoesToFile(before, rs[n])
              && after.fileIndex == (before.fileIndex + 1) % 0x1_0000_0000
              && before.writeLen > limit
              && (before.handle.Some? ==> before.handle.value.size % 0x1_0000_0000 > limit)
  {
    hide Processed, GoesToFile;
    var before := After(l, rs, midnight, opens, n);
    FilesStayBounded(l, rs, midnight, opens, n);
    if before.handle.Some? {
      WordIs(before.handle.value.size);
    }
    if GoesToFile(before, rs[n]) {
      IndexRule(before, rs[n], midnight, opens[n]);
    } else {
      OtherwiseUnchanged(before, rs[n], midnight, opens[n]);
    }
  }
}
