/**
 * The weekly reset and the CSV export of clock logs.
 */
module TimesheetService {
  import opened Wrappers
  import opened Entities
  import opened Exceptions
  import opened Repositories
  import opened Text
  import opened AuthService
  import AuditService

  // ---------------------------------------------------------------------
  // Weekly reset
  // ---------------------------------------------------------------------

  /** weeklyReset: every clock log is deleted and the reset is audited as a system action. */
  method WeeklyReset(clocks: ClockLogRepository, audits: AuditLogRepository, now: int)
    requires clocks.Valid() && audits.Valid()
    modifies clocks, audits
    ensures audits.nextId == old(audits.nextId) + |audits.entries| - |old(audits.entries)|
    ensures clocks.Valid() && audits.Valid()
    ensures clocks.logs == [] && clocks.nextId == old(clocks.nextId)
    ensures audits.entries == old(audits.entries) + [AuditLog(old(audits.nextId), None, "WEEKLY_RESET_SUCCESS", "SUCCESS", None, now,
                                                             "Timesheet data cleared for the new week.")]
  {
    clocks.DeleteAllInBatch();
    AuditService.Log(audits, now, None, "WEEKLY_RESET_SUCCESS", "SUCCESS", "Timesheet data cleared for the new week.");
  }

  // ---------------------------------------------------------------------
  // Export windows
  // ---------------------------------------------------------------------

  /** Day 0 (1970-01-01) is a Thursday, so the Mondays are the days d with d + 3 divisible by 7. */
  predicate IsMonday(d: int)
  {
    (d + 3) % 7 == 0
  }

  /** previousOrSame(MONDAY): the Monday of the week holding day `d`. */
  function MondayOnOrBefore(d: int): (m: int)
    ensures IsMonday(m) && m <= d < m + 7
  {
    d - (d + 3) % 7
  }

  /** Each day lies in exactly one Monday-to-Sunday week. */
  lemma MondayOnOrBeforeUnique(d: int, m: int)
    requires IsMonday(m) && m <= d < m + 7
    ensures m == MondayOnOrBefore(d)
  {

  }

  /** The window of the parameterless export: from this week's Monday midnight to the next Monday's. */
  function CurrentWeekWindow(today: int): (w: (int, int))
    ensures w.1 == w.0 + 7 * SecondsPerDay
    ensures IsMonday(DayOf(w.0)) && w.0 == StartOfDay(DayOf(w.0))
    ensures DayOf(w.0) <= today < DayOf(w.0) + 7
  {
    var monday := MondayOnOrBefore(today);
    (StartOfDay(monday), StartOfDay(monday + 7))
  }

  // ---------------------------------------------------------------------
  // CSV export
  // ---------------------------------------------------------------------

  /** The header row the printer writes when it is opened. */
  const Headers: seq<string> := ["LogID", "UserID", "UserEmail", "Action", "Timestamp (UTC)", "SessionID", "DurationHours"]

  /** One CSV record, column by column; the timestamp is kept as seconds since the epoch. */
  datatype TimesheetRecord = TimesheetRecord(
    logId: int,
    userId: int,
    userEmail: string,
    action: string,
    timestamp: int,
    sessionId: string,
    durationHours: string)

  function ActionName(a: ClockAction): string
  {
    match a
    case ClockIn => "CLOCK_IN"
    case ClockOut => "CLOCK_OUT"
  }

  /** The record printed for one log: a missing session id or duration prints as an empty field. */
  function RecordOf(log: ClockLog): (rec: TimesheetRecord)
    ensures rec.logId == log.id && rec.userId == log.owner.id && rec.userEmail == log.owner.email
    ensures rec.timestamp == log.timestamp
    ensures rec.action == "CLOCK_IN" <==> log.action == ClockIn
    ensures rec.action == "CLOCK_OUT" <==> log.action == ClockOut
    ensures rec.sessionId == (if log.sessionId.Some? then log.sessionId.value else "")
    ensures rec.durationHours == "" <==> log.durationHours.None?
    ensures log.durationHours.Some? ==> rec.durationHours == FormatTwoDecimals(log.durationHours.value)
  {
    TimesheetRecord(log.id, log.owner.id, log.owner.email, ActionName(log.action), log.timestamp,
                    if log.sessionId.Some? then log.sessionId.value else "",
                    if log.durationHours.Some? then FormatTwoDecimals(log.durationHours.value) else "")
  }

  /** The records of a complete export: one per log, in the order the logs were found. */
  function Records(logs: seq<ClockLog>): (rs: seq<TimesheetRecord>)
    ensures |rs| == |logs|
    ensures forall i :: 0 <= i < |logs| ==> rs[i] == RecordOf(logs[i])
  {
    seq(|logs|, i requires 0 <= i < |logs| => RecordOf(logs[i]))
  }

  /**
   * Where the writer under the export fails, if it does: while printing the
   * header, while printing the record of logs[index], or when the printer
   * is closed after the last record. A failure scheduled past the last
   * record never happens.
   */
  datatype WriteFailure =
    | NoFailure
    | FailsOnHeader(message: string)
    | FailsOnRecord(index: nat, message: string)
    | FailsOnClose(message: string)

  /** The number of records fully printed before the writer fails. */
  function RecordsBeforeFailure(failure: WriteFailure, n: nat): (k: nat)
    ensures k <= n
  {
    match failure
    case FailsOnHeader(_) => 0
    case FailsOnRecord(i, _) => if i < n then i else n
    case _ => n
  }

  /** Whether the export reaches its success audit. */
  predicate PrintsAll(failure: WriteFailure, n: nat)
  {
    !failure.FailsOnHeader? && !(failure.FailsOnRecord? && failure.index < n)
  }

  function ExportError(message: string): AppException
  {
    Runtime("Failed to write data to CSV file: " + message)
  }

  const ExportSuccessDetails: string := "Timesheet exported."

  function ExportFailureDetails(message: string): string
  {
    "Error exporting timesheet: " + message
  }

  /**
   * The audit entries one export appends, numbered from `nextId`: the
   * success entry when every record was printed, the failure entry when
   * the writer failed before that, and both when it failed on close.
   */
  function ExportAudits(failure: WriteFailure, n: nat, nextId: int, now: int): (es: seq<AuditLog>)
    ensures |es| == if PrintsAll(failure, n) && failure.FailsOnClose? then 2 else 1
    ensures forall i :: 0 <= i < |es| ==> es[i].id == nextId + i && es[i].userId.None? && es[i].timestamp == now
    ensures (es[0].status == "SUCCESS") <==> PrintsAll(failure, n)
    ensures (es[|es| - 1].status == "SUCCESS") <==> PrintsAll(failure, n) && !failure.FailsOnClose?
  {
    var success := AuditLog(nextId, None, "TIMESHEET_EXPORT", "SUCCESS", None, now, ExportSuccessDetails);
    if !PrintsAll(failure, n) then
      [AuditLog(nextId, None, "TIMESHEET_EXPORT_FAILURE", "FAILURE", None, now, ExportFailureDetails(failure.message))]
    else if failure.FailsOnClose? then
      [success, AuditLog(nextId + 1, None, "TIMESHEET_EXPORT_FAILURE", "FAILURE", None, now, ExportFailureDetails(failure.message))]
    else
      [success]
  }

  /**
   * writeTimesheetToCsv: the header, then one record per log; a completed
   * print is audited as TIMESHEET_EXPORT, a writer failure as
   * TIMESHEET_EXPORT_FAILURE and rethrown. A failure on close comes after
   * the success audit, so that export is audited both ways.
   */
  method WriteTimesheetToCsv(audits: AuditLogRepository, logs: seq<ClockLog>, failure: WriteFailure, now: int)
    returns (header: seq<string>, written: seq<TimesheetRecord>, r: Result<()>)
    requires audits.Valid()
    modifies audits
    ensures audits.nextId == old(audits.nextId) + |audits.entries| - |old(audits.entries)|
    ensures audits.Valid()
    ensures header == if failure.FailsOnHeader? then [] else Headers
    ensures written == Records(logs)[..RecordsBeforeFailure(failure, |logs|)]
    ensures audits.entries == old(audits.entries) + ExportAudits(failure, |logs|, old(audits.nextId), now)
    ensures r == if PrintsAll(failure, |logs|) && !failure.FailsOnClose? then Ok(()) else Err(ExportError(failure.message))
  {
    header, written := [], [];
    if failure.FailsOnHeader? {
      AuditService.Log(audits, now, None, "TIMESHEET_EXPORT_FAILURE", "FAILURE", ExportFailureDetails(failure.message));
      return header, written, Err(ExportError(failure.message));
    }
    header := Headers;
    var completed;
    written, completed := PrintRecords(logs, failure);
    if !completed {
      AuditService.Log(audits, now, None, "TIMESHEET_EXPORT_FAILURE", "FAILURE", ExportFailureDetails(failure.message));
      return header, written, Err(ExportError(failure.message));
    }
    AuditService.Log(audits, now, None, "TIMESHEET_EXPORT", "SUCCESS", ExportSuccessDetails);
    if failure.FailsOnClose? {
      AuditService.Log(audits, now, None, "TIMESHEET_EXPORT_FAILURE", "FAILURE", ExportFailureDetails(failure.message));
      return header, written, Err(ExportError(failure.message));
    }
    r := Ok(());
  }

  /**
   * The record loop of writeTimesheetToCsv, once the header is out: one
   * record per log, in order, until the writer fails on one of them.
   */
  method PrintRecords(logs: seq<ClockLog>, failure: WriteFailure) returns (written: seq<TimesheetRecord>, completed: bool)
    requires !failure.FailsOnHeader?
    ensures completed <==> PrintsAll(failure, |logs|)
    ensures written == Records(logs)[..RecordsBeforeFailure(failure, |logs|)]
  {
    written := [];
    var i := 0;
    while i < |logs|
      invariant 0 <= i <= |logs|
      invariant failure.FailsOnRecord? ==> i <= failure.index
      invariant written == Records(logs)[..i]
    {
      if failure.FailsOnRecord? && failure.index == i {
        return written, false;
      }
      written := written + [RecordOf(logs[i])];
      i := i + 1;
    }
    completed := true;
  }

  /** exportWeeklyTimesheet(writer, startDate, endDate): the logs stamped in [start, end], exported. */
  method ExportWeeklyTimesheet(clocks: ClockLogRepository, audits: AuditLogRepository, start: int, end: int,
                               failure: WriteFailure, now: int)
    returns (header: seq<string>, written: seq<TimesheetRecord>, r: Result<()>)
    requires audits.Valid()
    modifies audits
    ensures audits.nextId == old(audits.nextId) + |audits.entries| - |old(audits.entries)|
    ensures audits.Valid()
    ensures header == if failure.FailsOnHeader? then [] else Headers
    ensures var logs := FindByTimestampBetween(clocks.logs, start, end);
            && written == Records(logs)[..RecordsBeforeFailure(failure, |logs|)]
            && r == (if PrintsAll(failure, |logs|) && !failure.FailsOnClose? then Ok(()) else Err(ExportError(failure.message)))
            && audits.entries == old(audits.entries) + ExportAudits(failure, |logs|, old(audits.nextId), now)
  {
    var logs := FindByTimestampBetween(clocks.logs, start, end);
    header, written, r := WriteTimesheetToCsv(audits, logs, failure, now);
  }

  /** exportWeeklyTimesheet(writer): the same export over the current Monday-to-Monday window. */
  method ExportCurrentWeek(clocks: ClockLogRepository, audits: AuditLogRepository, today: int,
                           failure: WriteFailure, now: int)
    returns (header: seq<string>, written: seq<TimesheetRecord>, r: Result<()>)
    requires audits.Valid()
    modifies audits
    ensures audits.nextId == old(audits.nextId) + |audits.entries| - |old(audits.entries)|
    ensures audits.Valid()
    ensures header == if failure.FailsOnHeader? then [] else Headers
    ensures var w := CurrentWeekWindow(today);
            var logs := FindByTimestampBetween(clocks.logs, w.0, w.1);
            && written == Records(logs)[..RecordsBeforeFailure(failure, |logs|)]
            && r == (if PrintsAll(failure, |logs|) && !failure.FailsOnClose? then Ok(()) else Err(ExportError(failure.message)))
            && audits.entries == old(audits.entries) + ExportAudits(failure, |logs|, old(audits.nextId), now)
  {
    var w := CurrentWeekWindow(today);
    header, written, r := ExportWeeklyTimesheet(clocks, audits, w.0, w.1, failure, now);
  }

  /** An uninterrupted export prints a record for every log of the window and nothing else. */
  lemma CompleteExportCoversWindow(logs: seq<ClockLog>, failure: WriteFailure)
    requires PrintsAll(failure, |logs|)
    ensures var written := Records(logs)[..RecordsBeforeFailure(failure, |logs|)];
            forall rec :: rec in written <==> exists l :: l in logs && RecordOf(l) == rec
  {

  }

  /** After the reset no user has a clock log, so every employee's next PIN entry starts a session. */
  lemma NextActionAfterResetIsClockIn(e: User, now: int, freshSessionId: string)
    ensures LatestLog([], e.id) == None
    ensures var n := NextClockLog(LatestLog([], e.id), e, now, freshSessionId);
            n.action == ClockIn && n.sessionId == Some(freshSessionId) && n.durationHours == None
  {
  }
}
