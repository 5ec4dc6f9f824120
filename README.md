# Timesheet attendance engine — a Dafny model

This project models the server side of an offline timesheet system:

- An employee kiosk identifies the employee from a bare PIN. It then records a clock-in or a clock-out, per a two-state machine over the employee's latest clock log.
- An administrative surface authenticates admins, aggregates weekly hours, reports live statuses, creates, re-keys and deletes users, and renders audit entries.
- A scheduled weekly purge empties the clock-log store.
- A CSV export prints clock logs.
- An append-only audit recorder writes one entry per audited event.
- A global exception handler maps service failures to HTTP responses.

Modules, one per source component:

| module | file | models |
|---|---|---|
| `Wrappers` | wrappers.dfy | `Option` |
| `Entities` | entities.dfy | users, clock logs, audit entries, roles and actions; the time model; the password encoder |
| `Exceptions` | exceptions.dfy | the exceptions the services raise, and `Result` |
| `Repositories` | repositories.dfy | the three stores as classes over sequences, plus their derived queries |
| `AuditService` | audit_service.dfy | `log` |
| `Text` | text.dfy | ASCII case mapping, blank test, integer and `%.2f` formatting, joining |
| `AuthService` | auth_service.dfy | kiosk PIN resolution, the clock state machine and its history invariant, the display name from an email, and admin login |
| `AdminService` | admin_service.dfy | the weekly timesheet, user statuses, user-store mutations with the duplicate-PIN rule, and the audit display |
| `TimesheetService` | timesheet_service.dfy | the weekly reset, the export windows and the CSV export |
| `GlobalExceptionHandler` | global_exception_handler.dfy | exception to (status, body) |

Modelling choices:

- **Time.** A timestamp is an integer count of seconds since 1970-01-01T00:00. A calendar date is the day number `timestamp / 86400`; day 0 is a Thursday. Duration.toMinutes truncates toward zero, and `WholeMinutes` does the same for negative spans too.
- **Hours.** Hours are Dafny `real`, so minutes / 60 is exact.
- **Password encoder.** The encoder is a value holding two functions, `encode` and `matches`. The lemmas that need it assume `Sound(enc)`: every PIN matches its own hash.
- **Fresh values.** The current instant (`now`), the random session UUID (`freshSessionId`) and the writer's failure point (`WriteFailure`) are parameters.
- **Stores.** Each store is a class with a sequence field and the next identity value. Its `Valid()` states three things: ids are positive, ids increase, and ids stay below the counter. For users, emails are also unique.
- **Log owners.** A clock log's user is held as an `Owner(id, email)` snapshot.
- **Latest log.** `findTopByUserIdOrderByTimestampDesc` is the log with the greatest timestamp. Ties go to the later-saved log.
- **Range queries.** `findByTimestampBetween` includes both ends. A log stamped exactly at the next week's first midnight therefore falls in both weekly windows. In the weekly timesheet it gives its owner a row but adds to none of the seven days.
- **PIN matching.** The source's kiosk scan stops at the first employee whose hash matches the PIN (`findFirst`). It does not scan all candidates, and the model follows the code here.

The central invariant is `AuthService.KioskPreservesHistories`. Each user's clock logs, in store order, have these properties:

- they alternate CLOCK_IN / CLOCK_OUT, starting with CLOCK_IN;
- their timestamps never decrease;
- a CLOCK_IN carries no duration;
- each CLOCK_OUT carries the session of the CLOCK_IN before it, and the whole minutes since that clock-in, in hours.

Every kiosk action preserves these properties, provided the clock is not behind the employee's latest log. `HandlePinClockAction` states this preservation in its own contract.

## Model

| member | source | states |
|---|---|---|
| Entities.DayOf | src/main/java/com/timesheet/offline/service/AdminService.java:88 | the calendar date of a timestamp: the day whose midnight-to-midnight span contains it |
| Entities.WholeMinutes | src/main/java/com/timesheet/offline/service/AuthService.java:84-86 | Duration.toMinutes: the whole minutes between two instants, truncated toward zero in both directions |
| Repositories.FindAllByRole | src/main/java/com/timesheet/offline/repository/UserRepository.java:38 | exactly the stored users holding the role, listed in the order the store holds them |
| Repositories.FindAllByRoleIncreasingIds | src/main/java/com/timesheet/offline/repository/UserRepository.java:38 | in a store whose ids increase, the users of a role come by increasing id, so no user is listed twice |
| Repositories.FindAllByRoleAndIdNot | src/main/java/com/timesheet/offline/repository/UserRepository.java:48 | exactly the stored users holding the role whose id differs from the given one, listed in the order the store holds them |
| Repositories.IndexOfId | src/main/java/com/timesheet/offline/service/AdminService.java:199-200 | the position of the user with that id; None exactly when no user has it |
| Repositories.FindById | src/main/java/com/timesheet/offline/service/AdminService.java:207-208 | a stored user with that id; None exactly when no stored user has it |
| Repositories.ExistsByEmail | src/main/java/com/timesheet/offline/repository/UserRepository.java:29 | true exactly when some stored user has the email |
| Repositories.FindByEmail | src/main/java/com/timesheet/offline/repository/UserRepository.java:21 | a stored user with that email; None exactly when existsByEmail is false |
| Repositories.LogsOf | src/main/java/com/timesheet/offline/repository/ClockLogRepository.java:26 | exactly the logs owned by the user |
| Repositories.LatestLog | src/main/java/com/timesheet/offline/repository/ClockLogRepository.java:26 | None exactly when the user has no log; otherwise one of the user's logs whose timestamp is at least that of every other log of the user |
| Repositories.FindByTimestampBetween | src/main/java/com/timesheet/offline/repository/ClockLogRepository.java:35 | exactly the logs with start <= timestamp <= end, both ends included, listed in the order the store holds them |
| Repositories.FindByTimestampBetweenAppend | src/main/java/com/timesheet/offline/repository/ClockLogRepository.java:35 | saving one more log extends the result by that log exactly when its timestamp is in range, and leaves the rest as it was |
| Repositories.FindByTimestampBetweenIncreasingIds | src/main/java/com/timesheet/offline/repository/ClockLogRepository.java:35 | in a store whose ids increase, the logs in range come by increasing id, so no log is listed twice |
| Repositories.UserRepository.constructor | src/main/java/com/timesheet/offline/repository/UserRepository.java:15 | an empty user store |
| Repositories.UserRepository.Insert | src/main/java/com/timesheet/offline/service/AdminService.java:175-180 | a new user is appended with the next identity value; ids stay increasing and emails unique |
| Repositories.UserRepository.UpdatePassword | src/main/java/com/timesheet/offline/service/AdminService.java:219-220 | only that user's hash changes |
| Repositories.UserRepository.DeleteAt | src/main/java/com/timesheet/offline/service/AdminService.java:201 | that user is removed and the others keep their order |
| Repositories.ClockLogRepository.constructor | src/main/java/com/timesheet/offline/repository/ClockLogRepository.java:18 | an empty clock-log store |
| Repositories.ClockLogRepository.Save | src/main/java/com/timesheet/offline/service/AuthService.java:94 | the log is appended with the next identity value and no earlier log changes |
| Repositories.ClockLogRepository.DeleteAllInBatch | src/main/java/com/timesheet/offline/repository/ClockLogRepository.java:41-43 | the store is emptied; identities are not reused |
| Repositories.AuditLogRepository.constructor | src/main/java/com/timesheet/offline/repository/AuditLogRepository.java:16 | an empty audit store |
| Repositories.AuditLogRepository.Save | src/main/java/com/timesheet/offline/service/AuditService.java:36 | the entry is appended with the next identity value and no earlier entry changes |
| AuditService.Log | src/main/java/com/timesheet/offline/service/AuditService.java:26-37 | exactly one entry is appended, holding the user id, action, status and details verbatim, no IP address and the current time; earlier entries are untouched |
| Text.Hundredths | src/main/java/com/timesheet/offline/service/TimesheetService.java:82 | the magnitude in hundredths rounded half-up: h - 0.5 <= abs(x) * 100 < h + 0.5 |
| Text.FormatTwoDecimals | src/main/java/com/timesheet/offline/service/TimesheetService.java:82 | the "%.2f" text always has a '.' three characters from the end |
| Text.FormatTwoDecimalsValue | src/main/java/com/timesheet/offline/service/TimesheetService.java:82 | the text reads back as the rounded value: a '-' exactly for negative values, then digits without a leading zero (a lone "0" aside), '.', and two digits, that together denote the hundredths rounded half-up |
| Text.RenderHundredthsValue | src/main/java/com/timesheet/offline/service/TimesheetService.java:82 | the text written for h hundredths reads back as h: a '-' exactly when the sign is asked for, then digits without a leading zero, '.', and two digits denoting h |
| Text.DecimalTextOf | src/main/java/com/timesheet/offline/service/TimesheetService.java:82 | digits, '.', and two digits denote the hundredths they spell |
| Text.NatToStringValue | src/main/java/com/timesheet/offline/service/TimesheetService.java:82 | the decimal digits of a whole number read back as that number, and start with '0' only when the number is 0 |
| Text.TwoDigitsValue | src/main/java/com/timesheet/offline/service/TimesheetService.java:82 | the two fraction digits read back as the hundredths below 100 they render |
| Text.IsBlank | src/main/java/com/timesheet/offline/service/AdminService.java:289 | String.isBlank: true exactly when every character is whitespace, the empty text included |
| Text.JoinWith | src/main/java/com/timesheet/offline/service/AuthService.java:152 | Collectors.joining: the length is the words' characters plus one separator between each pair of neighbouring words; the contents are pinned by SplitJoin, which recovers the words |
| Text.SplitJoin | src/main/java/com/timesheet/offline/service/AuthService.java:152 | splitting the joined text at the separator gives back the words, when no word contains the separator |
| Text.SplitWord | src/main/java/com/timesheet/offline/service/AuthService.java:152 | a word without the separator splits into itself alone |
| Text.SplitWordThen | src/main/java/com/timesheet/offline/service/AuthService.java:152 | a word followed by the separator is the first piece, followed by the pieces of the rest |
| AuthService.FirstMatch | src/main/java/com/timesheet/offline/service/AuthService.java:56-58 | the position of the first candidate whose hash matches the PIN, with no match before it; None exactly when no candidate matches |
| AuthService.MatchEmployee | src/main/java/com/timesheet/offline/service/AuthService.java:54-62 | the first employee in store order whose hash matches; admins are never candidates; None exactly when no employee's hash matches |
| AuthService.NextClockLog | src/main/java/com/timesheet/offline/service/AuthService.java:64-92 | the log the kiosk writes: owned by the employee and stamped now; a CLOCK_OUT exactly when the latest log is a CLOCK_IN, then carrying that session and the whole minutes since it in hours; otherwise a CLOCK_IN in the fresh session with no duration |
| AuthService.LogsOfAppend | src/main/java/com/timesheet/offline/service/AuthService.java:94 | saving a log extends only its owner's history, by that log |
| AuthService.LatestIsLastOfHistory | src/main/java/com/timesheet/offline/repository/ClockLogRepository.java:26 | when a user's timestamps never decrease, the latest log is the last one saved |
| AuthService.KioskPreservesHistories | src/main/java/com/timesheet/offline/service/AuthService.java:75-94 | appending the state machine's next log keeps every user's history well formed (alternation, order, untimed clock-ins, paired clock-outs) |
| AuthService.EmployeeHistoryStep | src/main/java/com/timesheet/offline/service/AuthService.java:64-94 | the acting employee's history, extended by the log the state machine builds from that employee's latest log, stays well formed |
| AuthService.HistoryStep | src/main/java/com/timesheet/offline/service/AuthService.java:75-92 | one step of the state machine keeps a single history well formed |
| AuthService.StepAlternates | src/main/java/com/timesheet/offline/service/AuthService.java:75-82 | after an absent or CLOCK_OUT latest log the next is CLOCK_IN, otherwise CLOCK_OUT, so the alternation continues |
| AuthService.StepOrdered | src/main/java/com/timesheet/offline/service/AuthService.java:68 | the new log is stamped now, not before the history's last log |
| AuthService.StepUntimed | src/main/java/com/timesheet/offline/service/AuthService.java:76-77 | a new CLOCK_IN carries no duration |
| AuthService.StepPaired | src/main/java/com/timesheet/offline/service/AuthService.java:81-89 | a new CLOCK_OUT carries the preceding CLOCK_IN's session and the whole minutes since it, in hours |
| AuthService.HistoryDurationsNonNegative | src/main/java/com/timesheet/offline/service/AuthService.java:84-89 | every duration in a well-formed history is non-negative |
| AuthService.LocalPart | src/main/java/com/timesheet/offline/service/AuthService.java:146 | split("@")[0]: the prefix before the first '@', holding no '@' |
| AuthService.RunLength | src/main/java/com/timesheet/offline/service/AuthService.java:149 | the length of the separator-free run that starts the text |
| AuthService.Fragments | src/main/java/com/timesheet/offline/service/AuthService.java:149-150 | split on '.', '_', '-' with the empty pieces dropped: non-empty, separator-free pieces that together hold every non-separator character of the text, in order |
| AuthService.WithoutSeparatorsAtRun | src/main/java/com/timesheet/offline/service/AuthService.java:149 | the non-separator characters of a text are its leading run followed by those after the separator that ends the run |
| AuthService.Capitalize | src/main/java/com/timesheet/offline/service/AuthService.java:151 | the first character is upper-cased and every later one lower-cased, keeping the length |
| AuthService.CapitalizeAll | src/main/java/com/timesheet/offline/service/AuthService.java:151 | each fragment is capitalized, in order |
| AuthService.ExtractNameFromEmail | src/main/java/com/timesheet/offline/service/AuthService.java:142-145 | "User" for an email without '@'; the name of every other email is given by NameOfSeparatedEmail |
| AuthService.RunLengthAtSeparator | src/main/java/com/timesheet/offline/service/AuthService.java:149 | the run of a separator-free word ends at the separator after it |
| AuthService.RunLengthWhole | src/main/java/com/timesheet/offline/service/AuthService.java:149 | a separator-free word is one whole run |
| AuthService.LocalPartBeforeAt | src/main/java/com/timesheet/offline/service/AuthService.java:146 | the local part of "local@domain" is "local" when local holds no '@' |
| AuthService.FragmentsOfWord | src/main/java/com/timesheet/offline/service/AuthService.java:149-150 | a non-empty separator-free word splits into itself alone |
| AuthService.FragmentsAfterWord | src/main/java/com/timesheet/offline/service/AuthService.java:149-150 | a non-empty separator-free word followed by any separator is the first fragment, followed by the fragments of the rest |
| AuthService.FragmentsAfterSeparator | src/main/java/com/timesheet/offline/service/AuthService.java:149-150 | a leading separator produces no fragment |
| AuthService.FragmentsAfterSeparators | src/main/java/com/timesheet/offline/service/AuthService.java:149-150 | a leading run of separators produces no fragment |
| AuthService.FragmentsAfterWordAndGap | src/main/java/com/timesheet/offline/service/AuthService.java:149-150 | a word followed by a non-empty run of separators is the first fragment, followed by the fragments of the rest |
| AuthService.FragmentsOfSeparated | src/main/java/com/timesheet/offline/service/AuthService.java:149-150 | words separated by runs of '.', '_' and '-', with separators allowed before the first word and after the last, split back into exactly those words; no empty piece survives |
| AuthService.InterleaveWithoutAt | src/main/java/com/timesheet/offline/service/AuthService.java:146 | '@'-free words separated by separator runs give a text without '@' |
| AuthService.NameOfSeparatedEmail | src/main/java/com/timesheet/offline/service/AuthService.java:142-153 | the name of an email whose local part is words separated by '.', '_' or '-' (repeated, leading and trailing separators included) is "W1 W2 ... Wn": each word capitalized, joined by single spaces |
| AuthService.NameHasNoSeparators | src/main/java/com/timesheet/offline/service/AuthService.java:149-152 | a display name never contains '@', '.', '_' or '-' |
| AuthService.JoinKeeps | src/main/java/com/timesheet/offline/service/AuthService.java:152 | joining with spaces adds no '@' and no separator |
| AuthService.HandlePinClockAction | src/main/java/com/timesheet/offline/service/AuthService.java:52-103 | no match: one PIN_LOGIN_FAILURE audit with no user, an authentication failure, and no log saved. Match: exactly one log appended, owned by the employee and stamped now. With no latest log or a CLOCK_OUT latest log it is a CLOCK_IN: fresh session, no duration, 0.0 hours, a welcome message, one CLOCK_IN_SUCCESS audit with the employee's id. After a CLOCK_IN it is a CLOCK_OUT: the same session, whole minutes / 60 hours (non-negative when now is not before the clock-in), a goodbye message, one CLOCK_OUT_SUCCESS audit with the hours to two decimals. Well-formed histories stay well formed |
| AuthService.RecordKioskAction | src/main/java/com/timesheet/offline/service/AuthService.java:64-102 | for the matched employee: exactly one log appended per the state machine, one CLOCK_IN_SUCCESS or CLOCK_OUT_SUCCESS audit, the welcome or goodbye response with the hours, both identity counters advanced by one, and well-formed histories kept well formed |
| AuthService.Authenticate | src/main/java/com/timesheet/offline/service/AuthService.java:106-109 | a result is a stored user with that email whose hash matches the password |
| AuthService.AuthenticateFailsIffNoMatch | src/main/java/com/timesheet/offline/service/AuthService.java:106-113 | with unique emails, authentication fails exactly when no user with that email has a matching hash |
| AuthService.HandleAdminLogin | src/main/java/com/timesheet/offline/service/AuthService.java:105-133 | exactly one audit per path: ADMIN_LOGIN_FAILURE with no user and the original failure on bad credentials; ADMIN_LOGIN_FAILURE with the user's id and "Access denied. Not an administrator." for a non-admin; ADMIN_LOGIN_SUCCESS with the id, email and role for an admin |
| AdminService.WeekWindow | src/main/java/com/timesheet/offline/service/AdminService.java:71-74 | exactly the logs stamped from the week's first midnight to seven days later, both ends included, listed in the order the store holds them |
| AdminService.DayHours | src/main/java/com/timesheet/offline/service/AdminService.java:85-90 | the durations of the owner's CLOCK_OUT logs dated that day, summed; non-negative when the stored durations are (RangeHoursSplit ties it to RangeHours) |
| AdminService.SumDays | src/main/java/com/timesheet/offline/service/AdminService.java:98 | the sum of n consecutive daily values: non-negative when they are, 0.0 when they all are |
| AdminService.Owners | src/main/java/com/timesheet/offline/service/AdminService.java:77-78 | the users owning the window's logs, each exactly once |
| AdminService.DaysFrom | src/main/java/com/timesheet/offline/service/AdminService.java:93-95 | exactly the dates start, ..., start + n - 1 |
| AdminService.GetWeeklyTimesheet | src/main/java/com/timesheet/offline/service/AdminService.java:71-108 | one row per user with a log stamped in [week start, week start + 7 days]; each row has exactly the seven dates of the week as keys, each mapped to the user's CLOCK_OUT durations on that date (0.0 when none), and a total equal to the sum of the seven values |
| AdminService.RowsOf | src/main/java/com/timesheet/offline/service/AdminService.java:80-106 | the loop over the grouped users: exactly one row per user of the grouping, row k built from the logs in the window for user k (dates of the week, daily CLOCK_OUT sums, total) |
| AdminService.DailyHoursOf | src/main/java/com/timesheet/offline/service/AdminService.java:92-96 | the seven dates of the week, each mapped to the hours worked on it |
| AdminService.RangeHoursEmpty | src/main/java/com/timesheet/offline/service/AdminService.java:85-90 | an empty date range holds no hours |
| AdminService.RangeHoursSplit | src/main/java/com/timesheet/offline/service/AdminService.java:85-90 | the hours of a date range plus one day are the range's hours plus that day's |
| AdminService.WeekTotalIsWindowHours | src/main/java/com/timesheet/offline/service/AdminService.java:85-98 | summing the daily values over n dates is summing, log by log, the CLOCK_OUT durations dated in those n dates |
| AdminService.RowTotalIsWeekHours | src/main/java/com/timesheet/offline/service/AdminService.java:98 | a row's total is the sum of the durations of its user's CLOCK_OUT logs dated inside the week; logs dated outside add nothing |
| AdminService.RangeHoursNonNegative | src/main/java/com/timesheet/offline/service/AdminService.java:85-90 | with non-negative durations, every range sum is non-negative |
| AdminService.StoredDurationsNonNegative | src/main/java/com/timesheet/offline/service/AuthService.java:84-89 | every stored duration is non-negative when histories are well formed |
| AdminService.WeeklyTotalsNonNegative | src/main/java/com/timesheet/offline/service/AdminService.java:71-108 | with well-formed histories, no weekly total is negative |
| AdminService.SingleClockOutWeek | src/main/java/com/timesheet/offline/service/AdminService.java:85-98 | a week whose only log is a 4.0-hour CLOCK_OUT on its third day reports 4.0 that day, 0.0 on the six others, and 4.0 in total |
| AdminService.StatusOf | src/main/java/com/timesheet/offline/service/AdminService.java:136-152 | "Never Clocked In" with no timestamp exactly when the user has no log; otherwise "Clocked In" when the latest log is a CLOCK_IN and "Clocked Out" when it is a CLOCK_OUT, with the latest log's timestamp |
| AdminService.GetUserStatuses | src/main/java/com/timesheet/offline/service/AdminService.java:133-154 | one status per user, in store order |
| AdminService.StatusPredictsKioskAction | src/main/java/com/timesheet/offline/service/AdminService.java:142 | "Clocked In" is shown exactly when the user's next PIN entry is a clock-out |
| AdminService.StatusAfterKioskAction | src/main/java/com/timesheet/offline/service/AdminService.java:140-143 | after a kiosk action the status shows that action, stamped now |
| AdminService.PinInUse | src/main/java/com/timesheet/offline/service/AdminService.java:167-169 | anyMatch: true exactly when some candidate's hash matches the PIN, which is exactly when the kiosk's first-match scan over those candidates finds one |
| AdminService.CreateUser | src/main/java/com/timesheet/offline/service/AdminService.java:160-183 | a taken email gives "Email is already in use."; an employee PIN matching any employee's hash gives the duplicate-PIN error; neither writes anything. Otherwise one user is appended holding the PIN's hash, and one USER_CREATE_SUCCESS audit with no user is appended; each store's identity counter advances by one. An admin skips the PIN check |
| AdminService.ResetUserPin | src/main/java/com/timesheet/offline/service/AdminService.java:205-222 | an unknown id gives "User not found for PIN reset." with nothing written. For an employee, a PIN matching another employee's hash gives the duplicate-PIN error and the hash is unchanged; the user's own hash is not checked. Otherwise only that user's hash becomes encode(newPin), with one USER_CREDENTIALS_RESET_SUCCESS audit |
| AdminService.DeleteUser | src/main/java/com/timesheet/offline/service/AdminService.java:197-203 | an unknown id gives "User not found for deletion." before anything is removed. Otherwise exactly that user is removed, no user keeps the id, the user identity counter is kept, and one USER_DELETE_SUCCESS audit naming the email is appended. The audit identity counter advances by the entries appended |
| AdminService.RemovalDropsId | src/main/java/com/timesheet/offline/service/AdminService.java:199-201 | with distinct ids, removing the user at a position leaves no user with that id |
| AdminService.CreatedEmployeeIsKioskMatch | src/main/java/com/timesheet/offline/service/AdminService.java:166-173 | after a successful employee creation the kiosk resolves the new PIN to the new employee |
| AdminService.AdminCreationKeepsKioskMatch | src/main/java/com/timesheet/offline/service/AdminService.java:166 | creating an admin never changes whom the kiosk resolves a PIN to |
| AdminService.ResetEmployeeIsKioskMatch | src/main/java/com/timesheet/offline/service/AdminService.java:210-219 | after a successful PIN reset of an employee the kiosk resolves the new PIN to that employee |
| AdminService.AllocatedIdsDistinct | src/main/java/com/timesheet/offline/service/AdminService.java:211 | the store's increasing ids are distinct, so "other employees" means every employee but the one reset |
| AdminService.DtoActorEmail | src/main/java/com/timesheet/offline/service/AdminService.java:320-325 | "System" for no user id, the email of a known user, "Unknown User" otherwise |
| AdminService.CsvActorEmail | src/main/java/com/timesheet/offline/service/AdminService.java:247-251 | "System" for no user id, the email of a known user, "Unknown User (ID: n)" otherwise |
| AdminService.ActorColumnsAgree | src/main/java/com/timesheet/offline/service/AdminService.java:247-251 | the dashboard view and the CSV export name the same actor exactly when the entry has no user or its user still exists |
| AdminService.ToAuditLogDto | src/main/java/com/timesheet/offline/service/AdminService.java:320-334 | id, timestamp, action, status and details are copied verbatim and the actor is resolved |
| AdminService.NotificationActor | src/main/java/com/timesheet/offline/service/AdminService.java:294-298 | "System" for no user id, the display name of a known user, "An unknown user" otherwise |
| AdminService.FormatLogAsNotification | src/main/java/com/timesheet/offline/service/AdminService.java:287-318 | CLOCK_IN_SUCCESS, CLOCK_OUT_SUCCESS and ADMIN_LOGIN_SUCCESS give fixed sentences naming the actor; any other action shows its details, or "An unspecified action occurred." when they are blank |
| AdminService.KioskClockInNotification | src/main/java/com/timesheet/offline/service/AdminService.java:296-302 | the kiosk's clock-in audit reads "<Name> clocked in." while the employee exists |
| TimesheetService.WeeklyReset | src/main/java/com/timesheet/offline/service/TimesheetService.java:37-41 | the clock-log store is emptied and one WEEKLY_RESET_SUCCESS audit with no user is appended; no audit entry is removed |
| TimesheetService.MondayOnOrBefore | src/main/java/com/timesheet/offline/service/TimesheetService.java:60 | previousOrSame(MONDAY): a Monday no later than the day and less than a week before it |
| TimesheetService.MondayOnOrBeforeUnique | src/main/java/com/timesheet/offline/service/TimesheetService.java:60 | that Monday is the only one in the week ending with the day |
| TimesheetService.CurrentWeekWindow | src/main/java/com/timesheet/offline/service/TimesheetService.java:58-62 | the window starts at midnight of the Monday on or before today and ends exactly seven days later |
| TimesheetService.RecordOf | src/main/java/com/timesheet/offline/service/TimesheetService.java:73-83 | a log's record: its id, the owner's id and email, "CLOCK_IN" or "CLOCK_OUT", the timestamp, the session or "", and FormatTwoDecimals of the duration, or "" exactly when there is none |
| TimesheetService.Records | src/main/java/com/timesheet/offline/service/TimesheetService.java:69-84 | one record per log, in input order |
| TimesheetService.RecordsBeforeFailure | src/main/java/com/timesheet/offline/service/TimesheetService.java:68-84 | no more records are printed than there are logs |
| TimesheetService.ExportAudits | src/main/java/com/timesheet/offline/service/TimesheetService.java:85-88 | one entry when the export fails before the end or succeeds, two when it fails on close; numbered in order from the next id, with no user and stamped now; the first is the success entry exactly when every record was printed, the last exactly when nothing failed |
| TimesheetService.WriteTimesheetToCsv | src/main/java/com/timesheet/offline/service/TimesheetService.java:66-90 | the header row unless the writer fails on it; the records printed are a prefix of one record per log, all of them unless the writer fails. A full print appends one TIMESHEET_EXPORT audit. A failure appends one TIMESHEET_EXPORT_FAILURE audit with "Error exporting timesheet: " + message and returns "Failed to write data to CSV file: " + message. A failure on close comes after the success audit, so both entries are appended |
| TimesheetService.PrintRecords | src/main/java/com/timesheet/offline/service/TimesheetService.java:69-84 | the record loop prints one record per log, in order; it completes exactly when the writer does not fail on a record, and otherwise stops with the records before the failing one |
| TimesheetService.ExportWeeklyTimesheet | src/main/java/com/timesheet/offline/service/TimesheetService.java:49-52 | exports exactly the logs stamped in [start, end], with the header, records, result and audit entries of WriteTimesheetToCsv on those logs |
| TimesheetService.ExportCurrentWeek | src/main/java/com/timesheet/offline/service/TimesheetService.java:58-64 | exports exactly the logs stamped in the current Monday-to-Monday window, with the header, records, result and audit entries of WriteTimesheetToCsv on those logs |
| TimesheetService.CompleteExportCoversWindow | src/main/java/com/timesheet/offline/service/TimesheetService.java:69-84 | an uninterrupted export prints a record for every log and no other record |
| TimesheetService.NextActionAfterResetIsClockIn | src/main/java/com/timesheet/offline/service/TimesheetService.java:38 | after the reset no user has a latest log, so the next kiosk action of every employee is a CLOCK_IN with a fresh session |
| GlobalExceptionHandler.Fields | src/main/java/com/timesheet/offline/exception/GlobalExceptionHandler.java:60-62 | exactly the field names reported |
| GlobalExceptionHandler.ValidationDetails | src/main/java/com/timesheet/offline/exception/GlobalExceptionHandler.java:60-64 | the map exists exactly when no field is reported twice; its keys are the reported fields, each mapped to its message, or "Invalid value" when it has none |
| GlobalExceptionHandler.FieldsDistinctSnoc | src/main/java/com/timesheet/offline/exception/GlobalExceptionHandler.java:61-62 | a further field error keeps the fields distinct exactly when its field is new |
| GlobalExceptionHandler.DetailsStep | src/main/java/com/timesheet/offline/exception/GlobalExceptionHandler.java:60-64 | adding a new field's message to the earlier details gives the details of all reported fields |
| GlobalExceptionHandler.Handle | src/main/java/com/timesheet/offline/exception/GlobalExceptionHandler.java:26-78 | 401 with "Invalid credentials provided" exactly for authentication failures; 500 with "An unexpected server error occurred." exactly for other runtime failures; 400 for illegal state or argument, carrying the exception's message, and for validation failures, carrying "Validation failed" and the map of each field to its message |
| GlobalExceptionHandler.AuthenticationResponseIsUniform | src/main/java/com/timesheet/offline/exception/GlobalExceptionHandler.java:26-29 | the 401 response does not depend on the exception's message |
| GlobalExceptionHandler.ExportFailureResponse | src/main/java/com/timesheet/offline/exception/GlobalExceptionHandler.java:73-78 | a failed CSV export reaches the client as a 500 with the generic text, hiding the writer's message |

## Left out

- JWT issuance and the request filter (`JwtService`, `JwtAuthFilter`) are not modelled. They are signing and parsing in a library. `HandleAdminLogin` returns the email and role without a token.
- `UserDetailsServiceImpl` and the authentication manager are modelled as a lookup by email plus `matches`. The "User not found after successful authentication" branch therefore cannot be reached and is not modelled.
- BCrypt is not modelled. The encoder is two abstract functions, and the hash-comparison timing is out of scope.
- Transactions and rollback are not modelled. The PIN_LOGIN_FAILURE audit is written inside a transaction that then throws, so the running system may roll it back. The model records the call.
- Concurrency is not modelled: each operation runs alone, so two kiosks racing on one employee are out of scope.
- Floating point is not modelled. Hours are exact reals, and the weekly sums are exact.
- `FormatTwoDecimals` rounds the exact value half-up. It does not model the binary double, and it always uses '.' whatever the locale.
- Date and time text is not modelled: ISO-8601 timestamps, the `LocalDate.toString` keys of the weekly map and time zones. Timestamps are seconds and dates are day numbers.
- Sub-second precision is not modelled. An audit entry and the clock log of the same request are stamped with the same `now`.
- The order of the weekly rows is not modelled. The source uses HashMap order; the model uses order of first appearance in the window.
- Paging is not modelled for the audit view (`getAuditLogs`) and the notification feed (`getNotifications`). Their per-entry mappings (`ToAuditLogDto`, `FormatLogAsNotification`) are modelled.
- Commons-CSV quoting, the header line's bytes and the audit CSV's other columns are not modelled. Only the actor column of `writeAuditLogsToCsv` is modelled.
- `ExtractNameFromEmail` does not model the exception from `split("@")[0]` on an email made only of '@' characters. It yields "" there.
- `ExtractNameFromEmail` and `Text` use ASCII case mapping and ASCII whitespace (for `isBlank`). Unicode case mapping and Unicode whitespace are not modelled.
- The console line printed by `weeklyReset`, and the stack trace printed by the generic handler, are not modelled.
- A null exception message would make `Map.of` throw inside the handler. This is not modelled, because messages are always strings here.
- A validation error naming the same field twice makes `Collectors.toMap` throw. The model returns None for that case and does not say what the framework then sends.
- What deleting a user does to that user's clock logs is not modelled, because it depends on the foreign-key mapping in User.java. User.java is not part of this model, and `DeleteUser` leaves the clock-log store untouched.
- The second `createUser(User, String)` overload, `getAllUsers` and `userExists` are not modelled. They are used only by startup seeding and controllers.
- The frontend is not modelled. Its 6-digit PIN buffer is client-side only.
