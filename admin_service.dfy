/**
 * The administrative surface: the weekly timesheet aggregation, the live
 * status of every user, the user-store mutations with their duplicate-PIN
 * checks, and the display text derived from audit entries.
 */
module AdminService {
  import opened Wrappers
  import opened Entities
  import opened Exceptions
  import opened Repositories
  import opened Text
  import opened AuthService
  import AuditService

  // ---------------------------------------------------------------------
  // Weekly aggregation
  // ---------------------------------------------------------------------

  datatype WeeklyTimesheet = WeeklyTimesheet(
    userId: int,
    userEmail: string,
    dailyHours: map<int, real>,   // calendar date -> hours
    totalHours: real)

  /** A log that carries worked hours: a CLOCK_OUT with a duration. */
  predicate Contributes(l: ClockLog)
  {
    l.action == ClockOut && l.durationHours.Some?
  }

  /** The hours `owner` worked on calendar date `day`, summed over `logs`. */
  function DayHours(logs: seq<ClockLog>, owner: Owner, day: int): (h: real)
    ensures (forall l :: l in logs && l.durationHours.Some? ==> l.durationHours.value >= 0.0) ==> h >= 0.0
  {
    if logs == [] then 0.0
    else
      var last := logs[|logs| - 1];
      assert last in logs && forall l :: l in logs[..|logs| - 1] ==> l in logs;
      DayHours(logs[..|logs| - 1], owner, day)
        + (if last.owner == owner && Contributes(last) && DayOf(last.timestamp) == day then last.durationHours.value else 0.0)
  }

  /** The hours `owner` worked on the dates lo, lo + 1, ..., hi - 1, summed log by log. */
  function RangeHours(logs: seq<ClockLog>, owner: Owner, lo: int, hi: int): real
  {
    if logs == [] then 0.0
    else
      var last := logs[|logs| - 1];
      RangeHours(logs[..|logs| - 1], owner, lo, hi)
        + (if last.owner == owner && Contributes(last) && lo <= DayOf(last.timestamp) < hi then last.durationHours.value else 0.0)
  }

  /** The users owning `logs`, each once, in order of first appearance. */
  function Owners(logs: seq<ClockLog>): (r: seq<Owner>)
    ensures forall o :: o in r <==> exists l :: l in logs && l.owner == o
    ensures forall i, j :: 0 <= i < j < |r| ==> r[i] != r[j]
  {
    if logs == [] then []
    else
      var last := logs[|logs| - 1];
      var earlier := Owners(logs[..|logs| - 1]);
      assert logs == logs[..|logs| - 1] + [last];
      if last.owner in earlier then earlier else earlier + [last.owner]
  }

  /** The dates start, start + 1, ..., start + n - 1. */
  function DaysFrom(start: int, n: nat): (r: set<int>)
    ensures forall d :: d in r <==> start <= d < start + n
  {
    if n == 0 then {} else DaysFrom(start, n - 1) + {start + n - 1}
  }

  /** The seven date keys of the week starting on `start`. */
  function WeekDays(start: int): set<int>
  {
    DaysFrom(start, 7)
  }

  /** daily[start] + daily[start + 1] + ... + daily[start + n - 1]. */
  function SumDays(daily: map<int, real>, start: int, n: nat): (total: real)
    requires forall d :: start <= d < start + n ==> d in daily
    ensures (forall d :: start <= d < start + n ==> daily[d] >= 0.0) ==> total >= 0.0
    ensures (forall d :: start <= d < start + n ==> daily[d] == 0.0) ==> total == 0.0
  {
    if n == 0 then 0.0 else SumDays(daily, start, n - 1) + daily[start + n - 1]
  }

  /**
   * `row` reports `owner`'s week from the window's logs: exactly the seven
   * dates of the week as keys, each holding that date's hours, and a total
   * equal to the sum of the seven values.
   */
  predicate RowOf(row: WeeklyTimesheet, window: seq<ClockLog>, owner: Owner, weekStart: int)
  {
    && row.userId == owner.id && row.userEmail == owner.email
    && row.dailyHours.Keys == WeekDays(weekStart)
    && (forall d :: d in row.dailyHours ==> row.dailyHours[d] == DayHours(window, owner, d))
    && row.totalHours == SumDays(row.dailyHours, weekStart, 7)
  }

  /** The logs stamped from the week's first midnight to the midnight seven days later, both included. */
  function WeekWindow(logs: seq<ClockLog>, weekStart: int): (w: seq<ClockLog>)
    ensures forall l :: l in w <==> l in logs && StartOfDay(weekStart) <= l.timestamp <= StartOfDay(weekStart) + 7 * SecondsPerDay
    ensures InOrderOf(w, logs)
  {
    FindByTimestampBetween(logs, StartOfDay(weekStart), StartOfDay(weekStart + 7))
  }

  /**
   * getWeeklyTimesheet(weekStartDate): one row per user owning a log of
   * the week's window, each reporting that user's week.
   */
  method GetWeeklyTimesheet(clocks: ClockLogRepository, weekStart: int) returns (rows: seq<WeeklyTimesheet>)
    ensures |rows| == |Owners(WeekWindow(clocks.logs, weekStart))|
    ensures forall k :: 0 <= k < |rows| ==>
              RowOf(rows[k], WeekWindow(clocks.logs, weekStart), Owners(WeekWindow(clocks.logs, weekStart))[k], weekStart)
  {
    var startOfWeek := StartOfDay(weekStart);
    var endOfWeek := startOfWeek + 7 * SecondsPerDay;
    var logs := FindByTimestampBetween(clocks.logs, startOfWeek, endOfWeek);
    assert logs == WeekWindow(clocks.logs, weekStart);
    var logsByUser := Owners(logs);
    rows := RowsOf(logs, logsByUser, weekStart);
  }

  /** The loop of getWeeklyTimesheet over the users of the window: one row per user, in order. */
  method RowsOf(logs: seq<ClockLog>, logsByUser: seq<Owner>, weekStart: int) returns (rows: seq<WeeklyTimesheet>)
    ensures |rows| == |logsByUser|
    ensures forall k :: 0 <= k < |rows| ==> RowOf(rows[k], logs, logsByUser[k], weekStart)
  {
    rows := [];
    var k := 0;
    while k < |logsByUser|
      invariant 0 <= k <= |logsByUser| && |rows| == k
      invariant forall j :: 0 <= j < k ==> RowOf(rows[j], logs, logsByUser[j], weekStart)
    {
      var user := logsByUser[k];
      var formattedDailyHours := DailyHoursOf(logs, user, weekStart);
      var totalHours := SumDays(formattedDailyHours, weekStart, 7);
      var row := WeeklyTimesheet(user.id, user.email, formattedDailyHours, totalHours);
      assert RowOf(row, logs, user, weekStart);
      forall j | 0 <= j < k + 1 ensures RowOf((rows + [row])[j], logs, logsByUser[j], weekStart) {
        if j < k {
          assert (rows + [row])[j] == rows[j];
        }
      }
      rows := rows + [row];
      k := k + 1;
    }
  }

  /** The seven dates of the week, each mapped to the hours `user` worked on it. */
  method DailyHoursOf(logs: seq<ClockLog>, user: Owner, weekStart: int) returns (daily: map<int, real>)
    ensures daily.Keys == WeekDays(weekStart)
    ensures forall d :: d in daily ==> daily[d] == DayHours(logs, user, d)
  {
    daily := map[];
    var i := 0;
    while i < 7
      invariant 0 <= i <= 7
      invariant daily.Keys == DaysFrom(weekStart, i)
      invariant forall d :: d in daily ==> daily[d] == DayHours(logs, user, d)
    {
      var day := weekStart + i;
      daily := daily[day := DayHours(logs, user, day)];
      i := i + 1;
    }
  }

  lemma {:induction false} RangeHoursEmpty(logs: seq<ClockLog>, owner: Owner, lo: int)
    ensures RangeHours(logs, owner, lo, lo) == 0.0
  {
    if logs != [] {
      RangeHoursEmpty(logs[..|logs| - 1], owner, lo);
    }
  }

  lemma {:induction false} RangeHoursSplit(logs: seq<ClockLog>, owner: Owner, lo: int, hi: int)
    requires lo <= hi
    ensures RangeHours(logs, owner, lo, hi + 1) == RangeHours(logs, owner, lo, hi) + DayHours(logs, owner, hi)
  {
    if logs != [] {
      RangeHoursSplit(logs[..|logs| - 1], owner, lo, hi);
    }
  }

  /**
   * The seven daily values of a row add up to the hours of every CLOCK_OUT
   * of that user dated inside the week: each such log is counted on exactly
   * one day, and a log dated outside the week (the instant the window
   * closes) on none.
   */
  lemma {:induction false} WeekTotalIsWindowHours(logs: seq<ClockLog>, owner: Owner, daily: map<int, real>, start: int, n: nat)
    requires forall d :: start <= d < start + n ==> d in daily && daily[d] == DayHours(logs, owner, d)
    ensures SumDays(daily, start, n) == RangeHours(logs, owner, start, start + n)
  {
    if n > 0 {
      var last := start + n - 1;
      WeekTotalIsWindowHours(logs, owner, daily, start, n - 1);
      RangeHoursSplit(logs, owner, start, last);
      calc {
        SumDays(daily, start, n);
        SumDays(daily, start, n - 1) + daily[last];
        RangeHours(logs, owner, start, last) + DayHours(logs, owner, last);
        RangeHours(logs, owner, start, last + 1);
      }
    } else {
      RangeHoursEmpty(logs, owner, start);
      assert start + n == start;
    }
  }

  /** A row's total is the sum of the hours of its user's CLOCK_OUT logs dated inside the week. */
  lemma RowTotalIsWeekHours(row: WeeklyTimesheet, window: seq<ClockLog>, owner: Owner, weekStart: int)
    requires RowOf(row, window, owner, weekStart)
    ensures row.totalHours == RangeHours(window, owner, weekStart, weekStart + 7)
  {
    WeekTotalIsWindowHours(window, owner, row.dailyHours, weekStart, 7);
  }

  lemma {:induction false} RangeHoursNonNegative(logs: seq<ClockLog>, owner: Owner, lo: int, hi: int)
    requires forall l :: l in logs && l.durationHours.Some? ==> l.durationHours.value >= 0.0
    ensures RangeHours(logs, owner, lo, hi) >= 0.0
  {
    if logs != [] {
      var prefix := logs[..|logs| - 1];
      assert forall l :: l in prefix ==> l in logs;
      RangeHoursNonNegative(prefix, owner, lo, hi);
      assert logs[|logs| - 1] in logs;
    }
  }

  /** Every duration in a store of well-formed histories is non-negative. */
  lemma StoredDurationsNonNegative(logs: seq<ClockLog>)
    requires HistoriesWellFormed(logs)
    ensures forall l :: l in logs && l.durationHours.Some? ==> l.durationHours.value >= 0.0
  {
    forall l | l in logs && l.durationHours.Some? ensures l.durationHours.value >= 0.0 {
      var h := LogsOf(logs, l.owner.id);
      assert WellFormedHistory(h);
      assert l in h;
      var j :| 0 <= j < |h| && h[j] == l;
      HistoryDurationsNonNegative(h, j);
    }
  }

  /** With well-formed histories in the store, no weekly total is negative. */
  lemma WeeklyTotalsNonNegative(logs: seq<ClockLog>, weekStart: int, owner: Owner)
    requires HistoriesWellFormed(logs)
    ensures RangeHours(WeekWindow(logs, weekStart), owner, weekStart, weekStart + 7) >= 0.0
  {
    StoredDurationsNonNegative(logs);
    var window := WeekWindow(logs, weekStart);
    RangeHoursNonNegative(window, owner, weekStart, weekStart + 7);
  }

  /**
   * A week whose only log is a 4-hour CLOCK_OUT at noon on its third day
   * (the Wednesday of a Monday week) reports 4.0 on that day, 0.0 on the
   * six others, and 4.0 in total.
   */
  lemma SingleClockOutWeek(o: Owner, weekStart: int, sessionId: string, id: int)
    ensures var logs := [ClockLog(id, o, ClockOut, StartOfDay(weekStart + 2) + 12 * 3600, Some(sessionId), Some(4.0))];
            var window := WeekWindow(logs, weekStart);
            && Owners(window) == [o]
            && (forall d :: weekStart <= d < weekStart + 7 ==> DayHours(window, o, d) == if d == weekStart + 2 then 4.0 else 0.0)
            && RangeHours(window, o, weekStart, weekStart + 7) == 4.0
  {
    var l := ClockLog(id, o, ClockOut, StartOfDay(weekStart + 2) + 12 * 3600, Some(sessionId), Some(4.0));
    var logs := [l];
    assert logs[..0] == [];
    assert DayOf(l.timestamp) == weekStart + 2;
    var lo, hi := StartOfDay(weekStart), StartOfDay(weekStart + 7);
    assert lo <= l.timestamp <= hi;
    assert FindByTimestampBetween(logs, lo, hi) == FindByTimestampBetween([], lo, hi) + [l];
    assert WeekWindow(logs, weekStart) == logs;
    assert Owners(logs) == [o];
    forall d | weekStart <= d < weekStart + 7
      ensures DayHours(logs, o, d) == if d == weekStart + 2 then 4.0 else 0.0
    {
      assert DayHours(logs, o, d) == DayHours([], o, d) + (if d == weekStart + 2 then 4.0 else 0.0);
    }
    assert RangeHours(logs, o, weekStart, weekStart + 7) == RangeHours([], o, weekStart, weekStart + 7) + 4.0;
  }

  // ---------------------------------------------------------------------
  // Live status
  // ---------------------------------------------------------------------

  datatype UserStatus = UserStatus(
    id: int,
    email: string,
    role: Role,
    status: string,
    lastActionTimestamp: Option<int>)

  /** The status line of one user, from the user's latest log. */
  function StatusOf(user: User, logs: seq<ClockLog>): (s: UserStatus)
    ensures s.id == user.id && s.email == user.email && s.role == user.role
    ensures s.status == "Never Clocked In" <==> forall l :: l in logs ==> l.owner.id != user.id
    ensures s.status == "Never Clocked In" ==> s.lastActionTimestamp == None
    ensures s.status != "Never Clocked In" ==>
              && s.lastActionTimestamp.Some?
              && (exists l :: l in logs && l.owner.id == user.id && l.timestamp == s.lastActionTimestamp.value)
              && (forall l :: l in logs && l.owner.id == user.id ==> l.timestamp <= s.lastActionTimestamp.value)
    // with a log, the status names the action of the latest one
    ensures LatestLog(logs, user.id).Some? ==>
              s.status == (if LatestLog(logs, user.id).value.action == ClockIn then "Clocked In" else "Clocked Out")
              && s.lastActionTimestamp == Some(LatestLog(logs, user.id).value.timestamp)
  {
    match LatestLog(logs, user.id)
    case None => UserStatus(user.id, user.email, user.role, "Never Clocked In", None)
    case Some(last) =>
      UserStatus(user.id, user.email, user.role,
                 if last.action == ClockIn then "Clocked In" else "Clocked Out",
                 Some(last.timestamp))
  }

  /** getUserStatuses: one status per user, in store order. */
  function GetUserStatuses(users: seq<User>, logs: seq<ClockLog>): (r: seq<UserStatus>)
    ensures |r| == |users|
    ensures forall i :: 0 <= i < |users| ==> r[i] == StatusOf(users[i], logs)
  {
    seq(|users|, i requires 0 <= i < |users| => StatusOf(users[i], logs))
  }

  /**
   * The status shown is the state the kiosk acts on: "Clocked In" exactly
   * when the user's next PIN entry is a clock-out.
   */
  lemma StatusPredictsKioskAction(user: User, logs: seq<ClockLog>, now: int, freshSessionId: string)
    ensures StatusOf(user, logs).status == "Clocked In" <==>
            NextClockLog(LatestLog(logs, user.id), user, now, freshSessionId).action == ClockOut
  {
  }

  /** After a kiosk action the employee's status shows that action, stamped now. */
  lemma StatusAfterKioskAction(e: User, logs: seq<ClockLog>, now: int, freshSessionId: string, id: int)
    requires ClockNotBehind(logs, e.id, now)
    ensures var n := NextClockLog(LatestLog(logs, e.id), e, now, freshSessionId).(id := id);
            StatusOf(e, logs + [n]) ==
              UserStatus(e.id, e.email, e.role, if n.action == ClockIn then "Clocked In" else "Clocked Out", Some(now))
  {

  }

  // ---------------------------------------------------------------------
  // User-store mutations
  // ---------------------------------------------------------------------

  datatype UserDto = UserDto(id: int, email: string, role: Role)

  const DuplicatePinMessage: string := "This PIN is already in use by another employee. Please choose a unique PIN."

  /**
   * anyMatch over the candidates' stored hashes. A PIN is in use exactly
   * when the kiosk's first-match scan over the same candidates finds someone.
   */
  predicate PinInUse(candidates: seq<User>, enc: PasswordEncoder, pin: string)
    ensures PinInUse(candidates, enc, pin) <==> exists u :: u in candidates && enc.matches(pin, u.password)
    ensures PinInUse(candidates, enc, pin) <==> FirstMatch(candidates, enc, pin).Some?
  {
    candidates != [] && (enc.matches(pin, candidates[0].password) || PinInUse(candidates[1..], enc, pin))
  }

  /** createUser(email, pin, role) at time `now`. */
  method CreateUser(users: UserRepository, audits: AuditLogRepository, enc: PasswordEncoder,
                    email: string, pin: string, role: Role, now: int)
    returns (r: Result<UserDto>)
    requires users.Valid() && audits.Valid()
    modifies users, audits
    ensures audits.nextId == old(audits.nextId) + |audits.entries| - |old(audits.entries)|
    ensures users.Valid() && audits.Valid()
    // the email is taken: rejected before anything is written
    ensures ExistsByEmail(old(users.users), email) ==>
      && r == Err(IllegalArgument("Email is already in use."))
      && unchanged(users) && unchanged(audits)
    // an employee PIN that some employee's hash already matches: rejected before anything is written
    ensures !ExistsByEmail(old(users.users), email) && role == RoleEmployee
            && PinInUse(FindAllByRole(old(users.users), RoleEmployee), enc, pin) ==>
      && r == Err(IllegalArgument(DuplicatePinMessage))
      && unchanged(users) && unchanged(audits)
    // otherwise: one new user holding the PIN's hash, and one audit entry
    ensures !ExistsByEmail(old(users.users), email)
            && !(role == RoleEmployee && PinInUse(FindAllByRole(old(users.users), RoleEmployee), enc, pin)) ==>
      var saved := User(old(users.nextId), email, role, enc.encode(pin));
      && users.users == old(users.users) + [saved] && users.nextId == old(users.nextId) + 1
      && r == Ok(UserDto(saved.id, email, role))
      && audits.entries == old(audits.entries) + [AuditLog(old(audits.nextId), None, "USER_CREATE_SUCCESS", "SUCCESS", None, now,
                                                             "Admin created user: " + email)]
      && audits.nextId == old(audits.nextId) + 1
  {
    if ExistsByEmail(users.users, email) {
      return Err(IllegalArgument("Email is already in use."));
    }
    if role == RoleEmployee {
      var employees := FindAllByRole(users.users, RoleEmployee);
      var pinExists := PinInUse(employees, enc, pin);
      if pinExists {
        return Err(IllegalArgument(DuplicatePinMessage));
      }
    }
    var savedUser := users.Insert(email, role, enc.encode(pin));
    AuditService.Log(audits, now, None, "USER_CREATE_SUCCESS", "SUCCESS", "Admin created user: " + savedUser.email);
    r := Ok(UserDto(savedUser.id, savedUser.email, savedUser.role));
  }

  /** resetUserPin(userId, newPin) at time `now`. */
  method ResetUserPin(users: UserRepository, audits: AuditLogRepository, enc: PasswordEncoder,
                      userId: int, newPin: string, now: int)
    returns (r: Result<()>)
    requires users.Valid() && audits.Valid()
    modifies users, audits
    ensures audits.nextId == old(audits.nextId) + |audits.entries| - |old(audits.entries)|
    ensures users.Valid() && audits.Valid()
    ensures IndexOfId(old(users.users), userId).None? ==>
      && r == Err(Runtime("User not found for PIN reset."))
      && unchanged(users) && unchanged(audits)
    ensures IndexOfId(old(users.users), userId).Some? ==>
      var k := IndexOfId(old(users.users), userId).value;
      var user := old(users.users)[k];
      if user.role == RoleEmployee && PinInUse(FindAllByRoleAndIdNot(old(users.users), RoleEmployee, userId), enc, newPin) then
        && r == Err(IllegalArgument(DuplicatePinMessage))
        && unchanged(users) && unchanged(audits)
      else
        && users.users == old(users.users)[k := user.(password := enc.encode(newPin))]
        && users.nextId == old(users.nextId)
        && r == Ok(())
        && audits.entries == old(audits.entries) + [AuditLog(old(audits.nextId), None, "USER_CREDENTIALS_RESET_SUCCESS", "SUCCESS", None, now,
                                                               "Admin reset credentials for user: " + user.email)]
  {
    var found := IndexOfId(users.users, userId);
    if found.None? {
      return Err(Runtime("User not found for PIN reset."));
    }
    var k := found.value;
    var user := users.users[k];
    if user.role == RoleEmployee {
      var otherEmployees := FindAllByRoleAndIdNot(users.users, RoleEmployee, userId);
      var pinExists := PinInUse(otherEmployees, enc, newPin);
      if pinExists {
        return Err(IllegalArgument(DuplicatePinMessage));
      }
    }
    users.UpdatePassword(k, enc.encode(newPin));
    AuditService.Log(audits, now, None, "USER_CREDENTIALS_RESET_SUCCESS", "SUCCESS", "Admin reset credentials for user: " + user.email);
    r := Ok(());
  }

  /** deleteUser(userId) at time `now`; the user's clock logs stay in their store. */
  method DeleteUser(users: UserRepository, audits: AuditLogRepository, userId: int, now: int)
    returns (r: Result<()>)
    requires users.Valid() && audits.Valid()
    modifies users, audits
    ensures audits.nextId == old(audits.nextId) + |audits.entries| - |old(audits.entries)|
    ensures users.Valid() && audits.Valid()
    ensures IndexOfId(old(users.users), userId).None? ==>
      && r == Err(Runtime("User not found for deletion."))
      && unchanged(users) && unchanged(audits)
    ensures IndexOfId(old(users.users), userId).Some? ==>
      var k := IndexOfId(old(users.users), userId).value;
      && users.users == old(users.users)[..k] + old(users.users)[k + 1..] && users.nextId == old(users.nextId)
      && FindById(users.users, userId).None?
      && r == Ok(())
      && audits.entries == old(audits.entries) + [AuditLog(old(audits.nextId), None, "USER_DELETE_SUCCESS", "SUCCESS", None, now,
                                                             "Admin deleted user: " + old(users.users)[k].email)]
  {
    var found := IndexOfId(users.users, userId);
    if found.None? {
      return Err(Runtime("User not found for deletion."));
    }
    var k := found.value;
    var user := users.users[k];
    ghost var before := users.users;
    AllocatedIdsDistinct(before, users.nextId);
    users.DeleteAt(k);
    RemovalDropsId(before, k);
    AuditService.Log(audits, now, None, "USER_DELETE_SUCCESS", "SUCCESS", "Admin deleted user: " + user.email);
    r := Ok(());
  }

  /**
   * A newly created employee is the one the kiosk resolves its PIN to: the
   * duplicate check left no other employee whose hash matches it.
   */
  lemma CreatedEmployeeIsKioskMatch(users: seq<User>, enc: PasswordEncoder, pin: string, created: User)
    requires Sound(enc)
    requires !PinInUse(FindAllByRole(users, RoleEmployee), enc, pin)
    requires created.role == RoleEmployee && created.password == enc.encode(pin)
    ensures MatchEmployee(users + [created], enc, pin) == Some(created)
  {

  }

  /** Creating an admin never changes whom the kiosk resolves any PIN to. */
  lemma AdminCreationKeepsKioskMatch(users: seq<User>, enc: PasswordEncoder, pin: string, created: User)
    requires created.role == RoleAdmin
    ensures MatchEmployee(users + [created], enc, pin) == MatchEmployee(users, enc, pin)
  {
    var s := users + [created];
    assert s[..|s| - 1] == users;
    assert FindAllByRole(s, RoleEmployee) == FindAllByRole(users, RoleEmployee);
  }

  /**
   * After a successful reset of an employee's PIN, the kiosk resolves the
   * new PIN to that employee: no other employee's hash matches it.
   */
  lemma ResetEmployeeIsKioskMatch(users: seq<User>, enc: PasswordEncoder, k: nat, newPin: string)
    requires Sound(enc)
    requires IdsDistinct(users)
    requires k < |users| && users[k].role == RoleEmployee
    requires !PinInUse(FindAllByRoleAndIdNot(users, RoleEmployee, users[k].id), enc, newPin)
    ensures var updated := users[k := users[k].(password := enc.encode(newPin))];
            MatchEmployee(updated, enc, newPin) == Some(updated[k])
  {

  }

  /** No two stored users share an id. */
  ghost predicate IdsDistinct(users: seq<User>)
  {
    forall i, j :: 0 <= i < |users| && 0 <= j < |users| && i != j ==> users[i].id != users[j].id
  }

  /** With distinct ids, removing the user at position k leaves no user with its id. */
  lemma RemovalDropsId(users: seq<User>, k: nat)
    requires IdsDistinct(users) && k < |users|
    ensures FindById(users[..k] + users[k + 1..], users[k].id).None?
  {

  }

  /** The user store's increasing id allocation keeps ids distinct. */
  lemma AllocatedIdsDistinct(users: seq<User>, next: int)
    requires IdsAllocated(IdsOf(users, UserId), next)
    ensures IdsDistinct(users)
  {

  }

  // ---------------------------------------------------------------------
  // Display derivations over audit entries
  // ---------------------------------------------------------------------

  /** The actor column of the dashboard's audit view (toAuditLogDto). */
  function DtoActorEmail(userId: Option<int>, users: seq<User>): (s: string)
    ensures userId.None? ==> s == "System"
    ensures userId.Some? && FindById(users, userId.value).Some? ==> s == FindById(users, userId.value).value.email
    ensures userId.Some? && FindById(users, userId.value).None? ==> s == "Unknown User"
  {
    match userId
    case None => "System"
    case Some(id) =>
      match FindById(users, id)
      case Some(u) => u.email
      case None => "Unknown User"
  }

  /** The UserEmail column of the audit CSV export (writeAuditLogsToCsv). */
  function CsvActorEmail(userId: Option<int>, users: seq<User>): (s: string)
    ensures userId.None? ==> s == "System"
    ensures userId.Some? && FindById(users, userId.value).Some? ==> s == FindById(users, userId.value).value.email
    ensures userId.Some? && FindById(users, userId.value).None? ==> s == "Unknown User (ID: " + IntToString(userId.value) + ")"
  {
    match userId
    case None => "System"
    case Some(id) =>
      match FindById(users, id)
      case Some(u) => u.email
      case None => "Unknown User (ID: " + IntToString(id) + ")"
  }

  /** The audit view and the audit export name the same actor, except for a deleted user, whom only the export identifies by id. */
  lemma ActorColumnsAgree(userId: Option<int>, users: seq<User>)
    ensures userId.None? || FindById(users, userId.value).Some? <==> DtoActorEmail(userId, users) == CsvActorEmail(userId, users)
  {

  }

  datatype AuditLogDto = AuditLogDto(
    id: int,
    timestamp: int,
    action: string,
    status: string,
    userEmail: string,
    details: string)

  /** toAuditLogDto: the entry's own fields verbatim, with the actor resolved. */
  function ToAuditLogDto(log: AuditLog, users: seq<User>): (d: AuditLogDto)
    ensures d.id == log.id && d.timestamp == log.timestamp && d.action == log.action
    ensures d.status == log.status && d.details == log.details
    ensures d.userEmail == DtoActorEmail(log.userId, users)
  {
    AuditLogDto(log.id, log.timestamp, log.action, log.status, DtoActorEmail(log.userId, users), log.details)
  }

  datatype Notification = Notification(id: int, message: string, timestamp: int)

  const UnspecifiedAction: string := "An unspecified action occurred."

  /** Who a notification names: "System", the user's display name, or "An unknown user". */
  function NotificationActor(userId: Option<int>, users: seq<User>): (s: string)
    ensures userId.None? ==> s == "System"
    ensures userId.Some? && FindById(users, userId.value).Some? ==> s == ExtractNameFromEmail(FindById(users, userId.value).value.email)
    ensures userId.Some? && FindById(users, userId.value).None? ==> s == "An unknown user"
  {
    match userId
    case None => "System"
    case Some(id) =>
      match FindById(users, id)
      case Some(u) => ExtractNameFromEmail(u.email)
      case None => "An unknown user"
  }

  /**
   * formatLogAsNotification: the three kiosk and login successes get fixed
   * sentences naming the actor; any other entry shows its details, or a
   * fixed text when they are blank.
   */
  function FormatLogAsNotification(log: AuditLog, users: seq<User>): (n: Notification)
    ensures n.id == log.id && n.timestamp == log.timestamp
    ensures log.action == "CLOCK_IN_SUCCESS" ==> n.message == NotificationActor(log.userId, users) + " clocked in."
    ensures log.action == "CLOCK_OUT_SUCCESS" ==> n.message == NotificationActor(log.userId, users) + " clocked out."
    ensures log.action == "ADMIN_LOGIN_SUCCESS" ==> n.message == NotificationActor(log.userId, users) + " logged into the admin dashboard."
    ensures log.action !in {"CLOCK_IN_SUCCESS", "CLOCK_OUT_SUCCESS", "ADMIN_LOGIN_SUCCESS"} ==>
              n.message == if IsBlank(log.details) then UnspecifiedAction else log.details
  {
    var message := if !IsBlank(log.details) then log.details else UnspecifiedAction;
    var userName := NotificationActor(log.userId, users);
    var text :=
      if log.action == "CLOCK_IN_SUCCESS" then userName + " clocked in."
      else if log.action == "CLOCK_OUT_SUCCESS" then userName + " clocked out."
      else if log.action == "ADMIN_LOGIN_SUCCESS" then userName + " logged into the admin dashboard."
      else message;
    Notification(log.id, text, log.timestamp)
  }

  /** The audit entry of a kiosk clock-in reads "<Name> clocked in." while the employee exists. */
  lemma KioskClockInNotification(e: User, users: seq<User>, id: int, t: int)
    requires FindById(users, e.id) == Some(e)
    ensures FormatLogAsNotification(AuditLog(id, Some(e.id), "CLOCK_IN_SUCCESS", "SUCCESS", None, t,
                                             "User clocked in via PIN-only kiosk."), users).message
            == ExtractNameFromEmail(e.email) + " clocked in."
  {
  }
}
