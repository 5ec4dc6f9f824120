/**
 * The persistent entities of the timesheet system: users, clock logs and
 * audit entries, the role and clock-action enumerations, the password
 * encoder the services consume, and the time arithmetic they share.
 *
 * Times are whole seconds since 1970-01-01T00:00 (UTC); a calendar date is
 * the number of days since that date.
 */
module Entities {
  import opened Wrappers

  const SecondsPerMinute: int := 60
  const SecondsPerDay: int := 86400

  /** The calendar date of a timestamp (LocalDateTime.toLocalDate). */
  function DayOf(ts: int): (d: int)
    ensures d * SecondsPerDay <= ts < (d + 1) * SecondsPerDay
  {
    ts / SecondsPerDay
  }

  /** Midnight at the start of a calendar date (LocalDate.atStartOfDay). */
  function StartOfDay(d: int): int
  {
    d * SecondsPerDay
  }

  datatype Role = RoleEmployee | RoleAdmin

  datatype ClockAction = ClockIn | ClockOut

  /** A user row: the stored password is the encoder's hash of the PIN. */
  datatype User = User(id: int, email: string, role: Role, password: string)

  /**
   * The user a clock log belongs to. The log references its user row; the
   * two fields read through that reference (id and email) never change
   * during a user's life, so the reference is kept as their values.
   */
  datatype Owner = Owner(id: int, email: string)

  function OwnerOf(u: User): Owner
  {
    Owner(u.id, u.email)
  }

  /** A clock event; `sessionId` and `durationHours` are nullable. */
  datatype ClockLog = ClockLog(
    id: int,
    owner: Owner,
    action: ClockAction,
    timestamp: int,
    sessionId: Option<string>,
    durationHours: Option<real>)

  /** An audit entry; `userId` is null for system or unattributed events. */
  datatype AuditLog = AuditLog(
    id: int,
    userId: Option<int>,
    action: string,
    status: string,
    ipAddress: Option<string>,
    timestamp: int,
    details: string)

  /**
   * The password encoder: a one-way `encode` and the `matches` check. The
   * services rely on one law only, that a PIN matches its own encoding.
   */
  datatype PasswordEncoder = PasswordEncoder(
    encode: string -> string,
    matches: (string, string) -> bool)

  ghost predicate Sound(enc: PasswordEncoder)
  {
    forall p :: enc.matches(p, enc.encode(p))
  }

  /**
   * Whole minutes between two instants, as Duration.between(a, b).toMinutes():
   * the elapsed seconds divided by 60, truncated toward zero.
   */
  function WholeMinutes(from: int, to: int): (m: int)
    ensures from <= to ==> 0 <= m && m * SecondsPerMinute <= to - from < (m + 1) * SecondsPerMinute
    ensures to < from ==> m <= 0 && (m - 1) * SecondsPerMinute < to - from <= m * SecondsPerMinute
  {
    var elapsed := to - from;
    if elapsed >= 0 then elapsed / SecondsPerMinute else -((-elapsed) / SecondsPerMinute)
  }

  /** Hours worked for a number of whole minutes (totalMinutes / 60.0). */
  function HoursOf(minutes: int): real
  {
    minutes as real / 60.0
  }
}
