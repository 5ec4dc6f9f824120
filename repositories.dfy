/**
 * The three stores (users, clock logs, audit entries) and the queries the
 * services run against them. Each store keeps its rows in insertion order
 * together with the next identity value the database will hand out.
 */
module Repositories {
  import opened Wrappers
  import opened Entities

  // ---------------------------------------------------------------------
  // User queries
  // ---------------------------------------------------------------------

  /** `a` and `b` are rows of `s`, `a` at an earlier position than `b`. */
  predicate PairInOrder<T(==)>(a: T, b: T, s: seq<T>)
  {
    exists p, q :: 0 <= p < q < |s| && a == s[p] && b == s[q]
  }

  /**
   * `r` lists rows of `s` in the order `s` holds them: any two entries of
   * `r` are found in `s` at two positions, the earlier one first.
   */
  predicate InOrderOf<T(==)>(r: seq<T>, s: seq<T>)
  {
    forall i, j :: 0 <= i < j < |r| ==> PairInOrder(r[i], r[j], s)
  }

  /** Appending a row to the store keeps a listing in order, with or without that row at its end. */
  lemma {:induction false} InOrderOfSnoc<T>(r: seq<T>, s: seq<T>, x: T)
    requires InOrderOf(r, s) && forall e :: e in r ==> e in s
    ensures InOrderOf(r, s + [x]) && InOrderOf(r + [x], s + [x])
  {
    var r', s' := r + [x], s + [x];
    forall i, j | 0 <= i < j < |r'| ensures PairInOrder(r'[i], r'[j], s') {
      if j < |r| {
        assert r'[i] == r[i] && r'[j] == r[j] && PairInOrder(r[i], r[j], s);
        var p, q :| 0 <= p < q < |s| && r[i] == s[p] && r[j] == s[q];
        assert r'[i] == s'[p] && r'[j] == s'[q];
      } else {
        assert r[i] in s;
        var p :| 0 <= p < |s| && s[p] == r[i];
        assert r'[i] == s'[p] && r'[j] == s'[|s|];
      }
    }
    forall i, j | 0 <= i < j < |r| ensures PairInOrder(r[i], r[j], s') {
      assert PairInOrder(r[i], r[j], s);
      var p, q :| 0 <= p < q < |s| && r[i] == s[p] && r[j] == s[q];
      assert r[i] == s'[p] && r[j] == s'[q];
    }
  }

  /** findAllByRole: the users holding `role`, in store order. */
  function FindAllByRole(users: seq<User>, role: Role): (r: seq<User>)
    ensures forall u :: u in r <==> u in users && u.role == role
    ensures InOrderOf(r, users)
  {
    if users == [] then []
    else
      var last := users[|users| - 1];
      var earlier := FindAllByRole(users[..|users| - 1], role);
      assert users == users[..|users| - 1] + [last];
      InOrderOfSnoc(earlier, users[..|users| - 1], last);
      earlier + (if last.role == role then [last] else [])
  }

  /** findAllByRoleAndIdNot: the users holding `role` other than the one with id `id`, in store order. */
  function FindAllByRoleAndIdNot(users: seq<User>, role: Role, id: int): (r: seq<User>)
    ensures forall u :: u in r <==> u in users && u.role == role && u.id != id
    ensures InOrderOf(r, users)
  {
    if users == [] then []
    else
      var last := users[|users| - 1];
      var earlier := FindAllByRoleAndIdNot(users[..|users| - 1], role, id);
      assert users == users[..|users| - 1] + [last];
      InOrderOfSnoc(earlier, users[..|users| - 1], last);
      earlier + (if last.role == role && last.id != id then [last] else [])
  }

  /** In a store of increasing ids the users of a role come by increasing id, so each one once. */
  lemma {:induction false} FindAllByRoleIncreasingIds(users: seq<User>, role: Role, next: int)
    requires IdsAllocated(IdsOf(users, UserId), next)
    ensures var r := FindAllByRole(users, role);
            forall i, j :: 0 <= i < j < |r| ==> r[i].id < r[j].id
  {
    var r := FindAllByRole(users, role);
    var ids := IdsOf(users, UserId);
    forall i, j | 0 <= i < j < |r| ensures r[i].id < r[j].id {
      assert PairInOrder(r[i], r[j], users);
      var p, q :| 0 <= p < q < |users| && r[i] == users[p] && r[j] == users[q];
      assert ids[p] < ids[q];
    }
  }

  /** The position of the user with id `id`, if there is one. */
  function IndexOfId(users: seq<User>, id: int): (r: Option<nat>)
    ensures r.Some? ==> r.value < |users| && users[r.value].id == id
    ensures r.None? <==> forall i :: 0 <= i < |users| ==> users[i].id != id
  {
    if users == [] then None
    else if users[0].id == id then Some(0)
    else match IndexOfId(users[1..], id)
      case None => None
      case Some(k) => Some(k + 1)
  }

  /** findById. */
  function FindById(users: seq<User>, id: int): (r: Option<User>)
    ensures r.Some? ==> r.value in users && r.value.id == id
    ensures r.None? <==> forall u :: u in users ==> u.id != id
  {
    match IndexOfId(users, id)
    case None => None
    case Some(k) => Some(users[k])
  }

  /** existsByEmail: a scan of the store for the email. */
  predicate ExistsByEmail(users: seq<User>, email: string)
    ensures ExistsByEmail(users, email) <==> exists u :: u in users && u.email == email
  {
    users != [] && (users[0].email == email || ExistsByEmail(users[1..], email))
  }

  /** findByEmail. */
  function FindByEmail(users: seq<User>, email: string): (r: Option<User>)
    ensures r.Some? ==> r.value in users && r.value.email == email
    ensures r.None? <==> !ExistsByEmail(users, email)
  {
    if users == [] then None
    else if users[0].email == email then Some(users[0])
    else FindByEmail(users[1..], email)
  }

  /** Ids strictly increase along the store and lie in [1, next). */
  ghost predicate IdsAllocated(ids: seq<int>, next: int)
  {
    && 0 < next
    && (forall i :: 0 <= i < |ids| ==> 0 < ids[i] < next)
    && (forall i, j :: 0 <= i < j < |ids| ==> ids[i] < ids[j])
  }

  /** The ids of a store's rows, in store order. */
  function IdsOf<T>(rows: seq<T>, id: T -> int): (r: seq<int>)
    ensures |r| == |rows| && forall i :: 0 <= i < |rows| ==> r[i] == id(rows[i])
  {
    seq(|rows|, i requires 0 <= i < |rows| => id(rows[i]))
  }

  function UserId(u: User): int { u.id }
  function ClockLogId(l: ClockLog): int { l.id }
  function AuditLogId(e: AuditLog): int { e.id }

  ghost predicate EmailsDistinct(users: seq<User>)
  {
    forall i, j :: 0 <= i < j < |users| ==> users[i].email != users[j].email
  }

  // ---------------------------------------------------------------------
  // Clock-log queries
  // ---------------------------------------------------------------------

  /** The logs owned by user `uid`, in store order. */
  function LogsOf(logs: seq<ClockLog>, uid: int): (r: seq<ClockLog>)
    ensures forall l :: l in r <==> l in logs && l.owner.id == uid
  {
    if logs == [] then []
    else
      var last := logs[|logs| - 1];
      LogsOf(logs[..|logs| - 1], uid) + (if last.owner.id == uid then [last] else [])
  }

  /**
   * findTopByUserIdOrderByTimestampDesc: the user's log with the greatest
   * timestamp; among equal timestamps, the one saved last.
   */
  function LatestLog(logs: seq<ClockLog>, uid: int): (r: Option<ClockLog>)
    ensures r.None? <==> forall l :: l in logs ==> l.owner.id != uid
    ensures r.Some? ==> r.value in logs && r.value.owner.id == uid
    ensures r.Some? ==> forall l :: l in logs && l.owner.id == uid ==> l.timestamp <= r.value.timestamp
  {
    if logs == [] then None
    else
      var last := logs[|logs| - 1];
      var earlier := LatestLog(logs[..|logs| - 1], uid);
      assert logs == logs[..|logs| - 1] + [last];
      if last.owner.id != uid then earlier
      else if earlier.None? || earlier.value.timestamp <= last.timestamp then Some(last)
      else earlier
  }

  /** findByTimestampBetween: the logs with start <= timestamp <= end, in store order. */
  function FindByTimestampBetween(logs: seq<ClockLog>, start: int, end: int): (r: seq<ClockLog>)
    ensures forall l :: l in r <==> l in logs && start <= l.timestamp <= end
    ensures InOrderOf(r, logs)
  {
    if logs == [] then []
    else
      var last := logs[|logs| - 1];
      var earlier := FindByTimestampBetween(logs[..|logs| - 1], start, end);
      assert logs == logs[..|logs| - 1] + [last];
      InOrderOfSnoc(earlier, logs[..|logs| - 1], last);
      earlier + (if start <= last.timestamp <= end then [last] else [])
  }

  /** Saving one more log extends the query's result by that log exactly when its timestamp is in range. */
  lemma FindByTimestampBetweenAppend(logs: seq<ClockLog>, x: ClockLog, start: int, end: int)
    ensures FindByTimestampBetween(logs + [x], start, end)
            == FindByTimestampBetween(logs, start, end) + (if start <= x.timestamp <= end then [x] else [])
  {
    assert (logs + [x])[..|logs|] == logs;
  }

  /** In a store of increasing ids the logs in range come by increasing id, so each one once. */
  lemma {:induction false} FindByTimestampBetweenIncreasingIds(logs: seq<ClockLog>, start: int, end: int, next: int)
    requires IdsAllocated(IdsOf(logs, ClockLogId), next)
    ensures var r := FindByTimestampBetween(logs, start, end);
            forall i, j :: 0 <= i < j < |r| ==> r[i].id < r[j].id
  {
    var r := FindByTimestampBetween(logs, start, end);
    var ids := IdsOf(logs, ClockLogId);
    forall i, j | 0 <= i < j < |r| ensures r[i].id < r[j].id {
      assert PairInOrder(r[i], r[j], logs);
      var p, q :| 0 <= p < q < |logs| && r[i] == logs[p] && r[j] == logs[q];
      assert ids[p] < ids[q];
    }
  }

  // ---------------------------------------------------------------------
  // The stores
  // ---------------------------------------------------------------------

  class UserRepository {
    var users: seq<User>
    var nextId: int

    ghost predicate Valid()
      reads this
    {
      IdsAllocated(IdsOf(users, UserId), nextId) && EmailsDistinct(users)
    }

    constructor ()
      ensures Valid() && users == [] && nextId == 1
    {
      users, nextId := [], 1;
    }

    /** save of a new row: the database assigns the next id; the email column is unique. */
    method Insert(email: string, role: Role, password: string) returns (saved: User)
      requires Valid() && !ExistsByEmail(users, email)
      modifies this
      ensures Valid()
      ensures saved == User(old(nextId), email, role, password)
      ensures users == old(users) + [saved] && nextId == old(nextId) + 1
    {
      saved := User(nextId, email, role, password);
      users, nextId := users + [saved], nextId + 1;
    }

    /** save of an existing row whose password changed. */
    method UpdatePassword(k: nat, password: string)
      requires Valid() && k < |users|
      modifies this
      ensures Valid()
      ensures users == old(users)[k := old(users)[k].(password := password)]
      ensures nextId == old(nextId)
    {
      users := users[k := users[k].(password := password)];
    }

    /** deleteById of the row at position `k`. */
    method DeleteAt(k: nat)
      requires Valid() && k < |users|
      modifies this
      ensures Valid()
      ensures users == old(users)[..k] + old(users)[k + 1..]
      ensures nextId == old(nextId)
    {
      var before := users;
      users := users[..k] + users[k + 1..];
      assert forall i :: 0 <= i < |users| ==> users[i] == (if i < k then before[i] else before[i + 1]);
    }
  }

  class ClockLogRepository {
    var logs: seq<ClockLog>
    var nextId: int

    ghost predicate Valid()
      reads this
    {
      IdsAllocated(IdsOf(logs, ClockLogId), nextId)
    }

    constructor ()
      ensures Valid() && logs == [] && nextId == 1
    {
      logs, nextId := [], 1;
    }

    /** save of a new log: the database assigns the next id. */
    method Save(log: ClockLog) returns (saved: ClockLog)
      requires Valid()
      modifies this
      ensures Valid()
      ensures saved == log.(id := old(nextId))
      ensures logs == old(logs) + [saved] && nextId == old(nextId) + 1
    {
      saved := log.(id := nextId);
      logs, nextId := logs + [saved], nextId + 1;
    }

    /** deleteAllInBatch: every log goes; the identity sequence is not rewound. */
    method DeleteAllInBatch()
      requires Valid()
      modifies this
      ensures Valid()
      ensures logs == [] && nextId == old(nextId)
    {
      logs := [];
    }
  }

  class AuditLogRepository {
    var entries: seq<AuditLog>
    var nextId: int

    ghost predicate Valid()
      reads this
    {
      IdsAllocated(IdsOf(entries, AuditLogId), nextId)
    }

    constructor ()
      ensures Valid() && entries == [] && nextId == 1
    {
      entries, nextId := [], 1;
    }

    /** save of a new entry: the database assigns the next id. */
    method Save(entry: AuditLog) returns (saved: AuditLog)
      requires Valid()
      modifies this
      ensures Valid()
      ensures saved == entry.(id := old(nextId))
      ensures entries == old(entries) + [saved] && nextId == old(nextId) + 1
    {
      saved := entry.(id := nextId);
      entries, nextId := entries + [saved], nextId + 1;
    }
  }
}
