/** The audit recorder: every call appends exactly one entry to the audit store. */
module AuditService {
  import opened Wrappers
  import opened Entities
  import opened Repositories

  /**
   * log(userId, action, status, details). `now` is the clock reading taken
   * during the call.
   */
  method Log(audits: AuditLogRepository, now: int, userId: Option<int>, action: string, status: string, details: string)
    requires audits.Valid()
    modifies audits
    ensures audits.Valid()
    ensures audits.entries == old(audits.entries) + [AuditLog(old(audits.nextId), userId, action, status, None, now, details)]
    ensures audits.nextId == old(audits.nextId) + 1
  {
    // a new entity; every placeholder below is overwritten before the save
    var entry := AuditLog(0, None, "", "", None, 0, "");
    entry := entry.(userId := userId);
    entry := entry.(action := action);
    entry := entry.(status := status);
    entry := entry.(details := details);
    entry := entry.(timestamp := now);
    entry := entry.(ipAddress := None);
    var _ := audits.Save(entry);
  }
}
