/**
 * The two decisions taken after the diff: whether the snapshot is written
 * back (a minimum-interval throttle), and how the operator is told.
 */
module Policy {
  import opened NvmeData

  // ----- Persistence throttle ----------------------------------------------

  /** The snapshot is written when strictly more than `minHours` hours passed since the persisted one. */
  predicate ShouldPersist(persistedWhen: int, now: int, minHours: int) {
    now - persistedWhen > minHours * 3600
  }

  /** Exactly `minHours` hours is not enough; one second more is. */
  lemma ThrottleBoundary(persistedWhen: int, minHours: int)
    ensures !ShouldPersist(persistedWhen, persistedWhen + minHours * 3600, minHours)
    ensures ShouldPersist(persistedWhen, persistedWhen + minHours * 3600 + 1, minHours)
  {
  }

  /** Once the interval has passed, it stays passed. */
  lemma ThrottleMonotone(persistedWhen: int, now: int, later: int, minHours: int)
    requires now <= later && ShouldPersist(persistedWhen, now, minHours)
    ensures ShouldPersist(persistedWhen, later, minHours)
  {
  }

  /** With the default of zero hours, the snapshot is written whenever the clock has moved forward. */
  lemma ZeroHoursPersistsWhenClockAdvanced(persistedWhen: int, now: int)
    ensures ShouldPersist(persistedWhen, now, 0) <==> now > persistedWhen
  {
  }

  // ----- Notification ------------------------------------------------------

  /** What the operator receives. */
  datatype Notification =
    | Email(sender: string, recipient: Option<string>, subject: string, body: string)
    | Stdout(text: string)
    | Silent

  /** The from address counts as given when it is present and not empty. */
  predicate HasFromAddr(fromAddr: Option<string>) {
    fromAddr.Some? && fromAddr.value != ""
  }

  const NoChangesBody: string := "No changes reported to any NVME counters"

  const ChangesMarker: string := " (CONTAINS CHANGES)"

  function Subject(hostname: string, changed: bool): string {
    "NVME report for " + hostname + (if changed then ChangesMarker else "")
  }

  /** The subject names the host and tells a report with changes from a status mail. */
  lemma SubjectMarksChanges(hostname: string)
    ensures Subject(hostname, false) == "NVME report for " + hostname
    ensures Subject(hostname, true) == Subject(hostname, false) + ChangesMarker
    ensures Subject(hostname, true) != Subject(hostname, false)
  {
    assert |Subject(hostname, true)| > |Subject(hostname, false)|;
  }

  /**
   * The notification for a run: a mail whenever a from address is given, with
   * the report if something changed and a fixed status line otherwise; with no
   * from address the report is printed, and nothing at all when nothing changed.
   */
  function Notify(changed: bool, fromAddr: Option<string>, toAddr: Option<string>,
                  hostname: string, report: string): (n: Notification)
    ensures n.Email? <==> HasFromAddr(fromAddr)
    ensures n.Stdout? <==> changed && !HasFromAddr(fromAddr)
    ensures n.Silent? <==> !changed && !HasFromAddr(fromAddr)
    ensures n.Email? ==> n.sender == fromAddr.value && n.recipient == toAddr
    ensures n.Email? ==> n.subject == Subject(hostname, changed)
    ensures changed ==> (n.Email? && n.body == report) || (n.Stdout? && n.text == report + "\n")
    ensures !changed ==> n.Silent? || (n.Email? && n.body == NoChangesBody)
  {
    if changed then
      if HasFromAddr(fromAddr) then Email(fromAddr.value, toAddr, Subject(hostname, true), report)
      else Stdout(report + "\n")
    else if HasFromAddr(fromAddr) then
      Email(fromAddr.value, toAddr, Subject(hostname, false), NoChangesBody)
    else
      Silent
  }
}
