/**
 * One run of the checker, from the loaded snapshot and the enumerated
 * telemetry to the notification and the snapshot to write, if any.
 */
module Check {
  import opened NvmeData
  import opened Report
  import opened Diff
  import opened DiffProperties
  import opened Policy

  /** What a run that does not fail produces. */
  datatype Outcome = Outcome(notification: Notification, written: Option<Snapshot>)

  /**
   * A whole run. Any error stops it before anything is sent or written; the
   * write decision depends only on the clock, never on whether anything changed.
   */
  method Run(persisted: Snapshot, devs: seq<Device>, now: int, minHours: int,
             fromAddr: Option<string>, toAddr: Option<string>, hostname: string)
    returns (r: Result<Outcome>)
    ensures r.Err? <==> DiffSpec(persisted, devs).Err?
    ensures r.Err? ==> r.error == DiffSpec(persisted, devs).error
    ensures r.Ok? ==> var s := DiffSpec(persisted, devs).value;
      r.value.notification == Notify(s.report != [], fromAddr, toAddr, hostname, Render(s.report))
    ensures r.Ok? ==> (r.value.written.Some? <==> ShouldPersist(persisted.when, now, minHours))
    ensures r.Ok? && r.value.written.Some? ==>
      r.value.written.value == Snapshot(now, DiffSpec(persisted, devs).value.updated.devices)
    ensures (forall i :: 0 <= i < |devs| ==>
               devs[i].0 in persisted.devices && Narrow(devs[i].0, devs[i].1) == Ok(persisted.devices[devs[i].0]))
      ==> r.Ok? && r.value.notification == Notify(false, fromAddr, toAddr, hostname, Header)
  {
    var diff := ComputeDiff(persisted, devs);
    ghost var identical := forall i :: 0 <= i < |devs| ==>
      devs[i].0 in persisted.devices && Narrow(devs[i].0, devs[i].1) == Ok(persisted.devices[devs[i].0]);
    if identical {
      IdenticalTelemetryChangesNothing(persisted, devs);
    }
    if diff.Err? {
      return Err(diff.error);
    }
    var updated := diff.value.updated;
    ChangeFlagMatchesReport(persisted, devs);
    DiffFrame(persisted, devs);
    var changed := persisted != updated;
    var notification := Notify(changed, fromAddr, toAddr, hostname, Render(diff.value.report));
    updated := updated.(when := now);
    var written := if updated.when - persisted.when > minHours * 3600 then Some(updated) else None;
    return Ok(Outcome(notification, written));
  }
}
