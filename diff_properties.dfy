/**
 * What the diff engine guarantees over a whole enumeration: what it leaves
 * alone, when the change flag is raised, that identical telemetry changes
 * nothing, that a malformed device aborts the run, and that with distinct
 * paths every device is judged against its stored record alone.
 */
module DiffProperties {
  import opened NvmeData
  import opened Report
  import opened Diff

  /** The enumerated paths, in order. */
  function Paths(devs: seq<Device>): (r: seq<DevicePath>)
    ensures |r| == |devs|
    ensures forall i :: 0 <= i < |devs| ==> r[i] == devs[i].0
  {
    if devs == [] then [] else Paths(devs[..|devs| - 1]) + [devs[|devs| - 1].0]
  }

  /** No path is enumerated twice: `Distinct(Paths(devs))`, stated on the devices themselves. */
  predicate DistinctPaths(devs: seq<Device>) {
    forall i, j :: 0 <= i < j < |devs| ==> devs[i].0 != devs[j].0
  }

  lemma DistinctPathsIsDistinct(devs: seq<Device>)
    ensures DistinctPaths(devs) <==> Distinct(Paths(devs))
  {
    var ps := Paths(devs);
    assert forall i :: 0 <= i < |devs| ==> ps[i] == devs[i].0;
  }

  /**
   * The copy keeps the persisted timestamp, gains exactly the enumerated
   * paths, leaves every device that was not enumerated as it was stored, and
   * reports only enumerated devices.
   */
  lemma {:induction false} DiffFrame(persisted: Snapshot, devs: seq<Device>)
    requires DiffSpec(persisted, devs).Ok?
    ensures var s := DiffSpec(persisted, devs).value;
      && s.updated.when == persisted.when
      && (forall q :: q in s.updated.devices <==> q in persisted.devices || q in Paths(devs))
      && (forall q :: q in persisted.devices && q !in Paths(devs) ==> s.updated.devices[q] == persisted.devices[q])
      && (forall sec :: sec in s.report ==> sec.path in Paths(devs))
  {
    if devs != [] {
      var init := devs[..|devs| - 1];
      assert Paths(devs) == Paths(init) + [devs[|devs| - 1].0];
      DiffFrame(persisted, init);
    }
  }

  /**
   * The checker's change flag, a whole-structure comparison of the persisted
   * state with the updated copy, is raised exactly when some section was
   * written after the header.
   */
  lemma {:induction false} ChangeFlagMatchesReport(persisted: Snapshot, devs: seq<Device>)
    requires DiffSpec(persisted, devs).Ok?
    ensures var s := DiffSpec(persisted, devs).value;
      s.updated != persisted <==> s.report != []
  {
    if devs != [] {
      var init := devs[..|devs| - 1];
      var (p, t) := devs[|devs| - 1];
      var acc := DiffSpec(persisted, init).value;
      ChangeFlagMatchesReport(persisted, init);
      DiffFrame(persisted, init);
      var s := DiffSpec(persisted, devs).value;
      if s != acc {
        var current := Narrow(p, t).value;
        assert s.updated.devices == acc.updated.devices[p := current];
        assert p in persisted.devices ==> current != persisted.devices[p];
        assert s.updated.devices != persisted.devices by {
          assert p in s.updated.devices;
          if p in persisted.devices {
            assert s.updated.devices[p] != persisted.devices[p];
          }
        }
      }
    }
  }

  /**
   * `when` is overwritten only after the change test, so comparing the whole
   * structures is the same as comparing the device maps.
   */
  lemma ChangeFlagComparesDevices(persisted: Snapshot, devs: seq<Device>)
    requires DiffSpec(persisted, devs).Ok?
    ensures var s := DiffSpec(persisted, devs).value;
      s.updated != persisted <==> s.updated.devices != persisted.devices
  {
    DiffFrame(persisted, devs);
  }

  /** Telemetry identical to what is stored changes nothing and reports nothing. */
  lemma {:induction false} IdenticalTelemetryChangesNothing(persisted: Snapshot, devs: seq<Device>)
    requires forall i :: 0 <= i < |devs| ==>
      devs[i].0 in persisted.devices && Narrow(devs[i].0, devs[i].1) == Ok(persisted.devices[devs[i].0])
    ensures DiffSpec(persisted, devs) == Ok(DiffState(persisted, []))
  {
    if devs != [] {
      IdenticalTelemetryChangesNothing(persisted, devs[..|devs| - 1]);
    }
  }

  /**
   * A device whose telemetry lacks a tracked counter makes the whole run fail
   * with the error naming that device and its first missing counter.
   */
  lemma MalformedTelemetryAborts(persisted: Snapshot, devs: seq<Device>, i: nat)
    requires i < |devs| && Narrow(devs[i].0, devs[i].1).Err?
    requires DiffSpec(persisted, devs[..i]).Ok?
    ensures DiffSpec(persisted, devs) == Err(Narrow(devs[i].0, devs[i].1).error)
    ensures DiffSpec(persisted, devs).error.MissingTelemetryField?
    ensures DiffSpec(persisted, devs).error.device == devs[i].0
    ensures FirstMissing(TrackedKeys, devs[i].1, DiffSpec(persisted, devs).error.key)
  {
    assert devs[..i + 1][..i] == devs[..i];
    assert devs[..i + 1][i] == devs[i];
    ErrorPersists(persisted, devs, i + 1);
  }

  // ----- Each device judged on its own ---------------------------------------

  /** The sections one device contributes when compared with its stored record only. */
  function Judge(persisted: Snapshot, dev: Device): Result<seq<Section>> {
    var (p, t) := dev;
    match Narrow(p, t)
    case Err(e) => Err(e)
    case Ok(current) =>
      if p !in persisted.devices then Ok([NewDevice(p)])
      else if current == persisted.devices[p] then Ok([])
      else
        match FieldDiffs(p, TrackedKeys, persisted.devices[p], current)
        case Err(e) => Err(e)
        case Ok(cs) => Ok([ChangedDevice(p, cs)])
  }

  /** Every device's sections, in enumeration order; the first error wins. */
  function JudgeAll(persisted: Snapshot, devs: seq<Device>): Result<seq<Section>> {
    if devs == [] then Ok([])
    else
      match JudgeAll(persisted, devs[..|devs| - 1])
      case Err(e) => Err(e)
      case Ok(before) =>
        match Judge(persisted, devs[|devs| - 1])
        case Err(e) => Err(e)
        case Ok(mine) => Ok(before + mine)
  }

  function ReportOf(r: Result<DiffState>): Result<seq<Section>> {
    match r
    case Err(e) => Err(e)
    case Ok(s) => Ok(s.report)
  }

  /** One visit, for a device the copy knows exactly when the persisted state does, is its own verdict. */
  lemma VisitAsJudge(persisted: Snapshot, acc: DiffState, dev: Device)
    requires dev.0 in acc.updated.devices <==> dev.0 in persisted.devices
    ensures Visit(persisted, acc, dev).Err? <==> Judge(persisted, dev).Err?
    ensures Visit(persisted, acc, dev).Err? ==> Visit(persisted, acc, dev).error == Judge(persisted, dev).error
    ensures Visit(persisted, acc, dev).Ok? ==>
      && Narrow(dev.0, dev.1).Ok?
      && Visit(persisted, acc, dev).value.report == acc.report + Judge(persisted, dev).value
      && Visit(persisted, acc, dev).value.updated.devices ==
           if Judge(persisted, dev).value == [] then acc.updated.devices
           else acc.updated.devices[dev.0 := Narrow(dev.0, dev.1).value]
  {
    var v := Visit(persisted, acc, dev);
    if v.Ok? && Judge(persisted, dev).value == [] {
      assert acc.report + [] == acc.report;
    }
  }

  /**
   * When no path is enumerated twice, the report is the concatenation of each
   * device's own verdict against the persisted state.
   */
  lemma {:induction false} DistinctDevicesJudgedAlone(persisted: Snapshot, devs: seq<Device>)
    requires DistinctPaths(devs)
    ensures ReportOf(DiffSpec(persisted, devs)) == JudgeAll(persisted, devs)
  {
    if devs != [] {
      var n := |devs| - 1;
      var init := devs[..n];
      assert DistinctPaths(init);
      DistinctDevicesJudgedAlone(persisted, init);
      if DiffSpec(persisted, init).Ok? {
        DiffFrame(persisted, init);
        NotAmongEarlier(devs);
        VisitAsJudge(persisted, DiffSpec(persisted, init).value, devs[n]);
      }
    }
  }

  /** With distinct paths, the last path is not among the earlier ones. */
  lemma NotAmongEarlier(devs: seq<Device>)
    requires devs != [] && DistinctPaths(devs)
    ensures devs[|devs| - 1].0 !in Paths(devs[..|devs| - 1])
  {
    var n := |devs| - 1;
    var init := devs[..n];
    forall i | 0 <= i < n ensures Paths(init)[i] != devs[n].0 {
      assert init[i] == devs[i];
    }
  }

  /** A successful visit stores the device's narrowed telemetry, provided the copy still holds its persisted record. */
  lemma VisitStores(persisted: Snapshot, acc: DiffState, dev: Device)
    requires Visit(persisted, acc, dev).Ok?
    requires dev.0 in persisted.devices ==>
      dev.0 in acc.updated.devices && acc.updated.devices[dev.0] == persisted.devices[dev.0]
    ensures Narrow(dev.0, dev.1).Ok?
    ensures Visit(persisted, acc, dev).value.updated.devices == acc.updated.devices[dev.0 := Narrow(dev.0, dev.1).value]
  {
  }

  /** Every device of `devs` is stored in `devices` as the record `f` gives it. */
  predicate StoredAs(devs: seq<Device>, devices: map<DevicePath, Record>, f: Device -> Result<Record>) {
    forall i :: 0 <= i < |devs| ==>
      f(devs[i]).Ok? && devs[i].0 in devices && devices[devs[i].0] == f(devs[i]).value
  }

  function NarrowDevice(dev: Device): Result<Record> {
    Narrow(dev.0, dev.1)
  }

  /** Every device of `devs` is stored in `devices` as its narrowed telemetry. */
  predicate StoredAsNarrowed(devs: seq<Device>, devices: map<DevicePath, Record>) {
    forall i :: 0 <= i < |devs| ==>
      Narrow(devs[i].0, devs[i].1).Ok? &&
      devs[i].0 in devices && devices[devs[i].0] == Narrow(devs[i].0, devs[i].1).value
  }

  lemma StoredStep(devs: seq<Device>, before: map<DevicePath, Record>, f: Device -> Result<Record>)
    requires devs != [] && devs[|devs| - 1].0 !in Paths(devs[..|devs| - 1])
    requires StoredAs(devs[..|devs| - 1], before, f)
    requires f(devs[|devs| - 1]).Ok?
    ensures StoredAs(devs, before[devs[|devs| - 1].0 := f(devs[|devs| - 1]).value], f)
  {
    var n := |devs| - 1;
    var init := devs[..n];
    forall i | 0 <= i < n
      ensures devs[i].0 != devs[n].0 && init[i] == devs[i]
    {
      assert Paths(init)[i] == devs[i].0;
    }
  }

  /** When no path is enumerated twice, every enumerated device ends up stored as its narrowed telemetry. */
  lemma {:induction false} DistinctDevicesStored(persisted: Snapshot, devs: seq<Device>)
    requires DistinctPaths(devs) && DiffSpec(persisted, devs).Ok?
    ensures StoredAsNarrowed(devs, DiffSpec(persisted, devs).value.updated.devices)
  {
    if devs != [] {
      var n := |devs| - 1;
      var init := devs[..n];
      assert DistinctPaths(init);
      DistinctDevicesStored(persisted, init);
      var acc := DiffSpec(persisted, init).value;
      DiffFrame(persisted, init);
      NotAmongEarlier(devs);
      assert DiffSpec(persisted, devs) == Visit(persisted, acc, devs[n]);
      VisitStores(persisted, acc, devs[n]);
      assert StoredAs(init, acc.updated.devices, NarrowDevice);
      StoredStep(devs, acc.updated.devices, NarrowDevice);
      assert StoredAs(devs, DiffSpec(persisted, devs).value.updated.devices, NarrowDevice);
    }
  }

  // ----- Particular runs -------------------------------------------------------

  /**
   * On a first run every device is new and is stored as its narrowed
   * telemetry; through DistinctDevicesJudgedAlone, the verdict also holds for
   * each device of a longer first run.
   */
  lemma FirstRunFindsNewDevice(p: DevicePath, t: Record)
    requires Narrow(p, t).Ok?
    ensures Judge(EmptySnapshot, (p, t)) == Ok([NewDevice(p)])
    ensures DiffSpec(EmptySnapshot, [(p, t)]) ==
      Ok(DiffState(Snapshot(0, map[p := Narrow(p, t).value]), [NewDevice(p)]))
  {
    var devs := [(p, t)];
    assert devs[..0] == [];
    assert DiffSpec(EmptySnapshot, devs) == Visit(EmptySnapshot, DiffState(EmptySnapshot, []), (p, t));
    assert map[][p := Narrow(p, t).value] == map[p := Narrow(p, t).value];
    assert [] + [NewDevice(p)] == [NewDevice(p)];
  }

  /**
   * A new path enumerated a second time fails on that visit, whatever came
   * before or between and whatever its telemetry: the path is found in the
   * copy but looked up in the persisted state. The whole run then fails.
   */
  lemma RepeatedNewPathFails(persisted: Snapshot, devs: seq<Device>, i: nat, j: nat)
    requires i < j < |devs|
    requires devs[i].0 == devs[j].0 && devs[j].0 !in persisted.devices
    requires DiffSpec(persisted, devs[..j]).Ok?
    requires Narrow(devs[j].0, devs[j].1).Ok?
    ensures DiffSpec(persisted, devs[..j + 1]) == Err(UnknownStoredDevice(devs[j].0))
    ensures DiffSpec(persisted, devs) == Err(UnknownStoredDevice(devs[j].0))
  {
    var pre := devs[..j];
    DiffFrame(persisted, pre);
    assert Paths(pre)[i] == devs[j].0;
    assert devs[..j + 1][..j] == pre && devs[..j + 1][j] == devs[j];
    ErrorPersists(persisted, devs, j + 1);
  }

  /**
   * A known path enumerated twice is compared with its persisted record both
   * times, so a second visit equal to that record does not undo the change
   * the first one stored and reported.
   */
  lemma KnownPathRevisitKeepsChange(persisted: Snapshot, p: DevicePath, a: Record, b: Record)
    requires p in persisted.devices
    requires forall k :: k in TrackedKeys ==> k in a && k in b && k in persisted.devices[p]
    requires Narrow(p, a).value != persisted.devices[p] && Narrow(p, b).value == persisted.devices[p]
    ensures var cs := FieldDiffs(p, TrackedKeys, persisted.devices[p], Narrow(p, a).value).value;
      DiffSpec(persisted, [(p, a), (p, b)]) ==
        Ok(DiffState(persisted.(devices := persisted.devices[p := Narrow(p, a).value]), [ChangedDevice(p, cs)]))
  {
    var devs := [(p, a), (p, b)];
    assert devs[..1] == [(p, a)] && devs[1] == (p, b);
    assert devs[..1][..0] == [];
    var cs := FieldDiffs(p, TrackedKeys, persisted.devices[p], Narrow(p, a).value).value;
    assert [] + [ChangedDevice(p, cs)] == [ChangedDevice(p, cs)];
    var first := DiffState(persisted.(devices := persisted.devices[p := Narrow(p, a).value]), [ChangedDevice(p, cs)]);
    assert DiffSpec(persisted, devs[..1]) == Ok(first);
    assert Visit(persisted, first, (p, b)) == Ok(first);
  }

  /** Equal values on every key give no field changes. */
  lemma {:induction false} EqualFieldsNoChanges(p: DevicePath, keys: seq<string>, stored: Record, current: Record)
    requires forall k :: k in keys ==> k in current && k in stored && stored[k] == current[k]
    ensures FieldDiffs(p, keys, stored, current) == Ok([])
  {
    if keys != [] {
      EqualFieldsNoChanges(p, keys[1..], stored, current);
    }
  }

  /**
   * A stored record with a key outside TrackedKeys never equals a narrowed
   * one, so an unchanged device is still reported, with no field lines.
   */
  lemma ExtraStoredKeyGivesEmptySection(persisted: Snapshot, p: DevicePath, t: Record, extra: string)
    requires Narrow(p, t).Ok? && p in persisted.devices
    requires extra !in TrackedKeys && extra in persisted.devices[p]
    requires forall k :: k in TrackedKeys ==> k in persisted.devices[p] && persisted.devices[p][k] == t[k]
    ensures Judge(persisted, (p, t)) == Ok([ChangedDevice(p, [])])
    ensures DiffSpec(persisted, [(p, t)]) ==
      Ok(DiffState(persisted.(devices := persisted.devices[p := Narrow(p, t).value]), [ChangedDevice(p, [])]))
  {
    var current := Narrow(p, t).value;
    var stored := persisted.devices[p];
    assert extra !in current;
    assert current != stored;
    EqualFieldsNoChanges(p, TrackedKeys, stored, current);
    var devs := [(p, t)];
    assert devs[..0] == [];
    assert DiffSpec(persisted, devs) == Visit(persisted, DiffState(persisted, []), (p, t));
    assert [] + [ChangedDevice(p, [])] == [ChangedDevice(p, [])];
  }
}
