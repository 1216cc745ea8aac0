/**
 * The diff engine: walks the enumerated devices in order, narrows each one's
 * telemetry to the tracked counters, and compares it with the persisted
 * snapshot, updating a copy of that snapshot and collecting report sections.
 *
 * FieldDiffs and DiffSpec are the specification; DiffFields and ComputeDiff
 * are the loops of nvmecheck.py, proved equal to them.
 */
module Diff {
  import opened NvmeData
  import opened Report

  /** A device as enumerated: its path and its raw smart-log output. */
  type Device = (DevicePath, Record)

  /** What the main loop carries: the copy being updated and the sections written so far. */
  datatype DiffState = DiffState(updated: Snapshot, report: seq<Section>)

  // ----- Per-field comparison ----------------------------------------------

  /**
   * The changes between a stored record and a narrowed one, over `keys` in
   * order; a key the stored record lacks stops the comparison.
   */
  function FieldDiffs(p: DevicePath, keys: seq<string>, stored: Record, current: Record): (r: Result<seq<FieldChange>>)
    requires forall k :: k in keys ==> k in current
    ensures r.Ok? <==> forall k :: k in keys ==> k in stored
    ensures r.Err? ==> r.error.MissingStoredField? && r.error.device == p
    ensures r.Err? ==> FirstMissing(keys, stored, r.error.key)
    ensures r.Ok? ==> forall c :: c in r.value ==>
      c.key in keys && c.key in stored && c.before == stored[c.key] && c.after == current[c.key] && c.before != c.after
    ensures r.Ok? ==> forall k :: k in keys ==> (stored[k] != current[k] <==> k in ChangedKeys(r.value))
    ensures r.Ok? && Distinct(keys) ==> IsSubsequence(ChangedKeys(r.value), keys)
  {
    if keys == [] then Ok([])
    else
      var k := keys[0];
      if k !in stored then
        Err(MissingStoredField(p, k))
      else
        match FieldDiffs(p, keys[1..], stored, current)
        case Err(e) =>
          assert forall i :: 0 <= i < |keys| - 1 ==> keys[1..][i] == keys[i + 1];
          Err(e)
        case Ok(rest) =>
          if current[k] != stored[k] then
            var c := FieldChange(k, stored[k], current[k]);
            assert ChangedKeys([c] + rest) == [k] + ChangedKeys(rest) by {
              assert ([c] + rest)[1..] == rest;
            }
            Ok([c] + rest)
          else
            assert Distinct(keys) ==> Distinct(keys[1..]) && k !in keys[1..];
            ChangedKeysIn(rest, keys[1..]);
            Ok(rest)
  }

  /** Every name in ChangedKeys(cs) belongs to some element of cs. */
  lemma {:induction false} ChangedKeysIn(cs: seq<FieldChange>, keys: seq<string>)
    requires forall c :: c in cs ==> c.key in keys
    ensures forall k :: k in ChangedKeys(cs) ==> k in keys
  {
    if cs != [] {
      ChangedKeysIn(cs[1..], keys);
    }
  }

  /** Prepends already-collected changes to the result for the remaining keys. */
  function Prepend(done: seq<FieldChange>, r: Result<seq<FieldChange>>): Result<seq<FieldChange>> {
    match r
    case Err(e) => Err(e)
    case Ok(rest) => Ok(done + rest)
  }

  /** One step of the comparison: the first key's change, if any, followed by the rest. */
  lemma FieldDiffsStep(p: DevicePath, keys: seq<string>, stored: Record, current: Record)
    requires keys != [] && keys[0] in stored
    requires forall k :: k in keys ==> k in current
    ensures var k := keys[0];
      FieldDiffs(p, keys, stored, current) ==
        Prepend(if current[k] != stored[k] then [FieldChange(k, stored[k], current[k])] else [],
                FieldDiffs(p, keys[1..], stored, current))
  {
    var rest := FieldDiffs(p, keys[1..], stored, current);
    if rest.Ok? {
      assert [] + rest.value == rest.value;
    }
  }

  lemma PrependPrepend(a: seq<FieldChange>, b: seq<FieldChange>, r: Result<seq<FieldChange>>)
    ensures Prepend(a, Prepend(b, r)) == Prepend(a + b, r)
  {
    if r.Ok? {
      assert a + (b + r.value) == (a + b) + r.value;
    }
  }

  /** The inner loop: one change per tracked counter whose value moved, in TrackedKeys order. */
  method DiffFields(p: DevicePath, stored: Record, current: Record) returns (r: Result<seq<FieldChange>>)
    requires forall k :: k in TrackedKeys ==> k in current
    ensures r == FieldDiffs(p, TrackedKeys, stored, current)
    ensures r.Ok? ==> IsSubsequence(ChangedKeys(r.value), TrackedKeys)
  {
    ghost var whole := FieldDiffs(p, TrackedKeys, stored, current);
    var changes: seq<FieldChange> := [];
    var i := 0;
    assert TrackedKeys[0..] == TrackedKeys;
    assert whole.Ok? ==> [] + whole.value == whole.value;
    while i < |TrackedKeys|
      invariant 0 <= i <= |TrackedKeys|
      invariant whole == Prepend(changes, FieldDiffs(p, TrackedKeys[i..], stored, current))
    {
      var k := TrackedKeys[i];
      ghost var keys := TrackedKeys[i..];
      assert keys[0] == k && keys[1..] == TrackedKeys[i + 1..];
      if k !in stored {
        assert FieldDiffs(p, keys, stored, current) == Err(MissingStoredField(p, k));
        return Err(MissingStoredField(p, k));
      }
      FieldDiffsStep(p, keys, stored, current);
      var step: seq<FieldChange> := [];
      if current[k] != stored[k] {
        step := [FieldChange(k, stored[k], current[k])];
      }
      PrependPrepend(changes, step, FieldDiffs(p, TrackedKeys[i + 1..], stored, current));
      changes := changes + step;
      i := i + 1;
    }
    assert TrackedKeys[i..] == [];
    assert changes + [] == changes;
    TrackedKeysDistinct();
    return Ok(changes);
  }

  // ----- One device, and the whole enumeration ------------------------------

  /** One iteration of the main loop. */
  function Visit(persisted: Snapshot, acc: DiffState, dev: Device): Result<DiffState> {
    var (p, telemetry) := dev;
    match Narrow(p, telemetry)
    case Err(e) => Err(e)
    case Ok(current) =>
      if p in acc.updated.devices then
        if p !in persisted.devices then
          Err(UnknownStoredDevice(p))
        else if current == persisted.devices[p] then
          Ok(acc)
        else
          match FieldDiffs(p, TrackedKeys, persisted.devices[p], current)
          case Err(e) => Err(e)
          case Ok(cs) =>
            Ok(DiffState(acc.updated.(devices := acc.updated.devices[p := current]),
                         acc.report + [ChangedDevice(p, cs)]))
      else
        Ok(DiffState(acc.updated.(devices := acc.updated.devices[p := current]),
                     acc.report + [NewDevice(p)]))
  }

  /** The main loop over `devs`, starting from a copy of `persisted` and an empty report. */
  function DiffSpec(persisted: Snapshot, devs: seq<Device>): Result<DiffState> {
    if devs == [] then Ok(DiffState(persisted, []))
    else
      match DiffSpec(persisted, devs[..|devs| - 1])
      case Err(e) => Err(e)
      case Ok(acc) => Visit(persisted, acc, devs[|devs| - 1])
  }

  /** An error in a prefix of the enumeration is the error of the whole run. */
  lemma {:induction false} ErrorPersists(persisted: Snapshot, devs: seq<Device>, n: nat)
    requires n <= |devs|
    requires DiffSpec(persisted, devs[..n]).Err?
    ensures DiffSpec(persisted, devs) == DiffSpec(persisted, devs[..n])
  {
    if n < |devs| {
      var init := devs[..|devs| - 1];
      assert init[..n] == devs[..n];
      ErrorPersists(persisted, init, n);
    } else {
      assert devs[..n] == devs;
    }
  }

  /** The main loop of nvmecheck.py. */
  method ComputeDiff(persisted: Snapshot, devs: seq<Device>) returns (r: Result<DiffState>)
    ensures r == DiffSpec(persisted, devs)
  {
    var updated := persisted;
    var report: seq<Section> := [];
    var i := 0;
    while i < |devs|
      invariant 0 <= i <= |devs|
      invariant DiffSpec(persisted, devs[..i]) == Ok(DiffState(updated, report))
    {
      var (p, telemetry) := devs[i];
      assert devs[..i + 1][..i] == devs[..i];
      var narrowed := Narrow(p, telemetry);
      if narrowed.Err? {
        ErrorPersists(persisted, devs, i + 1);
        return Err(narrowed.error);
      }
      var current := narrowed.value;
      if p in updated.devices {
        if p !in persisted.devices {
          ErrorPersists(persisted, devs, i + 1);
          return Err(UnknownStoredDevice(p));
        }
        if current != persisted.devices[p] {
          var changes := DiffFields(p, persisted.devices[p], current);
          if changes.Err? {
            ErrorPersists(persisted, devs, i + 1);
            return Err(changes.error);
          }
          report := report + [ChangedDevice(p, changes.value)];
          updated := updated.(devices := updated.devices[p := current]);
        }
      } else {
        report := report + [NewDevice(p)];
        updated := updated.(devices := updated.devices[p := current]);
      }
      i := i + 1;
    }
    assert devs[..i] == devs;
    return Ok(DiffState(updated, report));
  }
}
