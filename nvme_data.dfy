/**
 * The data the checker works on: one device's SMART counters, the snapshot
 * kept between runs, the fixed list of tracked counters, and the errors that
 * stop a run.
 */
module NvmeData {

  datatype Option<T> = None | Some(value: T)

  /** The path `nvme list` reports for a device, e.g. "/dev/nvme0n1". */
  type DevicePath = string

  /** One device's counters: SMART field name to value. */
  type Record = map<string, int>

  /** The persisted state: when it was taken and the last record seen for each device. */
  datatype Snapshot = Snapshot(when: int, devices: map<DevicePath, Record>)

  /** The state a run starts from when no persist file exists yet. */
  const EmptySnapshot: Snapshot := Snapshot(0, map[])

  /** What stops a run; each is a failed dictionary lookup (a KeyError) in nvmecheck.py. */
  datatype RunError =
    | MissingTelemetryField(device: DevicePath, key: string)  // smart-log output lacks a tracked key
    | UnknownStoredDevice(device: DevicePath)                // path known this run but absent from the persisted state
    | MissingStoredField(device: DevicePath, key: string)     // a differing stored record lacks a tracked key

  datatype Result<T> = Ok(value: T) | Err(error: RunError)

  /** The counters compared between runs, in the order the report lists them. */
  const TrackedKeys: seq<string> :=
    [ "avail_spare", "spare_thresh", "percent_used",
      "unsafe_shutdowns", "media_errors", "num_err_log_entries",
      "warning_temp_time", "critical_comp_time" ]

  predicate Distinct(keys: seq<string>) {
    forall i, j :: 0 <= i < j < |keys| ==> keys[i] != keys[j]
  }

  lemma TrackedKeysDistinct()
    ensures Distinct(TrackedKeys)
  {
  }

  /** `k` is the first key of `keys`, in order, that `m` does not contain. */
  ghost predicate FirstMissing<V>(keys: seq<string>, m: map<string, V>, k: string) {
    exists i :: 0 <= i < |keys| && keys[i] == k && k !in m &&
      forall j :: 0 <= j < i ==> keys[j] in m
  }

  /**
   * Narrows raw telemetry to the given keys, looking them up in order; the
   * first key the telemetry lacks stops the narrowing.
   */
  function NarrowKeys(p: DevicePath, keys: seq<string>, telemetry: Record): (r: Result<Record>)
    ensures r.Ok? <==> forall k :: k in keys ==> k in telemetry
    ensures r.Ok? ==> forall k :: k in r.value <==> k in keys
    ensures r.Ok? ==> forall k :: k in r.value ==> r.value[k] == telemetry[k]
    ensures r.Err? ==> r.error.MissingTelemetryField? && r.error.device == p
    ensures r.Err? ==> FirstMissing(keys, telemetry, r.error.key)
  {
    if keys == [] then Ok(map[])
    else if keys[0] !in telemetry then
      Err(MissingTelemetryField(p, keys[0]))
    else
      match NarrowKeys(p, keys[1..], telemetry)
      case Err(e) =>
        assert forall i :: 0 <= i < |keys| - 1 ==> keys[1..][i] == keys[i + 1];
        Err(e)
      case Ok(m) => Ok(m[keys[0] := telemetry[keys[0]]])
  }

  /** A device's record as the checker keeps it: its telemetry restricted to TrackedKeys. */
  function Narrow(p: DevicePath, telemetry: Record): Result<Record> {
    NarrowKeys(p, TrackedKeys, telemetry)
  }
}
