# nvmecheck — a Dafny model of the change detector

`nvmecheck.py` is meant to run from cron. It lists the NVMe devices, reads their SMART log, and
compares eight tracked counters with the values in its persist file, the last snapshot written.
When a device is new or a counter moved, it mails the operator or prints a report. It then writes
the new state back to its persist file, but only when enough time has passed since the last write.

This project models that core in Dafny:

- `nvme_data.dfy` (module `NvmeData`) holds the data model:
  - a device record (`map<string, int>`);
  - the persisted `Snapshot` (`when` and `devices`);
  - the fixed `TrackedKeys` list and the narrowing of raw telemetry to it (`NarrowKeys`, `Narrow`);
  - the three lookups that can fail and stop a run (`RunError`).
- `diff.dfy` (module `Diff`) models the main loop:
  - `ComputeDiff` is the loop over the enumerated devices. It works on a copy of the persisted
    snapshot and a growing list of report sections.
  - `DiffFields` is the inner loop over the tracked keys.
  - Both are proved equal to the specification functions `DiffSpec` (one `Visit` per device) and
    `FieldDiffs`.
- `diff_properties.dfy` (module `DiffProperties`) holds what the loop guarantees over a whole
  enumeration: the frame, the change flag, idempotence, abort on malformed telemetry,
  independent judgement of distinct devices, and two edge cases of nvmecheck.py.
- `report.dfy` (module `Report`) holds the report.
  - It is a sequence of `NewDevice` / `ChangedDevice` sections.
  - `Render` gives the text nvmecheck.py builds in its `out` buffer: the header, then one
    block per section, with the key padded to 20 columns and Python's `str` of each value.
- `policy.dfy` (module `Policy`) holds the two decisions made after the diff:
  - the persistence throttle `ShouldPersist`;
  - the notification choice `Notify`.
- `check.dfy` (module `Check`) holds `Run`, one complete run. It returns either an error, or the
  notification together with the snapshot to write (if any).

Facts about nvmecheck.py that the model makes explicit:

- A stored device record may hold keys outside TRACKED_KEYS. Line 75 compares whole maps, so such
  a device gets a "For device" section even when none of its tracked counters changed, and that
  section then has no field lines (`ExtraStoredKeyGivesEmptySection`).
- A known path enumerated twice is compared with its persisted record both times (line 75), so a
  later visit equal to that record does not undo an earlier change (`KnownPathRevisitKeepsChange`).
- The persist file is written only when the throttle allows (line 119). A change seen on a run
  that does not write is reported again on every later run until a write happens: `Check.Run`
  then returns no snapshot to write, so the next run compares against the same one.
- With `--minhours 0` the snapshot is written only when `now > when` (line 119,
  `ZeroHoursPersistsWhenClockAdvanced`).
- The change flag at line 92 compares the whole structures `persisted != updated`. It holds iff a
  section was written (`ChangeFlagMatchesReport`). `when` is overwritten only after line 92, so
  the test is the same as comparing the device maps (`ChangeFlagComparesDevices`).
- The only failures modelled are those the code has: failed dictionary lookups (KeyError).
  - A tracked key missing from the smart-log output: `MissingTelemetryField`.
  - A new path enumerated twice in one run: `UnknownStoredDevice`. The second visit finds the path
    in `updated` but reads `persisted`.
  - A differing stored record that lacks a tracked key: `MissingStoredField`.
  - Each of these stops the run. Nothing is sent and nothing is written.

## Model

| member | source | states |
|---|---|---|
| `NvmeData.TrackedKeysDistinct` | nvmecheck.py:22-24 | the eight tracked counter names are pairwise distinct |
| `NvmeData.NarrowKeys` | nvmecheck.py:71 | narrowing succeeds iff every tracked key is in the telemetry; the result then has exactly the tracked keys, with the telemetry's values; otherwise the error names the device and the first missing key in list order |
| `Report.PadRight` | nvmecheck.py:80 | `{:20}` left-aligns: the result has length the larger of 20 and the key length, starts with the key and is blank after it |
| `Report.NatToStringRoundTrip` | nvmecheck.py:80-83 | the decimal digits written for a counter read back as that counter |
| `Report.IntToStringRoundTrip` | nvmecheck.py:80-83 | the text written for any integer value starts with '-' iff it is negative and reads back as the value |
| `Report.SectionTextEndsLine` | nvmecheck.py:77-89 | every "Found new device" line and every "For device" block is non-empty and ends with a line break |
| `Report.RenderHeaderOnly` | nvmecheck.py:56-57 | the report text always starts with the header, and is exactly the header iff no section was written |
| `Report.RenderAppend` | nvmecheck.py:77-89 | the buffer only grows: appending sections appends their text, in order |
| `Diff.FieldDiffs` | nvmecheck.py:78-84 | the changes list exactly the tracked keys whose stored and new values differ, each with the stored value and the new value, in tracked-key order; a differing stored record that lacks a tracked key fails on the first such key |
| `Diff.DiffFields` | nvmecheck.py:78-85 | the inner loop over the tracked keys computes exactly `FieldDiffs`; the changed keys appear in TRACKED_KEYS order, each at most once |
| `Diff.ErrorPersists` | nvmecheck.py:64-90 | an error raised while visiting one device is the outcome of the whole run, whatever follows it |
| `Diff.ComputeDiff` | nvmecheck.py:55-90 | the main loop over the enumerated devices computes exactly `DiffSpec`: the updated copy and the report sections, or the first error |
| `DiffProperties.DiffFrame` | nvmecheck.py:55-90 | the copy keeps the persisted `when`; its devices are the persisted ones plus the enumerated paths; a device that was not enumerated keeps its stored record; only enumerated devices are reported |
| `DiffProperties.ChangeFlagMatchesReport` | nvmecheck.py:92 | `persisted != updated` holds iff at least one "new device" or "For device" section was written |
| `DiffProperties.ChangeFlagComparesDevices` | nvmecheck.py:92 | `persisted != updated` holds iff the device maps differ, since `when` is not yet overwritten |
| `DiffProperties.IdenticalTelemetryChangesNothing` | nvmecheck.py:73-75 | telemetry that narrows to the stored records leaves the copy equal to the persisted state and writes no section |
| `DiffProperties.MalformedTelemetryAborts` | nvmecheck.py:71 | when the devices before it succeed, a device whose telemetry lacks a tracked key makes the run fail with the error naming that device and its first missing key |
| `DiffProperties.VisitAsJudge` | nvmecheck.py:73-90 | visiting a device that the copy knows exactly when the persisted state does adds that device's own verdict: "new device", a changed section, or nothing |
| `DiffProperties.DistinctPathsIsDistinct` | nvmecheck.py:64-65 | "no path is enumerated twice" on the devices is the same as the enumerated paths being pairwise distinct |
| `DiffProperties.DistinctDevicesJudgedAlone` | nvmecheck.py:64-90 | with distinct paths, the report (or the error) equals each device's verdict against its persisted record alone, concatenated in enumeration order |
| `DiffProperties.VisitStores` | nvmecheck.py:87-90 | a successful visit of a new path, or of a known path whose copy still holds its persisted record, leaves the device stored as its narrowed telemetry |
| `DiffProperties.DistinctDevicesStored` | nvmecheck.py:87-90 | with distinct paths, every enumerated device ends up stored as its narrowed telemetry |
| `DiffProperties.FirstRunFindsNewDevice` | nvmecheck.py:50-53 | from the empty default state, a device's own verdict is exactly "Found new device p"; alone it is also stored as its narrowed telemetry |
| `DiffProperties.RepeatedNewPathFails` | nvmecheck.py:73-75 | a path absent from the persisted state and enumerated at positions i < j fails at visit j (if the visits before succeed and its telemetry is complete) with `UnknownStoredDevice`, and so does the whole run |
| `DiffProperties.EqualFieldsNoChanges` | nvmecheck.py:78-79 | equal values on every tracked key give no field line |
| `DiffProperties.ExtraStoredKeyGivesEmptySection` | nvmecheck.py:75-87 | a stored record with a non-tracked key and equal tracked values still gets a "For device" verdict with no field lines; alone it is also overwritten |
| `DiffProperties.KnownPathRevisitKeepsChange` | nvmecheck.py:73-87 | a known path with a complete stored record, enumerated twice, first changed then equal to its persisted record, keeps the first visit's stored record and its single section |
| `Policy.ThrottleBoundary` | nvmecheck.py:118-119 | exactly `minhours*3600` seconds after the persisted time does not persist; one second more does |
| `Policy.ThrottleMonotone` | nvmecheck.py:118-119 | once the interval has passed, any later time also persists |
| `Policy.ZeroHoursPersistsWhenClockAdvanced` | nvmecheck.py:119 | with `minhours` 0, the snapshot is written iff `now` is after the persisted time |
| `Policy.SubjectMarksChanges` | nvmecheck.py:97-98 | the subject names the host; the subject with changes is the plain one plus " (CONTAINS CHANGES)", and the two differ |
| `Policy.Notify` | nvmecheck.py:92-116 | a mail iff a from address is given, to the given addresses, with the subject marking changes; if changed, the mail body is the report, or the report is printed; if unchanged, the fixed "No changes" body or no output |
| `Check.Run` | nvmecheck.py:55-121 | a run fails iff the diff fails, with the same error; otherwise it notifies per `Notify` with changed iff a section was written; it writes the snapshot stamped with `now` iff the throttle allows, independent of changes; identical telemetry leads to the unchanged notification |

## Left out

- Option parsing (nvmecheck.py:28-44) is library glue. `minhours`, `fromaddr`, `toaddr` and the
  current time are parameters of `Check.Run`.
- Reading and writing the JSON persist file (nvmecheck.py:46-53, 120-121) is file I/O.
  - The loaded snapshot is an input; the file-missing default is `NvmeData.EmptySnapshot`.
  - Writing is the `written` field of the outcome.
  - A persist file that does not parse, and serialisation round-trips, are not modelled.
- The `nvme list` and `nvme smart-log` subprocess calls and their JSON parsing (nvmecheck.py:59-70)
  call an external tool. The enumeration is an input `seq<(path, telemetry)>`. Failures of the
  tool and missing `Devices`/`DevicePath` keys are not modelled.
- Counter values are integers. nvmecheck.py compares and prints arbitrary JSON values.
- MIME construction, SMTP delivery, `print` and `socket.gethostname()` (nvmecheck.py:96-116) are
  side effects. Only the chosen notification (sender, recipient, subject, body, or the printed
  text) is modelled, with the host name as a parameter. Delivery failures are not modelled.
- `time.time()` (nvmecheck.py:118) is the parameter `now`.
