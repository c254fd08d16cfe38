# process_monitor: a Dafny model of its sequential core

`process_monitor` loads a list of monitors from a JSON file. The
`monitor_interval` binary then runs two threads sharing that list for five
minutes. An updater tick overwrites every monitor's `result` with a random
value and a timestamp. A snapshot thread writes the list to a file named
after the local time, at most once per change of minute. The `cmd_line`
binary only validates its arguments and loads the file. The one-shot
`j_conv` program gives every monitor of a file a fresh result once.

This project models the four pieces of sequential logic under the threads,
locks, sleeps and I/O. Clock readings, random numbers and the outcomes of
file operations are explicit inputs.

- `CommandLine` (`command_line.dfy`): `process_command_line_args`. It is
  identical in `monitor_interval` and `cmd_line`, so it is defined once here.
  The module also models the `args.len() < 2` guard of `main` and the
  decision whether the load is reached.
- `MonitorInterval` (`monitor_interval.dfy`): the `Monitor` and `Result`
  records and one updater tick. The tick is a method that changes an array
  in place, proved equal to the specification function `Ticked`.
- `SnapshotName` (`snapshot_name.dfy`): the chrono rendering `%-I_%M%P`,
  `format_time_with_suffix`, and a parser for snapshot names. The parser is
  the inverse used to prove that distinct times of day get distinct names.
- `SnapshotWriter` (`snapshot_writer.dfy`): the loop of `store_monitors`, a
  state machine over `last_minute`. `Step` is one pass and `Run` is a whole
  run. The `StoreMonitors` loop method is proved equal to `Run`.
- `ResultRefresh` (`result_refresh.dfy`): the refresh loop of `j_conv`.
- `RustInt` (`rust_int.dfy`) and `Wrappers` (`wrappers.dfy`): Rust's integer
  widths, its truncating `%`, its wrapping `as i64`, and `Option`.

In these places the code does something easy to misread, and the model
follows the code:
- The updater's value is `rand::random::<i32>() % 100` with Rust's
  truncating `%`. It ranges over -99..99, not [0, 100). `TickValues` and
  `TickCanWriteNegative` state this.
- `last_minute` starts at the ordinary minute 0, not at an "unset" marker.
  A first pass in minute 0 writes nothing (`FirstPassInMinuteZero`).
- The file name is `<hour>_<minute><am|pm>__monitors.json`, with a double
  underscore, because `"_"` is placed before the suffix `"_monitors"`.
- The gate minute comes from one `Local::now()` (line 73). The file name
  comes from a second one inside `format_time_with_suffix` (line 100). Each
  pass observes both readings separately.
- A failed `File::create` skips the sleep as well as the update of
  `last_minute`, so the thread retries at once.

## Model

| member | source | states |
|---|---|---|
| `RustInt.TruncRem100` | monitor_interval/src/main.rs:59 | Rust's `a % 100`: the result is strictly between -100 and 100, has the sign of `a` (or is zero), and `a` minus it is a multiple of 100 |
| `RustInt.TruncRem100Negative` | monitor_interval/src/main.rs:59 | the remainder is negative exactly when `a` is negative and not a multiple of 100 |
| `RustInt.AsI64` | monitor_interval/src/main.rs:57 | `as i64` on a `u64` keeps the value modulo 2^64: it is unchanged below 2^63 and negative from 2^63 on |
| `CommandLine.ProcessCommandLineArgs` | monitor_interval/src/main.rs:40-50 | returns `Some` exactly when there are three arguments and the second is `-monitorFile`; the path returned is then the third argument |
| `CommandLine.WrongArgumentCountRejected` | cmd_line/src/main.rs:37-39 | any argument count other than three gives `None` |
| `CommandLine.UnknownFlagRejected` | cmd_line/src/main.rs:40-42 | three arguments whose flag is not `-monitorFile` give `None` |
| `CommandLine.ProgramNameIgnored` | cmd_line/src/main.rs:43-45 | replacing the program name `args[0]` does not change the result, and an accepted path is `args[2]` unchanged |
| `CommandLine.MainMonitorPath` | cmd_line/src/main.rs:52-61 | the path `main` opens equals the function's result, so the `args.len() < 2` guard is subsumed; the load happens only for `<program> -monitorFile <path>` |
| `MonitorInterval.DrawnValue` | monitor_interval/src/main.rs:59 | the value written for draw `r` is strictly between -100 and 100, congruent to `r` modulo 100, and negative exactly when `r` is negative and not a multiple of 100 |
| `MonitorInterval.Stamp` | monitor_interval/src/main.rs:57 | a clock reading below 2^63 seconds becomes the timestamp unchanged |
| `MonitorInterval.Updated` | monitor_interval/src/main.rs:57-61 | one monitor after the loop body: its result holds both the value `r % 100` and the timestamp of its clock reading, and no other field changes |
| `MonitorInterval.Ticked` | monitor_interval/src/main.rs:56-61 | the collection after a tick has the same length, every monitor populated, and only results changed |
| `MonitorInterval.UpdateTick` | monitor_interval/src/main.rs:55-63 | the in-place pass over the vector leaves it equal to `Ticked` of its old contents: each monitor in turn is given the result built from its own draw and clock reading |
| `MonitorInterval.TickTouchesOnlyResults` | monitor_interval/src/main.rs:56-61 | a tick keeps the length and order, and `monitor_id`, `name`, `script`, `type` and `code` of every monitor |
| `MonitorInterval.TickPopulatesResults` | monitor_interval/src/main.rs:58-61 | after a tick every monitor has a result with both `value` and `processed_at` present |
| `MonitorInterval.TickValues` | monitor_interval/src/main.rs:59 | each written value lies in -99..99, is congruent to its draw modulo 100, and is negative exactly when the draw is negative and not a multiple of 100 |
| `MonitorInterval.TickCanWriteNegative` | monitor_interval/src/main.rs:59 | the draw -1 writes the value -1, outside [0, 100) |
| `MonitorInterval.TickStampsAreReadings` | monitor_interval/src/main.rs:57-60 | each `processed_at` is that monitor's clock reading, for any readings below 2^63 seconds |
| `MonitorInterval.TickStampsFollowClock` | monitor_interval/src/main.rs:56-61 | a non-decreasing clock gives non-decreasing timestamps along the vector |
| `MonitorInterval.StampsMonotoneAcrossTicks` | monitor_interval/src/main.rs:54-61 | over two ticks fed by one non-decreasing clock, no monitor's timestamp decreases |
| `SnapshotName.Hour12` | monitor_interval/src/main.rs:77 | `%-I` gives an hour from 1 to 12 that agrees with the 24-hour hour modulo 12 |
| `SnapshotName.Unpadded` | monitor_interval/src/main.rs:77 | the hour is written in one or two digits with no leading zero, and those digits spell the hour |
| `SnapshotName.Padded` | monitor_interval/src/main.rs:77 | `%M` is two digits whose decimal value is the minute |
| `SnapshotName.Meridiem` | monitor_interval/src/main.rs:77 | `%P` is `am` or `pm`, and `pm` exactly from hour 12 on |
| `SnapshotName.FormatTime` | monitor_interval/src/main.rs:100 | the rendering of `%-I_%M%P` is 6 or 7 characters long and has no `:` |
| `SnapshotName.ReplaceColons` | monitor_interval/src/main.rs:101 | `replace(":", "_")` keeps the length, turns every `:` into `_`, keeps every other character, and leaves no `:` |
| `SnapshotName.FormatTimeWithSuffix` | monitor_interval/src/main.rs:99-103 | the name is the rendering with colons replaced, then `"_"`, the suffix and `".json"`; it has no `:` when the suffix has none |
| `SnapshotName.FormatArgumentIgnored` | monitor_interval/src/main.rs:99 | the result does not depend on the `_format` argument |
| `SnapshotName.SnapshotFilename` | monitor_interval/src/main.rs:77-78 | the name passed to `File::create` has no `:` and ends with `__monitors.json` |
| `SnapshotName.SnapshotFilenameShape` | monitor_interval/src/main.rs:99-102 | the name is exactly the rendered time followed by `__monitors.json` |
| `SnapshotName.ParseTimeRoundTrip` | monitor_interval/src/main.rs:100 | reading a rendered time back gives the hour and minute it was rendered from |
| `SnapshotName.ParseTimeSound` | monitor_interval/src/main.rs:100 | every text the time reader accepts is exactly the rendering of the time it returns |
| `SnapshotName.ParseSnapshotFilenameRoundTrip` | monitor_interval/src/main.rs:99-102 | parsing a snapshot name gives back the hour and minute it was made from |
| `SnapshotName.ParseSnapshotFilenameSound` | monitor_interval/src/main.rs:99-102 | every name the parser accepts is exactly the snapshot name of the time it returns |
| `SnapshotName.SnapshotFilenameInjective` | monitor_interval/src/main.rs:78-80 | distinct times of day (hour and minute) give distinct snapshot names |
| `SnapshotWriter.Step` | monitor_interval/src/main.rs:74-95 | a pass attempts a file exactly when its minute differs from `last_minute`; it creates one exactly when creation also succeeds; `last_minute` changes only then, to the gate minute, whatever serialization does; the pass sleeps unless creation failed; the name is the snapshot name of the second clock reading |
| `SnapshotWriter.Run` | monitor_interval/src/main.rs:70-96 | a run yields one event per pass |
| `SnapshotWriter.StoreMonitors` | monitor_interval/src/main.rs:69-97 | the loop, including its `continue` on create failure, returns the final `last_minute` and the events of `Run` |
| `SnapshotWriter.RunEventAt` | monitor_interval/src/main.rs:71-96 | pass `k` of a run is `Step` from the `last_minute` the earlier passes left |
| `SnapshotWriter.FirstPassInMinuteZero` | monitor_interval/src/main.rs:70-76 | because `last_minute` starts at 0, a first pass in minute 0 writes nothing |
| `SnapshotWriter.StoredSetsLastMinute` | monitor_interval/src/main.rs:80-93 | pass `k` creates a file exactly when its minute is new and creation succeeds; `last_minute` then becomes that minute, and is otherwise unchanged |
| `SnapshotWriter.SameMinuteStaysQuiet` | monitor_interval/src/main.rs:76-93 | once `last_minute` is `m`, further passes in minute `m` write nothing and keep `last_minute` at `m` |
| `SnapshotWriter.AtMostOneFilePerMinute` | monitor_interval/src/main.rs:70-95 | among consecutive passes that observe the same minute, at most one creates a file |
| `SnapshotWriter.SameNameTwiceInOneRun` | monitor_interval/src/main.rs:73-80 | the model leaves the gate reading and the name reading of a pass unrelated, so it admits two passes that create the same file name; in the program this needs the local clock to be set back during the run, since the name is read just after the gate and every created file is followed by the 60-second sleep |
| `SnapshotWriter.FinalLastMinute` | monitor_interval/src/main.rs:70-93 | the final `last_minute` is the gate minute of the last pass that created a file, or 0 when none did |
| `ResultRefresh.Refreshed` | j_conv/src/main.rs:46-58 | the collection after the loop has the same length; each monitor keeps `name`, `script` and `code` and has a result holding its own draw and clock reading |
| `ResultRefresh.RefreshResults` | j_conv/src/main.rs:45-59 | the loop, with its insert branch and its update-in-place branch, leaves every monitor with result `{value: draw, processed_at: now}`: both branches give the same monitor |
| `ResultRefresh.RefreshedShape` | j_conv/src/main.rs:46-59 | the loop keeps length, order, `name`, `script` and `code`; every monitor has a result whose value is its draw and lies in [0, 100) |
| `ResultRefresh.RefreshedStampsFollowClock` | j_conv/src/main.rs:50-56 | with a non-decreasing clock the timestamps are non-decreasing along the vector |

## Left out

- Threads, `Arc<Mutex<..>>`, the `AtomicBool` cancellation and `join` in `process_monitors` (monitor_interval/src/main.rs:106-128): these are concurrency. The updater tick and the snapshot pass are modelled as single sequential steps. The lock makes each tick atomic for the reader. A run of the snapshot thread is a finite list of passes, ending when `running` is cleared.
- The `while running` loop of `update_monitors` (monitor_interval/src/main.rs:54): only its body is modelled. Repeated ticks are covered by `StampsMonotoneAcrossTicks`.
- `thread::sleep` and the five-minute run duration: these are timing. Whether a snapshot pass sleeps is recorded as a property of its event.
- `File::open`, `File::create`, `fs::read_to_string`, `fs::write` and all `println!`/`eprintln!` output are I/O. Whether creation and serialization succeed are inputs of each pass.
- `serde_json` parsing and pretty-printing, and the `serde` attributes: this is foreign library behaviour. Snapshot contents and the JSON round trip are not modelled.
- `SystemTime::now`, `Local::now`, `Utc::now`, `rand::random` and `thread_rng` are parameters, one value per call actually made, in loop order. In `update_monitors` there is one clock reading and one draw per monitor. In `j_conv` there is one draw and one reading per monitor, whichever branch runs. In `store_monitors` both clock readings of a pass are fields of its `Observation`. The `unwrap` panic for a clock set before 1970 is left out, since clock readings are `u64` seconds after the epoch.
- `ResultRefresh.RefreshResults`: `gen_range(0..100)` is modelled by its result type, the integers in [0, 100). The library's sampling algorithm is not modelled.
- Overwriting of snapshot files: distinct times of day get distinct names, but nothing stops a name being reused. A later run started in the same minute reuses it, since its first pass writes whenever the minute is not 0 (monitor_interval/src/main.rs:70,76). So does the hour repeated at a daylight-saving change. Within one run, a repeated name needs the local clock to be set back during the run; the model leaves the two readings of a pass unrelated and so admits such runs (`SameNameTwiceInOneRun`). `File::create` truncates the existing file in each case. The model has no single-run, no-DST, no-clock-going-back assumption that would rule these out.
- `SnapshotName.FormatTimeWithSuffix`: the `items: StrftimeItems` parameter is not modelled. The rendering is fixed to `%-I_%M%P`, the items of its only call site (monitor_interval/src/main.rs:77-78). That rendering has no `:`, so in the model `replace(":", "_")` never changes anything. Other formats are not covered.
- The rest of each `main` (loading, the call to `process_monitors`, writing `updated_monitors.json`) is I/O glue. Only the argument guard and the decision to load are modelled.
