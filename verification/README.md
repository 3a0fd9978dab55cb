# auto-appearance: the appearance decision engine in Dafny

`auto-appearance` switches macOS between light and dark mode to follow the sun.
A scheduler runs it periodically. Each run of `update_appearance` does the following:

1. It computes the later of the two "yesterday-shifted" sun motions, `last_movement`.
2. It reads the persisted `last_update` instant.
3. It skips when the run is not forced and a stored update is strictly later than `last_movement`.
4. Otherwise it sorts the next sunrise and sunset by instant. It sets dark mode if sunrise comes first and light mode if sunset does.
5. Only after the OS setter succeeds does it record the current instant.

The model has these modules:

- `Wrappers`, `Time` (`wrappers.dfy`): `Option`, `Result`, and `Instant` as an unbounded integer.
- `StableSort` (`stable_sort.dfy`): `sorted(..., key=itemgetter(1))` as a stable insertion sort. It proves sortedness, the permutation, and stability. Stability means that for every key, the entries carrying that key keep their input order.
- `StateStore` (`state_store.dfy`): the state file as `Store`, the read `ReadLastUpdate` with its three outcomes, and the write `Record`. The ISO 8601 conversions `isoformat`/`fromisoformat` are an oracle, `IsoCodec`. `RoundTrips` states the one property the model assumes of them.
- `App` (`app.dfy`): `Motion`, `Appearance`, `SunTimes`, the skip threshold, the next-motion choice, and `Invoke`, which models one whole run. Its outside answers come in an `Environment`:
  - the ephemeris result for the shifted and the unshifted reference time, with `None` when the ephemeris raises;
  - whether the OS setter succeeds;
  - the clock.
- `Schedule` (`schedule.dfy`): back-to-back runs, each starting from the store the previous run left.

Three behaviours of the code are worth spelling out:

- **An unreadable state file is an error, not "no previous update".** `json.load` and `.get` run with no handler (app.py:100). So `ReadLastUpdate` returns `Err(CorruptFile)`, and a non-string value under `last_update` is `Err(BadTimestamp)`.
- **On a tie, sunrise comes first.** Sunrise is inserted first (app.py:93) and `sorted` is stable, so an equal sunrise and sunset give dark mode (`NextMotion`, `TieGoesToSunrise`).
- **Force does not skip the read.** A forced run still reads the state file first: app.py:50 comes before the force test at app.py:58. A malformed file therefore makes even a forced run fail (`ForceStillReadsStore`).

**The skip threshold can lie in the future.** `last_movement` is the first sunrise and the first sunset after the instant one day before now. Suppose today's sunset falls later in the clock day than yesterday's. Then in the minutes just before it, the first sunset after that shifted instant is still ahead, so `last_movement` is later than now.

In that window no stored update is recent enough to skip. An unforced run acts, and an immediate rerun acts again (`RerunBeforeThresholdActsAgain`). `LaterSunsetDefeatsSkip` gives a concrete day on which this happens. Such a run overrides a manual change made since the last run, although the comment at app.py:55-57 intends runs not to do that.

Idempotence (`RerunSkips`) is therefore proved only when the clock is past the threshold.

## Model

| member | source | states |
|---|---|---|
| StableSort.Insert | src/auto_appearance/app.py:64 | inserting into a key-sorted sequence keeps it sorted and adds exactly the new entry (multiset) |
| StableSort.Sort | src/auto_appearance/app.py:64 | the result is sorted by instant and is a permutation of the input |
| StableSort.InsertKeepsKeyOrder | src/auto_appearance/app.py:64 | an inserted entry lands in front of every entry that shares its key |
| StableSort.SortIsStable | src/auto_appearance/app.py:64 | for every key, the entries with that key leave the sort in the order they entered it |
| App.LastMovement | src/auto_appearance/app.py:49 | the threshold is the maximum of the shifted sunrise and sunset: at least both, and equal to one of them |
| App.Entries | src/auto_appearance/app.py:93 | the ephemeris result holds exactly one entry per motion, each paired with its own instant, sunrise first |
| App.ShouldSkip | src/auto_appearance/app.py:58 | the skip test holds iff the run is unforced and a stored update exists that is strictly later than both shifted sun motions |
| App.Target | src/auto_appearance/app.py:70-71 | the appearance is dark iff the next sunrise is at or before the next sunset, and light iff the next sunset is strictly earlier |
| App.NextMotion | src/auto_appearance/app.py:64-71 | the first motion after sorting is sunrise exactly when sunrise is at or before sunset, and its instant is the earliest of the two |
| App.TieGoesToSunrise | src/auto_appearance/app.py:93 | on equal instants the stable sort keeps sunrise, inserted first, at the front |
| App.Invoke | src/auto_appearance/app.py:33-74 | a run calls the setter at most once; only a successful act changes the store, and then to the current instant; the flag passed is true iff the appearance is dark; a skip makes no call and leaves the store; a failed setter leaves the store |
| App.SkipsAfterLastMovement | src/auto_appearance/app.py:49-60 | unforced, with a stored update strictly after the last movement, the run skips with no setter call and the same store |
| App.SkipExactly | src/auto_appearance/app.py:58 | a run with readable inputs skips if and only if it is unforced and a stored update is strictly later than both shifted sun motions |
| App.ActsUnlessStrictlyLater | src/auto_appearance/app.py:58-74 | with no stored update, or one equal to or before the last movement, an unforced run does not skip and calls the setter once whenever the unshifted ephemeris answers |
| App.ForceNeverSkips | src/auto_appearance/app.py:58 | a forced run never skips, whatever the stored update, and calls the setter once whenever the unshifted ephemeris answers |
| App.ForceStillReadsStore | src/auto_appearance/app.py:50-58 | a malformed stored value makes even a forced run fail with the read error, with no setter call and the store unchanged |
| App.ShiftedEphemerisAborts | src/auto_appearance/app.py:49 | when the shifted ephemeris raises, the run fails with a computation error, makes no setter call and keeps the store |
| App.CurrentEphemerisAborts | src/auto_appearance/app.py:64 | when a run does not skip and the unshifted ephemeris raises, it fails with a computation error before any setter call and keeps the store |
| App.RerunBeforeThresholdActsAgain | src/auto_appearance/app.py:49-60 | when the clock is at or before the threshold, an unforced act is followed by a rerun that acts again with the same single setter call |
| App.LaterSunsetDefeatsSkip | src/auto_appearance/app.py:49-58 | on a concrete day whose sunset is a minute later than the day before, a run at 18:00 and its immediate rerun both set light mode despite a stored morning update |
| App.DarkIffSunriseFirst | src/auto_appearance/app.py:64-74 | the dark-mode flag given to the setter is true iff the next sunrise is at or before the next sunset |
| App.FailedSetterKeepsState | src/auto_appearance/app.py:114-117 | when the setter fails, the run does not act and the stored last update reads back as before |
| App.RerunSkips | src/auto_appearance/app.py:49-60 | after a successful act whose clock is past the last movement, an unforced rerun with the same shifted sun times skips, makes no call and keeps the store |
| App.ActingAdvancesLastUpdate | src/auto_appearance/app.py:114-117 | an unforced act on a clock past the last movement stores an instant strictly later than the previous one |
| StateStore.ReadLastUpdate | src/auto_appearance/app.py:96-103 | a missing file, a missing key or a null value read as None; a parsable string reads as its instant; an unreadable file or an unparsable or non-string value is an error, never None |
| StateStore.Record | src/auto_appearance/app.py:116-117 | the written file never reads back as "no previous update", and reads back as whatever the parser makes of the formatted instant |
| StateStore.WriteThenRead | src/auto_appearance/app.py:117 | reading back the file the write leaves gives the instant written, when the ISO conversions round-trip |
| Schedule.RunSchedule | src/auto_appearance/app.py:106-117 | over a sequence of runs, the store is untouched until some run acts, and afterwards holds the clock reading of the most recent act; setter calls equal the runs that reached the setter |

## Left out

- The ephemeris computation `compute_sun_times` (app.py:77-93): it uses the `ephem` library, floating-point latitude and longitude, and day arithmetic on `home.date`. It is an oracle that returns one sunrise and one sunset, or raises.
- The `osascript` subprocess and the AppleScript text (app.py:108-114): this is a foreign OS call. It is modelled as a setter that succeeds or fails and receives one dark-mode flag.
- JSON file I/O, `platformdirs` path resolution and `mkdir` (app.py:20, 98-100, 116-117): these are abstracted to the `Store` value that a read sees. A failure of the write itself after the setter has succeeded is not modelled.
- ISO 8601 formatting and parsing (app.py:103, 117): these are library behaviour and are modelled by the `IsoCodec` oracle.
- Time zones and naive versus aware datetimes: instants are plain integers.
- Logging and the date-format strings (app.py:43-53, 66-73): these have no effect on behaviour.
- The command-line interface and logging setup in `__main__.py`, and the re-exports in `__init__.py`.
- Concurrent runs racing on the state file: runs are modelled one after another.
