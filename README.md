# buttond in Dafny

A model of the button daemon buttond. It watches Linux input devices and
classifies each press of a configured key as short or long, or by its
duration tier. It debounces the key's contacts and runs the command bound
to the press. It also reopens input devices that disappear and come back.
The model covers two generations of the daemon:

- the multi-action daemon (`keys.c`, `input.c`, `utils.h`, `time_utils.h`,
  with the shapes of `buttond.h`):
  - the per-key state machine RELEASED → PRESSED → DEBOUNCE/HANDLED → RELEASED;
  - the wakeup scheduler (`compute_timeout`, `handle_timeouts`) and the choice of action (`find_key_action`);
  - the key-name table;
  - the recovery of input sources through inotify, and the walk over a buffer of inotify records;
  - `read_safe` and the range checks of `strtou16`/`strtoint`;
- the earlier single-file daemon (`buttond.c`), in its own module: one action per binding, fixed thresholds of 5000 ms, 1000 ms and 10 ms, its own time helpers, a `read_safe` that resumes a partial read, and the step of `main` that hands an event to its binding.

Modules, one per file:

| module | file | models |
|---|---|---|
| `Opt` | opt.dfy | the Option type used for C pointers that may be NULL |
| `TimeUtils` | time_utils.dfy | `time_utils.h`, and C's truncating `/` and `%` (`CDiv`, `CMod`) |
| `Utils` | utils.dfy | `utils.h`: `read_safe`, `strtou16`, `strtoint` |
| `Keys` | keys.dfy | `keys.c`: the key state machine and the scheduler |
| `KeyNames` | key_names.dfy | `keys.c`: `init_keynames`, `find_key_by_name`, `keyname_by_code` |
| `InotifyRecords` | inotify_records.dfy | the byte layout of inotify records and the walk of `handle_inotify` |
| `Input` | input.dfy | `input.c`: `inotify_watch`, `reopen_input`, `handle_inotify_event`, `handle_inotify` |
| `Legacy` | legacy.dfy | `buttond.c` |

How the source is represented:

- The C arrays of structs (the key table, the input files, the pollfds, the legacy action table) are `array`s of datatypes. The operations that update them in place are methods with `modifies`. Each method is proved equal to a pure function of the old state, and the lemmas state the properties of that function: `Keys.Step` and `Keys.Arm` for `handle_key`/`arm_key_press`, `Keys.Timeouts` for `handle_timeouts`, `Input.ReopenSpec` for `reopen_input`, and so on.
- The clock is a parameter `now`.
- `system()` and `exit()` become effects in a returned list (`Keys.Effect`, or the commands list in `Legacy`).
- The kernel's answers are parameters: `inotify_init1`, `inotify_add_watch`, `open`, the `EVIOCSCLOCKID` ioctl and `read` results (`Input.Os`, `Utils.ReadOutcome`, `Input.Chunk`).
- The system calls made are returned as a log (`Input.Syscall`).
- A failing `xassert` is the status `Input.Fatal`, which stops the operation where the process would abort.

Two behaviours of the code worth knowing:

- A debounce wakeup that finds no action is not reported. Only a wakeup of a key still held warns (keys.c:197-206).
- Records that do not tile the bytes read from the inotify descriptor abort the daemon (input.c:138-140).

Where buttond.h and keys.c disagree, the model follows keys.c:

- `struct action` in `buttond.h` has no `exit_after` field, but `keys.c:188` reads one. `Keys.Action` has it.
- `handle_key` in keys.c takes the debounce time from a `struct state` that the header does not declare. It is the parameter `debounceMsecs`.

## Model

| member | source | states |
|---|---|---|
| TimeUtils.CDiv | time_utils.h:19 | C division truncates toward zero: the quotient times the divisor lies within one divisor of the dividend, on the dividend's side of zero |
| TimeUtils.CMod | time_utils.h:33 | C's remainder completes the truncating quotient to the dividend and has the dividend's sign |
| TimeUtils.AddTs | time_utils.h:28-35 | time_add_ts adds exactly msec·10⁶ ns to the instant |
| TimeUtils.AddTsNormal | time_utils.h:28-35 | time_add_ts keeps nsec in [0, 10⁹) for a normalised input and msec ≥ 0 |
| TimeUtils.AddTsIs | time_utils.h:28-35 | time_add_ts gives the one normalised timespec that lies msec·10⁶ ns after a normalised input |
| TimeUtils.Tv2Ts | time_utils.h:37-42 | time_tv2ts gives total ns = base µs·1000 + msec·10⁶ |
| TimeUtils.Tv2TsNormal | time_utils.h:37-42 | time_tv2ts gives a normalised timespec when base usec and msec are non-negative |
| TimeUtils.Tv2TsIs | time_utils.h:37-42 | time_tv2ts gives the one normalised timespec at base + msec |
| TimeUtils.Ts2Tv | time_utils.h:43-48 | time_ts2tv gives total µs = base.sec·10⁶ + ⌊base.nsec/1000⌋ + msec·1000, so sub-microsecond precision is dropped |
| TimeUtils.Ts2TvNormal | time_utils.h:43-48 | time_ts2tv gives a normalised timeval for non-negative nsec and msec |
| TimeUtils.Ts2TvIs | time_utils.h:43-48 | time_ts2tv gives the one normalised timeval at that many microseconds |
| TimeUtils.DiffTs | time_utils.h:18-21 | time_diff_ts: the nsec difference plus 999 999, divided by 10⁶ with truncation, plus the seconds difference in ms; its bounds are the DiffTs lemmas below |
| TimeUtils.DiffTv | time_utils.h:23-26 | time_diff_tv: the same with µs and a bias of 999; its bounds are the DiffTv lemmas below |
| TimeUtils.CDivMonotone | time_utils.h:19 | C division by a positive divisor is monotone in the dividend |
| TimeUtils.DiffTsSelf | time_utils.h:18-21 | the difference of a timespec with itself is 0 |
| TimeUtils.DiffTsRoundsUp | time_utils.h:16-21 | time_diff_ts never reports less than the exact difference |
| TimeUtils.DiffTsExactCeiling | time_utils.h:16-21 | when ts1.nsec is not a millisecond or more below ts2.nsec, time_diff_ts is exactly the ceiling of the difference in ms |
| TimeUtils.DiffTsAtMostOneOver | time_utils.h:18-21 | in every case time_diff_ts is less than the exact difference plus 2 ms, so at most one millisecond over the ceiling |
| TimeUtils.DiffTsOverRoundsAcrossSecond | time_utils.h:18-21 | the extra millisecond happens: 500 ms across a second boundary is reported as 501 |
| TimeUtils.DiffTvRoundsUp | time_utils.h:23-26 | time_diff_tv never reports less than the exact difference |
| TimeUtils.DiffTvExactCeiling | time_utils.h:23-26 | time_diff_tv is the exact ceiling when the usec fields do not differ by a millisecond or more the wrong way |
| TimeUtils.DiffTvOverRoundsAcrossSecond | time_utils.h:23-26 | a press of 999 ms that ends in the next second measures 1000 ms |
| TimeUtils.NormalTvUnique | time_utils.h:43-48 | two normalised timevals that denote the same instant are equal |
| TimeUtils.NormalTsUnique | time_utils.h:37-42 | two normalised timespecs that denote the same instant are equal |
| TimeUtils.TvTsRoundTrip | time_utils.h:37-48 | time_ts2tv(time_tv2ts(tv, 0), 0) == tv for every normalised timeval |
| TimeUtils.TsTvRoundTrip | time_utils.h:37-48 | converting a timespec to a timeval and back loses exactly the nanoseconds below a microsecond, and stays normalised |
| Utils.ReadSafe | utils.h:31-47 | the read loop returns what ReadSafeSpec gives for the sequence of read() outcomes |
| Utils.ReadSafeResult | utils.h:31-47 | read_safe returns a count between what was already read and count, or the negated errno of a failed read that was neither EINTR nor EAGAIN |
| Utils.ReadSafeSteps | utils.h:37-43 | EINTR is retried with the total unchanged; EAGAIN returns the bytes read so far; another error returns -errno; an empty read returns the total |
| Utils.StrToU16 | utils.h:49-64 | errno is 0 iff the string was consumed and 0 ≤ value ≤ 0xffff, and then the value is returned; otherwise 0 is returned with EINVAL for trailing characters, or ERANGE for out-of-range values |
| Utils.StrToInt | utils.h:66-81 | the same checks with the range [0, UINT_MAX] |
| Keys.ActionMatch | keys.c:131-140 | action_match: a LONG action matches a press of at least its trigger time, a SHORT one a press strictly shorter |
| Keys.ActionMatchMonotone | keys.c:131-140 | a longer press keeps matching a LONG action, and a shorter one keeps matching a SHORT action |
| Keys.ScanShortFindsFirst | keys.c:145-150 | the first loop returns the first matching action of the leading short run, and none iff no action of that run matches |
| Keys.ScanLongFindsLast | keys.c:151-156 | the second loop returns the last matching action of the trailing long run, and none iff no action of that run matches |
| Keys.FindActionChoice | keys.c:142-158 | find_key_action returns a matching action: the first matching short one, otherwise the last matching long one; it returns NULL only when nothing in either run matches |
| Keys.FindKeyAction | keys.c:142-158 | the two loops with early return compute FindAction |
| Keys.LongestTierWins | keys.c:131-158 | on sorted actions: NULL iff no action matches; a matching short action wins and it is the first; otherwise the long action with the greatest trigger time not after the press wins |
| Keys.ShortOnlyIgnoresLongPress | keys.c:131-140 | a lone short action does not match once the press lasted its trigger time |
| Keys.ArmWakeup | keys.c:50-69 | arm_key_press sets PRESSED and arms a wakeup iff the last action is long; the wakeup is the press time plus that action's trigger time (with reset_pressed, the press time is now, truncated to µs) |
| Keys.StepChangesIffNotIgnored | keys.c:71-103 | handle_key changes the key iff the event is not a release in RELEASED/DEBOUNCE or a press in PRESSED/HANDLED |
| Keys.PressKeepsOrSetsPressTime | keys.c:74-85 | a press from RELEASED takes the event time as press time; a press from DEBOUNCE keeps the old one; both end PRESSED |
| Keys.ReleaseTransitions | keys.c:86-102 | a release in PRESSED sets DEBOUNCE, the release time, and a wakeup debounce_msecs after now; a release in HANDLED sets RELEASED and nothing else |
| Keys.InitialKeyWellFormed | buttond.h:23-52 | a zero-initialised key with actions satisfies the state-machine invariant WellFormed |
| Keys.StepPreservesWellFormed | keys.c:71-103 | handle_key keeps the invariant: no wakeup in RELEASED/HANDLED, one in DEBOUNCE, one in PRESSED iff the last action is long and then no earlier than its trigger time after the press |
| Keys.ArmResetPreservesWellFormed | keys.c:50-69 | arm_key_press with reset_pressed keeps the invariant |
| Keys.ChatterCoalesces | keys.c:74-96 | any run of presses and releases with no wakeup fired keeps the original press time, and leaves the key in DEBOUNCE exactly when the last event was a release |
| Keys.PressThenChatter | keys.c:80-84 | a press from RELEASED followed by chatter: the logical press starts at the first press event |
| Keys.ArmKeyPress | keys.c:50-69 | arm_key_press in place equals Arm on the key; other keys are unchanged |
| Keys.HandleKey | keys.c:71-103 | handle_key in place equals Step on the key; other keys are unchanged |
| Keys.ComputeTimeout | keys.c:105-129 | -1 iff no key has a wakeup; otherwise max(0, the distance to some armed wakeup) and no more than max(0, distance) of any armed key; 0 iff some key is due |
| Keys.Chosen | keys.c:172-179 | the chosen action is one of the key's actions |
| Keys.FireKey | keys.c:165-213 | a fired key records the release time (now if still held); unless the process exits it loses its wakeup and goes DEBOUNCE→RELEASED, otherwise HANDLED; code, actions and press time are unchanged |
| Keys.FireKeyEffects | keys.c:179-206 | a command runs iff an action was found and its command is non-empty; the warning is printed iff a held key found no action; the process exits iff the action has exit_after, and exit is the last effect |
| Keys.HeldToWakeup | keys.c:166-178 | a well-formed key held until its long wakeup is due has been held at least the last action's trigger time |
| Keys.LastActionMatches | keys.c:142-158 | a hold at least as long as the last (long) action's trigger time always finds an action |
| Keys.LongWakeupAlwaysMatches | keys.c:166-201 | a due long-press wakeup of a well-formed key always finds an action, so the warning is never printed for it |
| Keys.FirePreservesWellFormed | keys.c:207-212 | firing without exit keeps the invariant |
| Keys.Timeouts | keys.c:160-215 | a pass keeps the number of keys and does not touch keys it has not reached |
| Keys.TimeoutsSkip | keys.c:165-167 | a key that is not due is passed over: the pass after it is the pass before it |
| Keys.TimeoutsFire | keys.c:165-213 | a due key reached before any exit is replaced by its firing, and its effects are appended |
| Keys.TimeoutsAfterExit | keys.c:188-196 | after an exit the pass changes nothing more |
| Keys.TimeoutsExitStops | keys.c:188-196 | once a fired action exits, no later key is looked at |
| Keys.TimeoutsOutcome | keys.c:165-213 | a pass without exit fires every due key and leaves every other key unchanged |
| Keys.TimeoutsCommands | keys.c:179-187 | every command run is the non-empty command of the action chosen for some due key |
| Keys.TimeoutsExitIsLast | keys.c:188-196 | the pass exits iff its last effect is exit(0), and no exit comes before the last effect |
| Keys.TimeoutsPreserveWellFormed | keys.c:160-215 | a pass without exit keeps every key well formed |
| Keys.FireDueKey | keys.c:172-212 | the loop body in place equals FireKey; other keys are unchanged |
| Keys.VisitKey | keys.c:165-213 | one turn of the loop in place advances the key table and effects from Timeouts up to key i to Timeouts up to key i + 1 |
| Keys.HandleTimeouts | keys.c:160-215 | the loop in place leaves the key table and effects of Timeouts over all keys |
| Keys.PressArmsLongWakeup | keys.c:50-69 | key 30 (short <1000 ms, long ≥5000 ms), pressed at 100.1 s, arms its wakeup at 105.1 s |
| Keys.ReleaseDebouncesTenMsecs | keys.c:86-96 | released 800 ms after the press, at 100.9 s, it debounces until 100.91 s, and is due then and not 1 ms before |
| Keys.TwoTierChoices | keys.c:142-158 | a press of 800 ms chooses the short action, one of 5000 ms the long one |
| Keys.ShortPressFires | keys.c:160-215 | after the debounce "echo short" runs once and the key is RELEASED with no wakeup |
| Keys.LongPressFires | keys.c:160-215 | held until its wakeup at 105.1 s, "echo long" runs once and the key is HANDLED; the release at 107.3 s only returns it to RELEASED |
| Keys.HeldFiveSeconds | keys.c:166-178 | at its wakeup the held key is due, its release time is the wakeup truncated to µs, and the press measures 5000 ms |
| Keys.WakeupAsTimeval | time_utils.h:44-48 | 105.1 s as a timespec converts to 105.1 s as a timeval |
| Keys.WakeupFiveSecondsLater | time_utils.h:37-42 | 5000 ms after the timeval 100.1 s is the timespec 105.1 s |
| Keys.TenMsecsAfter | time_utils.h:28-35 | 10 ms after 100.9 s is 100.91 s |
| KeyNames.StrLenStopsAtNul | keys.c:14 | strlen counts the characters before the first NUL |
| KeyNames.StrLenOf | keys.c:14 | strlen is the position of the first NUL |
| KeyNames.StartsName | keys.c:12-16 | each offset init_keynames visits lies in the blob, and the name there is the next name of the blob |
| KeyNames.EntriesOfJoin | keys.c:9-17 | reading back a blob of NUL-terminated names gives exactly those names |
| KeyNames.EntriesAfter | keys.c:12-16 | the walk from any offset where a joined list of names starts reads back exactly those names |
| KeyNames.FirstOfJoin | keys.c:13-15 | at the start of a joined list the C string is the first name, and the rest of the list follows its NUL |
| KeyNames.InitKeynames | keys.c:9-17 | entry i ≥ 1 points at the (i-1)-th name while table and blob last; entry 0 and the rest are unchanged |
| KeyNames.ToUpper | keys.c:24 | toupper in the C locale: lower-case ASCII letters are shifted, everything else, NUL included, is kept |
| KeyNames.UppercaseArg | keys.c:21-25 | the argument is upper-cased in place up to its NUL, and its length is unchanged |
| KeyNames.LookupFindsFirst | keys.c:26-33 | the search returns the first entry holding the name, and 0 when no entry does |
| KeyNames.FindKeyByName | keys.c:19-34 | find_key_by_name upper-cases its argument in place, then returns the lookup of the upper-cased name |
| KeyNames.LookupAfterInit | keys.c:9-34 | after init_keynames the k-th name of the blob looks up to code k+1, unless an earlier name is the same |
| KeyNames.KeynameGuardAdmitsKeyMax | keys.c:36-40 | the guard as written lets code == KEY_MAX read past the table |
| KeyNames.KeynameByCode | keys.c:36-40 | the name at the code, or "unknown" for a code outside the table or with a NULL entry |
| KeyNames.KeynameByCodeAgrees | keys.c:36-40 | the corrected lookup agrees with the one as written for every code except KEY_MAX |
| KeyNames.NameRoundTrip | keys.c:26-40 | the search loop of find_key_by_name inverts keyname_by_code when no earlier entry has the same name |
| KeyNames.FindKeyByNameRoundTrip | keys.c:19-40 | find_key_by_name inverts keyname_by_code: a buffer holding the upper-case name of a code, upper-cased in place as FindKeyByName promises, looks up to that code when no earlier entry has the same name |
| InotifyRecords.U32RoundTrip | input.c:131 | a 32-bit little-endian word written and read back is unchanged |
| InotifyRecords.U32BytesOf | input.c:131 | four bytes read as a word and written back are unchanged |
| InotifyRecords.DecodeEncode | input.c:129-131 | decoding an encoded record gives the record, and its len field is the length of its name |
| InotifyRecords.EncodeDecode | input.c:129-131 | bytes whose len field matches their length encode back to themselves |
| InotifyRecords.WalkAsWritten | input.c:128-141 | the walk as written never moves backwards |
| InotifyRecords.CompleteIffTiles | input.c:129-140 | the checked walk reads the buffer to its end iff the records tile it exactly |
| InotifyRecords.WalksAgree | input.c:128-141 | both walks pass the final check on the same buffers, and then hand on the same records |
| InotifyRecords.SerializeRoundTrip | input.c:129-137 | walking a buffer of serialized records gives the records back, and passes the final check |
| InotifyRecords.EncodeRecordAt | input.c:129-131 | a record read from the buffer encodes back to the bytes it was read from |
| InotifyRecords.CheckedReadsBuffer | input.c:129-137 | the records handed on, written back in order, are the bytes of the buffer, all of them when the walk completes |
| InotifyRecords.AsWrittenHandsOnOverrun | input.c:130-133 | a 16-byte read whose header claims a 16-byte name: the walk as written hands the record on, although its name lies past the bytes read |
| InotifyRecords.CheckedRefusesOverrun | input.c:130-133 | the checked walk hands nothing on from that buffer, and fails |
| Input.InotifyWatch | input.c:12-55 | inotify_watch in place equals WatchSpec on the input and the channel; no other input or pollfd changes |
| Input.WatchNoOpWhenWatched | input.c:14-16 | an input already watched is left as it is, with no call made |
| Input.WatchCreatesChannelOnce | input.c:18-24 | the channel is created only while inactive, and it is active after a successful watch, so it is created at most once |
| Input.WatchRestoresPath | input.c:36-54 | a successful watch leaves path and dirent as they were, and the watch descriptor set to what inotify_add_watch returned |
| Input.WatchDirIsParent | input.c:36-44 | cutting the path at the '/' before the dirent leaves the parent directory |
| Input.WatchOfWellFormed | input.c:29-49 | for a well-formed input the path check never fires, and the watched directory is "." or the path up to its last '/' |
| Input.FallBackToWatch | input.c:66-84 | the fallback in place equals Fallback: abort without a dirent, otherwise watch the directory |
| Input.ReopenInput | input.c:57-89 | reopen_input in place equals ReopenSpec; other inputs and pollfds are unchanged |
| Input.ReopenOutcome | input.c:57-89 | a reopen that does not abort leaves the input open on the new fd (open succeeded and clock accepted or test mode), or inactive with its directory watched and its path intact |
| Input.ReopenFailures | input.c:66-85 | an open error other than ENOENT aborts; any failure of an input without a dirent aborts; a good open with the clock accepted (or test mode) succeeds |
| Input.ReopenClosesFirst | input.c:60-65 | an active pollfd is closed before anything else, then the input's path is opened |
| Input.ReopenAtFrame | input.c:114-115 | reopening one input changes no other input and only appends calls |
| Input.DispatchFrame | input.c:99-116 | the dispatch loop leaves alone every input the event does not concern, and only appends calls |
| Input.DispatchOpensConcerned | input.c:99-116 | a dispatch that does not abort opens every input the event concerns |
| Input.CreateEventsOnly | input.c:91-118 | events without IN_CREATE change nothing; a creation changes only the concerned inputs and opens each of them unless a reopen aborts |
| Input.HandleInotifyEvent | input.c:91-118 | handle_inotify_event in place equals EventSpec on the inputs and pollfds |
| Input.EventsStep | input.c:129-137 | the walk hands the record at the current offset on first, then the rest |
| Input.EventsKeepFatal | input.c:128-141 | an abort is never undone by later records |
| Input.ChunksOkTiled | input.c:128-142 | when handle_inotify does not abort, every read before the first empty one succeeded and its bytes were tiled exactly by records |
| Input.HandleRecord | input.c:129-136 | one turn of the walk hands the checked record at off on to handle_inotify_event |
| Input.HandleChunk | input.c:129-140 | the walk over one read equals ChunkSpec: the records in turn, then fatal unless they tile the bytes |
| Input.HandleInotify | input.c:119-143 | the read loop equals Chunks: each read walked, a failed read fatal, an empty read ends it |
| Legacy.ReadSafe | buttond.c:23-39 | the loop resumes at partial_read mod count and returns what ReadSpec gives |
| Legacy.ReadResult | buttond.c:23-39 | the result never exceeds count: a count from the resumed total up, 0 when a read would block, or -errno of a read that failed otherwise |
| Legacy.ReadSteps | buttond.c:28-36 | EINTR is retried with the total unchanged; EAGAIN returns 0, dropping the bytes read so far; another error returns -errno; an empty read returns the total |
| Legacy.ReadAgreesWithoutEagain | buttond.c:23-39 | without EAGAIN it returns what the read_safe of utils.h returns |
| Legacy.Tv2Ts | buttond.c:58-63 | total ns = base µs·1000 + msec·10⁶, normalised for non-negative inputs |
| Legacy.Ts2Tv | buttond.c:64-69 | total µs = base.sec·10⁶ + ⌊base.nsec/1000⌋ + msec·1000, normalised for non-negative inputs |
| Legacy.DiffTs | buttond.c:48-51 | time_diff_ts as written: the nsec difference divided by 10⁶ with truncation, plus the seconds difference in ms; DiffsWithinOneMsec bounds it |
| Legacy.DiffTv | buttond.c:53-56 | time_diff_tv as written: the usec difference divided by 1000 with truncation, plus the seconds difference in ms; DiffsWithinOneMsec bounds it |
| Legacy.DiffsWithinOneMsec | buttond.c:47-56 | the truncating differences are within one millisecond of the exact difference, on either side |
| Legacy.ConversionsAgree | buttond.c:58-69 | for non-negative offsets the conversions equal those of time_utils.h |
| Legacy.HasWakeup | buttond.c:198-201 | has_wakeup: a binding waits for a wakeup iff it is debouncing, or it is a held LONG binding |
| Legacy.StepTransitions | buttond.c:157-196 | the ignored events change nothing; a press sets the press time only from RELEASED and arms a long binding 5000 ms after it; a release debounces with a wakeup 10 ms after the press; a release of a handled binding releases it |
| Legacy.StepPreservesWellFormed | buttond.c:157-196 | each wakeup stays where handle_key put it |
| Legacy.DebounceCountsFromPress | buttond.c:184-188 | the debounce wakeup counts from the press: after a press of 10 ms or more it is already past when the release arrives |
| Legacy.HandleKey | buttond.c:157-196 | handle_key in place equals Step; other bindings are unchanged |
| Legacy.ComputeTimeout | buttond.c:203-223 | over indices 0..action_count inclusive: -1 iff no binding has a wakeup, otherwise max(0, the distance to some wakeup), no more than that of any binding |
| Legacy.DueAsWritten | buttond.c:235-236 | the due test as written: a binding with a wakeup whose truncated distance to now is not positive |
| Legacy.Due | buttond.c:235-236 | the corrected due test: the distance rounded up as in time_utils.h is not positive, so the wakeup time has been reached |
| Legacy.DueIsDueAsWritten | buttond.c:235-236 | whatever the corrected test finds due is due as written too (the converse fails, LongPressLostAsWritten) |
| Legacy.Fire | buttond.c:238-257 | a fired binding records the release time, goes DEBOUNCE→RELEASED or PRESSED→HANDLED, has no wakeup left, and runs its command iff the measured press matched (LONG ≥ 5000 ms or SHORT < 1000 ms), nothing otherwise |
| Legacy.Timeouts | buttond.c:225-260 | a pass, with the due test as written or rounded up, keeps the number of bindings and does not touch those it has not reached |
| Legacy.TimeoutsOutcome | buttond.c:225-260 | with either due test: every due binding is fired, every other is unchanged, and a command is run iff it belongs to a due binding whose press matched (LONG ≥ 5000 ms or SHORT < 1000 ms) |
| Legacy.LongWakeupRuns | buttond.c:234-248 | with the rounded-up due test, a long press held until its wakeup always runs its command |
| Legacy.LongPressLostAsWritten | buttond.c:234-248 | with the due test as written, a long press held to its wakeup can be handled with no command run |
| Legacy.LongPressLostInPass | buttond.c:225-260 | the pass as written fires that binding, HANDLED with no command; the rounded-up pass leaves it waiting |
| Legacy.FireDue | buttond.c:238-257 | the loop body in place equals Fire; other bindings are unchanged |
| Legacy.HandleTimeouts | buttond.c:225-260 | the loop in place, with the due test as written or rounded up, leaves the bindings and commands of Timeouts over 0..action_count |
| Legacy.FindBinding | buttond.c:360-364 | the lowest index up to action_count with the event's code, or none when no binding has it |
| Legacy.DispatchTouchesFirstBinding | buttond.c:357-373 | non-key events and unbound codes change nothing; only the lowest-index binding of the code steps, and no other binding changes |
| Legacy.Dispatch | buttond.c:357-373 | the dispatch step in place equals DispatchSpec |

## Left out

- Integer widths are not modelled: `int64_t`/`long` arithmetic in the time helpers, the narrowing of the 64-bit difference to `int` in `compute_timeout`, and `int msec` offsets. Integers are unbounded. On a platform with a 32-bit `long`, `5000 * NSECS_IN_MSEC` in buttond.c:60 would overflow; the model does not capture this.
- Keys.ComputeTimeout: does not model the narrowing of the 64-bit difference to `int` (keys.c:113-117), because integers are unbounded.
- Legacy.ComputeTimeout: the same, for buttond.c:215.
- The clock (`clock_gettime`, `time_gettime`) is the parameter `now`. Its failure path in buttond.c (`exit(EXIT_FAILURE)`) is not modelled.
- `system()` is an effect or a command in a list. Its exit status is never read by the source, so it is not modelled.
- `exit(0)` after an exit_after action is the effect `Exit(0)` together with the end of the pass.
- Keys.Timeouts: the process exit is modelled as the end of the pass; what the process does afterwards is out of scope.
- Debug and diagnostic `printf`/`fprintf` output is not modelled. The one warning with meaning, a held key that found no action, is the effect `NoActionWarning`.
- `keynames.h` is not part of this model. Its blob `allkeynames` is a parameter `blob`, and `sizeof(allkeynames)` is the blob's length.
- `strcmp` is equality of C strings (`KeyNames.NameAt`, `Input.EventName`).
- `toupper` is the C-locale ASCII mapping.
- `strtol`/`strtoll` are not modelled. Their parse is the input `Utils.Strtol` (value, whole string consumed).
- Utils.StrToU16: the `uint16_t` return type is the range check; the setting of `errno` is the `errno` field of the result.
- Utils.ReadSafe and Legacy.ReadSafe model only the byte counts. The bytes copied into the caller's buffer are not modelled. For `handle_inotify` the bytes of each read are the `Input.Chunk` values themselves.
- The 4096-byte buffer of `handle_inotify` and its alignment are not modelled. A read is any byte sequence.
- Input.HandleChunk: uses the corrected in-loop record check (see Findings), because a model cannot read past the bytes it was given.
- Input.Concerned: a `strcmp` against a NULL `dirent` (undefined behaviour in C) is modelled as no match. It cannot happen: an input without a dirent is never watched, so its watch descriptor never equals an event's.
- The inotify event name is read as bytes turned into characters one to one. No encoding is modelled.
- `xassert` aborts are the status `Fatal`. The message and the exit status are not modelled.
- The `main` loops of both daemons are not modelled, apart from the dispatch step of buttond.c:357-373: option parsing, `poll`, opening the devices, and the read loop around the dispatch.
- `gen_events.py` (a test driver that writes events) is not modelled.
- `xcalloc`/`xreallocarray` are not modelled. Tables are given as arrays.
- Directory re-watching after deletion is not modelled, because the source watches only `IN_CREATE` (input.c:46, 96).
- The legacy `strtou16` (buttond.c:138-155) is not modelled; only the one of utils.h is, as the range checks of its callers.
- KeyNames.KeynameByCode: uses the bound the table has (`code >= KEY_MAX`), not the one written (see Findings).
- The sortedness of the action list (short actions first, long ones by increasing trigger time) is a precondition of Keys.LongestTierWins only. Configuration parsing, which establishes it, is not part of this model.

## Findings

| source | as written | input that shows it | evidently intended | confidence | as-written member | corrected member |
|---|---|---|---|---|---|---|
| keys.c:37 | `code > KEY_MAX` lets `code == KEY_MAX` read `keynames[KEY_MAX]`, one past the table of `KEY_MAX` entries | code = 0x2ff (KEY_MAX) | `code >= KEY_MAX` | not executed; high | KeyNames.KeynameByCodeAsWritten, KeyNames.KeynameGuardAdmitsKeyMax | KeyNames.KeynameByCode, KeyNames.KeynameByCodeAgrees |
| input.c:132-133 | the in-loop check `event < buf + n + event->len` always holds once the header fits, so a record whose name runs past the bytes read is handed to handle_inotify_event before the final check fails | a 16-byte read whose len field is 16 (InotifyRecords.Overrun) | check that the record ends inside the bytes read: `event + sizeof(*event) + event->len <= buf + n` | not executed; high | InotifyRecords.WalkAsWritten, InotifyRecords.AsWrittenHandsOnOverrun | InotifyRecords.WalkChecked, InotifyRecords.CheckedRefusesOverrun |
| buttond.c:235-236 | the due test truncates the difference, so a wakeup fires up to 1 ms early; the hold, measured with the truncating time_diff_tv, is then 4999 ms, and a long press is HANDLED without its command | pressed at (100 s, 2000 µs), wakeup at (105 s, 2 000 000 ns), now (105 s, 1 000 001 ns) | a wakeup fires only once its time is reached, as with the rounded-up difference of time_utils.h:16-21 | not executed; medium | Legacy.DueAsWritten, Legacy.LongPressLostAsWritten, Legacy.LongPressLostInPass | Legacy.Due, Legacy.LongWakeupRuns |
