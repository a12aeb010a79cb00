# SafeDesk violation pipeline, in Dafny

SafeDesk watches a camera for a mobile phone. Each frame goes to an object
detector. The detection signal passes a debounce gate (a streak of
consecutive positive frames) and a cooldown gate (a minimum interval between
alerts). An admitted alert becomes a violation: the frame is saved as
evidence, a row is appended to the violations table, and the configured
action mode is enforced ("Log Only", "Warn" or "Lock"). The manager dashboard
reads the rows back. It repairs rows written by older versions, which stored
the image path in the device column, and checks at display time whether the
photo still exists.

The project models that pipeline:

- `wrappers.dfy`: `Option`.
- `detection.dfy` (module `Detection`): the class-67 ("cell phone") predicate
  over the detector's results. It is a method with the source's nested loops
  and early exit, proved against a specification predicate.
- `evidence.dfy` (module `Evidence`): the zero-padded evidence file name
  `violation_YYYYMMDD_HHMMSS.jpg`, its path in the alerts directory, and the
  row timestamp `YYYY-MM-DD HH:MM:SS`, with parsers that read both back.
- `gates.dfy` (module `Gates`): the debounce and cooldown gates as a pure
  step function. Lemmas cover whole runs of frames.
- `pipeline.dfy` (module `Pipeline`): the application object `SafeDeskApp`.
  It holds `monitoring`, `detectStreak`, `lastAlertTime`, `requiredStreak`,
  `alertCooldownSeconds` and `actionMode`, the model-load flags, the camera
  handle, and stand-ins for the file system (a set of existing paths), the
  violations table (a sequence of rows) and the enforcement effects (a log of
  actions). Its methods are start, stop, set mode, one pass of the frame
  loop, recording a violation, and the loop itself. Each is tied to the pure
  functions of `Gates` and to the recording function `Record`.
- `dashboard.dfy` (module `Dashboard`): the display of one stored row,
  including the legacy repair and the photo status.

Inputs standing for foreign calls:

- the frame read: failed, detector raised, or the detector's results (the
  confidence threshold is applied inside the detector);
- `time.time()`: a natural number of seconds;
- `datetime.now()`: a `DateTime` value within Python's `datetime` range;
- `os.getlogin()`: an `Option<string>`, where None means the call raised;
- the outcome of `cv2.imwrite` followed by `os.path.exists`: a boolean
  telling whether the evidence file exists afterwards;
- whether the camera opened, and whether the background model load
  succeeded.

The model follows the code where the code departs from the intended behaviour:

- A cooldown rejection does not reset the streak. Every later positive frame
  asks the cooldown gate again.
- The cooldown time is recorded when the alert is admitted, before the
  evidence write is attempted. A failed write still consumes the cooldown.
- The last alert time starts at 0, not "never". An alert at clock `t` passes
  the first comparison only when `t >= cooldown`. `time.time()` is an epoch
  time, so in practice it always does.
- A failed database insert is not caught by the code, and it is not modelled
  as a separate error.

## Model

| member | source | states |
|---|---|---|
| Detection.PhoneDetected | safedesk_final.py:263-271 | the scan with early exit returns true exactly when some result that has a box list has a box of class 67 (`ContainsPhone`) |
| Detection.ContainsPhoneIffBoxes | safedesk_final.py:263-271 | the signal is true exactly when the number of class-67 boxes over all results is positive (an independent counting definition) |
| Detection.NoBoxesContributeNothing | safedesk_final.py:265-266 | inserting a result whose box list is None anywhere never changes the signal |
| Detection.ContainsPhoneAppend | safedesk_final.py:265-271 | the signal over two groups of results is the disjunction of their signals, so result order does not matter |
| Evidence.TimestampString | safedesk_final.py:292 | the row timestamp is 19 characters; `Evidence.TimestampRoundTrip` states that it reads back as its instant |
| Evidence.EvidenceName | safedesk_final.py:293 | the evidence file name is 29 characters (`violation_`, the 15-character stamp, `.jpg`); `Evidence.EvidenceNameRoundTrip` states that it reads back as its instant |
| Evidence.EvidencePath | safedesk_final.py:293 | the evidence path is at least the alerts directory plus the 29-character name long; `Evidence.EvidencePathShape` states its exact layout |
| Evidence.EvidencePathShape | safedesk_final.py:293 | the evidence file lies directly in the alerts directory: the path is the directory, then exactly one `\` unless the directory is empty or already ends in a separator, then the 29-character evidence file name |
| Evidence.JoinPathSeparator | safedesk_final.py:293 | the join puts exactly one `\` between directory and name, none after an empty directory or one already ending in `\` or `/`, and nothing else |
| Evidence.JoinPath | safedesk_final.py:293 | the joined path starts with the directory and ends with the file name; `Evidence.JoinPathSeparator` states what lies between them |
| Evidence.TimestampRoundTrip | safedesk_final.py:292 | the row timestamp of a valid instant is 19 zero-padded characters and parses back to that instant |
| Evidence.StampRoundTrip | safedesk_final.py:291-292 | a date, one character and a time, each zero-padded with any field separators, parse back to the instant they were written from |
| Evidence.EvidenceNameRoundTrip | safedesk_final.py:293 | the evidence file name of a valid instant parses back to that instant |
| Evidence.NameAndTimestampAgree | safedesk_final.py:291-293 | the file name and the row timestamp encode one and the same instant |
| Evidence.EvidencePathInjective | safedesk_final.py:293 | in one alerts directory, equal evidence paths mean equal instants (to the second) |
| Evidence.EvidencePathMarked | safedesk_final.py:293 | every evidence path carries `violation_` 29 characters before its end |
| Gates.Observe | safedesk_final.py:273-283 | a skipped pass changes nothing; an alert is admitted iff the updated streak (+1 on a positive frame, 0 on a negative one) reaches the required streak and `now - lastAlert >= cooldown`; admission sets the last alert to `now` and the streak to 0; a rejection keeps the updated streak and the last alert time |
| Gates.RunIgnoresSkips | safedesk_final.py:256-259 | over any run, failed reads and detector errors change neither streak nor last alert time, and never admit |
| Gates.AdmissionsSpaced | safedesk_final.py:278-283 | in any run, every admission is at least `cooldown` after the last alert before the run, and any two admissions are at least `cooldown` apart, even when the clock goes backwards |
| Gates.AdmissionFollowsStreak | safedesk_final.py:256-283 | starting from a reset streak, in any run (failed reads and detector errors included), a pass that admits is a classified frame, and the last `requiredStreak` classified frames up to and including it were all positive |
| Gates.StreakAdmits | safedesk_final.py:256-283 | conversely, for any window of passes ending in a positive frame that holds at least `requiredStreak` classified frames, all positive, with failed reads and detector errors allowed anywhere inside it, and no admission among its earlier passes, the last frame admits exactly when the cooldown has elapsed |
| Gates.StreakScenario | safedesk_final.py:273-283 | required streak 3 from a reset streak: positive, positive, negative, positive, positive, positive admits only on the sixth frame, and there exactly when the cooldown has elapsed |
| Gates.CooldownScenario | safedesk_final.py:278-283 | cooldown 10 s, required streak 1: alerts at t, t+5 and t+11 are admitted, rejected and admitted; after the rejection the streak is still 1 and the last alert still t |
| Pipeline.ObsOf | safedesk_final.py:256-271 | a pass is classified only if the read succeeded and monitoring is still on; its signal is the class-67 predicate and its time the clock |
| Pipeline.RecordEffect | safedesk_final.py:290-312 | recording touches no file but the evidence path; that path exists afterwards iff the write left it; if it exists, exactly the row (timestamp, employee or "Unknown", "Mobile Phone", path) is appended and that mode's enforcement follows; if not, the rows and the effects are unchanged |
| Pipeline.Enforcement | safedesk_final.py:309-312 | "Warn" gives exactly a warning, "Lock" exactly a workstation lock, and every other mode no action, each in both directions |
| Pipeline.SavedIndicesExact | safedesk_final.py:278-306 | a pass is among the saved passes if and only if it admitted an alert and its evidence file existed afterwards |
| Pipeline.SavedIndicesOrdered | safedesk_final.py:253-306 | the saved passes are listed in the order they happened |
| Pipeline.RecordAllRows | safedesk_final.py:300-306 | over a run the old rows stay in place and exactly one row follows per saved pass, in order, each the row of that pass (its timestamp, employee, label and evidence path) |
| Pipeline.RecordAllActions | safedesk_final.py:309-312 | a run's enforcement effects are exactly one copy of the mode's action per saved pass, in order |
| Pipeline.LogOnlyNeverEnforces | safedesk_final.py:309-312 | in any mode other than "Warn" and "Lock" (so in "Log Only"), a run has no enforcement effect |
| Pipeline.MonitorStep | safedesk_final.py:253-312 | one more pass extends the gate run and the recordings by exactly that pass |
| Pipeline.SafeDeskApp.constructor | safedesk_final.py:68-77 | initial state: not monitoring, no model, no camera, cooldown 10 s, required streak 3, streak 0, last alert 0, mode "Log Only", over the existing files and rows |
| Pipeline.SafeDeskApp.LoadModelBackground | safedesk_final.py:92-97 | a load is started only when the model is neither loaded nor already loading |
| Pipeline.SafeDeskApp.ModelLoadFinished | safedesk_final.py:99-118 | after the load the loading flag is off, and the model is present iff it was before or this load succeeded |
| Pipeline.SafeDeskApp.StartMonitoring | safedesk_final.py:208-232 | without a model: "still loading" or "load failed", and nothing changes; when already monitoring, nothing changes; otherwise the streak is reset, a capture is opened, and monitoring stays on iff the camera opened; on a camera error the unopened handle stays in place |
| Pipeline.SafeDeskApp.SetActionMode | safedesk_final.py:234-235 | the action mode becomes the chosen value; nothing else changes |
| Pipeline.SafeDeskApp.StopMonitoring | safedesk_final.py:241-246 | monitoring is off, the streak is 0 and the camera is released; the last alert time is kept |
| Pipeline.SafeDeskApp.Step | safedesk_final.py:253-288 | one pass of the frame loop changes streak and last alert time exactly as `Gates.Observe` on the pass's observation, and reports an admission iff it admits |
| Pipeline.SafeDeskApp.SaveViolation | safedesk_final.py:290-312 | files, rows and enforcement effects become `Record` of the previous ones; the rest of the state is untouched |
| Pipeline.SafeDeskApp.ProcessFrame | safedesk_final.py:278-312 | one pass followed, only on admission, by recording; with no admission the store is unchanged |
| Pipeline.SafeDeskApp.Monitor | safedesk_final.py:253-288 | the loop over a sequence of passes leaves streak and last alert time at `Gates.Run`, and the store at the recordings of the passes that `Gates.Flags` marks as admitted; when not monitoring, nothing changes |
| Dashboard.Display | safedesk_final.py:408-422 | the displayed timestamp is the stored one, and the status is "Photo Saved" iff the displayed photo path is non-empty and exists |
| Dashboard.RecordedRowShownAsIs | safedesk_final.py:408-422 | a row the pipeline recorded ("Mobile Phone" label) is never repaired: it shows its employee, its label, its own image path, and that path's status |
| Dashboard.LegacyEvidenceRowRepaired | safedesk_final.py:414-420 | a legacy row whose device column holds an evidence path shows that path as photo, the employee column as device, and the login (or "User") as employee |

## Left out

- GUI widgets, status labels, message boxes, the photo windows and the tray icon are left out. They are presentation only. A start refusal is returned as a `StartOutcome`, and a warning dialog is logged as an `Action`.
- Camera capture, detector inference, `cv2.imwrite`, `os.path.exists` and `os.getlogin` are foreign calls. They become inputs.
- Threads are not modelled: the background loop, the background model load and `after` scheduling. Recording runs synchronously right after admission, and monitoring does not change during a loop run (a stop is a separate call).
- Exceptions are modelled only where the detector call raises, which is before anything is changed. An exception raised after the cooldown was consumed is not modelled.
- The box class id comes from the detector as an integer. The float-to-int conversion of `box.cls[0]` belongs to the detector stand-in.
- The SQL is left out: the table schema, autoincrement ids (a row's position stands for its id), the recent-log, count, date and export queries, the clear-all operation and the spreadsheet export. These are thin wrappers over libraries.
- The confidence slider (`on_conf_change`) is a floating-point value that is only passed to the detector, so it is left out.
- Clock values are whole seconds. The fractional part of `time.time()` is not modelled.
- `LockWorkStation` is recorded as an effect. Whether the lock succeeds is not modelled.
- `get_model` is not used by the modelled operations.
- Evidence.JoinPath: models Windows path joining for a relative file name only, with one separator inserted unless the directory is empty or already ends in `\` or `/`. The drive-letter rules of the host's join are not modelled, because the alerts directory always ends in `Alerts`.
- Evidence.TimestampRoundTrip: years are zero-padded to four digits. The host's `strftime` may not pad years below 1000.
