# Attendance decisions of VIONNA, modelled in Dafny

VIONNA takes attendance from a camera. For every person box in a frame it
matches the face against the known students, asks a deepfake server whether
the face is real, and checks whether the box has moved since the last
sighting. A student is marked present once, during a ten-minute class
window. After the class, the absentees are listed and the teacher gets a
report. A separate weekly job counts each student's sessions and mails a
percentage with one of three messages.

This project models the decision logic of that pipeline and proves its
properties:

- `liveliness.dfy` (module `Liveliness`): the `previous_positions` table of
  `utils/liveliness.py` as the class `Tracker`, with `Reset` and
  `CheckLiveliness`. `Step` describes one call on a table value.
- `identity.dfy` (module `Identity`): the first-occurrence dedup of the
  known names and encodings, `np.argmax`, and the 0.4 match threshold.
- `deepfake.dfy` (module `Deepfake`): the fail-open mapping from the
  deepfake server's reply to a (status, confidence) pair.
- `session.dfy` (module `Session`): the class window, the frame loop and
  the commit rule. `Observe`, `Run` and `Outcome` describe them on values.
  `RunSession` and `ProcessFrame` run the loops against a `Tracker` and are
  proved equal to those functions.
- `report.dfy` (module `SessionReport`): the Present/Absent rows of the
  teacher's report.
- `weekly.dfy` (module `WeeklyReport`): the weekly tally, the percentage,
  the message band and the skip rule.

Clock readings are whole seconds passed in as data. Similarity scores are
given as reals, one per known name. A frame records four things: the clock
reading at the top of the loop, whether `cap.read()` succeeded, what
happened for each person box, and whether `x` was pressed. The input is a
finite list of frames, so the model has one extra stop reason,
`FramesExhausted`, for when the list runs out.

The model follows the code at these points, where its behaviour is easy to misread:

- A failed frame read ends the session (main.py:324-327). It is not
  skipped.
- The deepfake call and the liveliness check run for every recognised face
  before the `name not in attendance` guard (main.py:351-359). So the
  liveliness table is updated even for students who are already present.
- An empty known list is a precondition here. `np.argmax` raises on it
  (main.py:344), so it is not mapped to `Unknown`.
- A launch after the class end calls `exit()` (main.py:150-152). No
  absentee list is produced, which the model states as `NeverStarted`.

## Model

| member | source | states |
|---|---|---|
| `Liveliness.Center` | utils/liveliness.py:50-51 | each centre coordinate is the floor of half the coordinate sum: twice it lies within one below the sum |
| `Liveliness.SquaredDistance` | utils/liveliness.py:70 | the squared displacement is non-negative and zero exactly when the two centres coincide |
| `Liveliness.Step` | utils/liveliness.py:45-77 | one `check_liveliness` call on a table value; specified by `StepRecords` (the new table), `AfterResetNotLive` and `LiveNeedsFreshMove` (the verdict), and `Tracker.CheckLiveliness`, whose new state and verdict are exactly `Step`'s |
| `Liveliness.MovedFarEnoughIsEuclidean` | utils/liveliness.py:70-77 | the integer test "squared distance > 400" holds exactly when the real Euclidean distance exceeds 20 px, so exactly 20 px is not live |
| `Liveliness.StepRecords` | utils/liveliness.py:51-73 | after any call the record for the name is (centre, now), the keys gain only that name, and every other record is unchanged |
| `Liveliness.SameBoxTwiceNotLive` | utils/liveliness.py:63-77 | two consecutive calls with the same box give False the second time, whatever the two times are |
| `Liveliness.AfterResetNotLive` | utils/liveliness.py:37-57 | on the empty table a call returns False and leaves just (centre, now) for that name |
| `Liveliness.LiveNeedsFreshMove` | utils/liveliness.py:54-77 | a True verdict requires a stored record at most 5 s old and a centre that moved by a squared distance above 400 |
| `Liveliness.Tracker.constructor` | utils/liveliness.py:35 | the table starts empty |
| `Liveliness.Tracker.Reset` | utils/liveliness.py:37-43 | the table is empty afterwards |
| `Liveliness.Tracker.CheckLiveliness` | utils/liveliness.py:45-77 | the record becomes (centre, now) and nothing else changes; a cold start gives False; a record older than 5 s gives False; exactly 5 s is within the window, and there the result is True iff the move exceeds 20 px |
| `Identity.Dedup` | main.py:30-40 | the kept names are pairwise distinct and are exactly the names among the zipped pairs; they are in order of first occurrence; each kept encoding is the one paired with its name's first occurrence; both lists have equal length |
| `Identity.ArgMax` | main.py:344 | the result is an index holding the maximum score, and every earlier score is strictly smaller, so it is the first such index |
| `Identity.Match` | main.py:341-349 | a recognised result is the known name at the first index of the maximum score, and that score is strictly above 0.4; the result is Unknown iff every score is at most 0.4 |
| `Deepfake.MapReply` | main.py:194-206 | an exception, a reply with an `error` key, or one missing `label` or `confidence` gives exactly ("Real", 0.0); any other reply passes its label and confidence through unchanged |
| `Deepfake.NotRealOnlyFromServer` | main.py:199-206 | a status other than "Real" can only come from a well-formed reply that carries that label |
| `Session.Observe` | main.py:341-371 | one person box on a state value; specified by `ObserveCommitRule` (the only change to `attendance`, and when it happens) and `ObservePositions` (the liveliness table) |
| `Session.ObserveAll` | main.py:332-371 | the boxes of one frame in order; specified by `ObserveAllExtends` (entries are only added, keys stay known) and implemented by `ProcessFrame`, which ends in its state |
| `Session.ObserveCommitRule` | main.py:341-361 | one box changes `attendance` only by inserting its recognised name with the box's time, and does so iff the name is absent, the status is "Real" and the liveliness check says live |
| `Session.ObservePositions` | main.py:341-356 | every recognised face overwrites its liveliness record, whether or not the name is already present; unrecognised faces leave the table alone |
| `Session.FailOpenLeavesLiveliness` | main.py:351-361 | when the deepfake reply fails, a new recognised name is committed exactly when the liveliness check says live |
| `Session.ObserveAllExtends` | main.py:332-371 | processing one frame's boxes never removes or overwrites an entry, and keeps every key a known name |
| `Session.Run` | main.py:318-384 | the frame loop on a state value; specified by `RunExtends` (entries are only added, keys stay known), `FirstHalt` and `RunStopsAtFirstHalt` (where and why it stops), and implemented by `RunSession` |
| `Session.RunExtends` | main.py:318-384 | over the whole loop, entries are never removed or overwritten, so each name is committed at most once; keys stay known names |
| `Session.FirstHalt` | main.py:318-384 | the index of the first frame that stops the loop: no earlier frame stops it, and that frame does |
| `Session.RunStopsAtFirstHalt` | main.py:318-384 | the loop stops at the first frame that has reached the class end, failed to read, or had `x` pressed; that frame gives the reason, and later frames change nothing |
| `Session.Absentees` | main.py:389 | the absentee list is never longer than the known list |
| `Session.AbsenteesMembers` | main.py:389 | a name is absent iff it is a known name not in `attendance`, so absentees and present names are disjoint and together cover the known names |
| `Session.AbsenteesConcat` | main.py:389 | the absentee list keeps the order of the known list |
| `Session.Outcome` | main.py:143-389 | the whole session as a value; specified by `OutcomeProperties` (never starts iff launched after the end; otherwise keys known and absentees partition the known names) and `AliceScenario`, and returned by `RunSession` |
| `Session.OutcomeProperties` | main.py:143-389 | the session never starts iff it is launched strictly after start + 600 s; otherwise every present name is known, there are at most as many as known names, and the absentees partition the rest |
| `Session.AliceScenario` | main.py:341-361 | a concrete run: a cold start at t=0, a 30 px move at t=2 that commits the student at t=2, and a third sighting at t=3 that leaves the entry alone |
| `Session.ProcessFrame` | main.py:332-371 | the loop over one frame's boxes, driving the tracker, ends in the state `ObserveAll` gives |
| `Session.RunSession` | main.py:143-389 | the whole session, driving the tracker, returns `Outcome`; the tracker ends with the liveliness table `Run` computes, or unchanged if the session never starts |
| `SessionReport.TeacherReportRows` | main.py:270-281 | one row per known name, in order; "Present" iff the name is present; absent rows have lateness N/A; present rows have the positive lateness, or 0 when entry is not after the start |
| `SessionReport.ReportAgreesWithAbsentees` | main.py:270-281 | the "Absent" rows of the teacher report list exactly the session's absentees, in the same order |
| `WeeklyReport.PresentAtMostRows` | weekly_report.py:113-116 | for every name, the "Present" rows number at most the rows |
| `WeeklyReport.CollectNames` | weekly_report.py:92-97 | the collected set is exactly the names occurring in the rows |
| `WeeklyReport.Tally` | weekly_report.py:92-116 | every name occurring in the rows, and only those, gets a record; its total is the number of its rows, its present count is the number of those with status exactly "Present", and present <= total |
| `WeeklyReport.Percentage` | weekly_report.py:131-132 | the percentage times `max_classes` is 100 times the present count, with no dependence on the student's own session total; it is 0 when `max_classes` <= 0 |
| `WeeklyReport.BandThresholds` | weekly_report.py:134-139 | with classes configured, the band is "quite low" iff 100p < 50m, "room for improvement" iff 50m <= 100p < 80m, and "great job" iff 100p >= 80m |
| `WeeklyReport.BandOf` | weekly_report.py:134-139 | the `if / elif / else` on the percentage; specified by `BandThresholds` (each band iff its integer inequality) and `BandMonotone` |
| `WeeklyReport.ReportMessage` | weekly_report.py:131-139 | the mailed message is the "quite low" text below half of the classes or with none configured, the "room for improvement" text from half to below four fifths, and the "great job" text from four fifths on |
| `WeeklyReport.MessagesDistinct` | weekly_report.py:134-139 | the three message texts are pairwise different, so the text identifies the band |
| `WeeklyReport.NoClassesMeansQuiteLow` | weekly_report.py:131-135 | with `max_classes` <= 0 every student gets the "quite low" message |
| `WeeklyReport.BandMonotone` | weekly_report.py:131-139 | attending more classes never gives a worse band |
| `WeeklyReport.ReportFor` | weekly_report.py:129-139 | what one e-mail reports: the present count, `max_classes`, the percentage and its band; specified by `BandThresholds` and `ReportMessage`, and used by `WeeklyReports` |
| `WeeklyReport.WeeklyReports` | weekly_report.py:127-139 | every report belongs to an (e-mail, student) pair with a record and carries that record's present count, `max_classes`, the percentage and its band; every pair whose student has a record gets a report; the others are skipped |
| `WeeklyReport.WeeklyReportsConcat` | weekly_report.py:127-129 | the reports keep the order of the e-mail list |

## Left out

- Cosine similarity (main.py:343) is floating-point numerics. The scores are inputs instead.
- Frame capture, YOLO person detection, InsightFace embedding, drawing, `imshow` and key polling are camera, ML and UI plumbing. Their outcomes are fields of `Frame` and `Detection`.
- Camera opening and its `exit()` (main.py:164-171) are left out for the same reason.
- JPEG and base64 encoding and the HTTP post (main.py:196-198) are network I/O. A failed request, a non-JSON body and a non-object JSON body are all `Reply.Raised`; all three reach the same fail-open return.
- The client posts JSON to `/predict`, but deepfake_server.py serves multipart uploads at `/detect_deepfake`. So in practice every reply fails open. The server's 0.5 cut on a Keras output is float numerics and is not modelled.
- Formatting the confidence with `:.2f` (main.py:352) raises when the server sends a non-number. That crash is not modelled.
- Loading configuration from CSV and pickle files, and the `exit()` calls on bad configuration, are file I/O.
- SMTP mail, the summary text file, and writing or resetting the CSV files are I/O. The weekly Present/Absent rows are written by main.py:363-369 and 387-391.
- The weekly e-mail body (weekly_report.py:141-154) wraps the message with the student's name, a wall-clock timestamp and the counts; only the message text, `WeeklyReport.Message`, and the values it shows are modelled.
- The `time.sleep` before class start changes no modelled state. The Sunday 22:40 polling loop (weekly_report.py:175-189) is scheduling.
- Formatting lateness and percentage as decimal strings is float formatting. Lateness is kept in whole seconds.
- Liveliness.Tracker.CheckLiveliness: the source compares a float gap, `total_seconds()` (utils/liveliness.py:63), with 5, while the model compares whole-second readings. The two can disagree: readings 0.4 s and 5.9 s give a 5.5 s gap, stale in the source, but floored to 0 and 5 they give a gap of 5, which the model treats as within the window.
- Session.Observe: `check_liveliness` and the entry-time stamp read the clock separately. The model uses one reading, `at`, for both.
- SessionReport.TeacherReportRows: the entry time is parsed again with the date taken at launch (main.py:275). A session that crosses midnight would get a wrong lateness; that is not modelled.
- WeeklyReport.Percentage: it is exact real arithmetic, while the source divides in floating point. With realistic class counts the two agree on the 50 and 80 cut-offs.
- WeeklyReport.Tally: both passes read the same rows. A file that changes between the two reads is not modelled.
- WeeklyReport.WeeklyReports: `students_emails` is given as its item list in dictionary order.
