# AI CCTV surveillance: violation trigger, violation log and frame loop

The application runs every frame of an uploaded video (or one uploaded image)
through an object detector. For every detected box whose class name, upper-cased,
contains `NO` (`NO-Helmet`, `no-vest`, ...), it appends a row
`Timestamp,Violation,Confidence` to `violation_logs.csv`. The header is written
only when the file is first created. The page then shows the last ten rows of
the log, or a "no violations" message while the file does not exist. The video
loop reads frames until a stop flag is set or more than ten reads in a row have
failed, and on each of the exits the loop itself takes it releases the capture.

This project models the sequential logic inside that program and proves its
properties:

- `trigger.dfy` (module `Trigger`) holds the violation test of `process_frame`:
  ASCII upper-casing, Python's substring `in`, and the trigger predicate.
- `violation_log.dfy` (module `ViolationLog`) models the log file as
  `Option<seq<Line>>` (`None` while the file is absent). It holds the rows, the
  header-once append of `log_violation` (the `LogFile` class and the function
  `Appended` that specifies it), and the tail view of the log.
- `frame_processing.dfy` (module `FrameProcessing`) holds the per-frame filter
  `Logged` and the `ProcessFrame` loop over the detector's boxes.
- `display_loop.dfy` (module `DisplayLoop`) holds the `display_video` loop as a
  method over a scripted capture. The loop is proved against a reference
  definition of when the source counts as lost: after the first read that
  completes 11 consecutive failures.
- `wrappers.dfy` (module `Wrappers`) holds `Option`.

Inputs that come from outside the program are parameters:
- the detector's output for a frame is a sequence of `Detection`s (class name and confidence);
- the wall-clock reading `log_violation` takes is a `Timestamp` carried by each `Detection`;
- the video source is a `Source`: whether it opens, and the results of its reads. Every read past the end of this script fails, as OpenCV's reads do at the end of a file;
- the stop button is a boolean fixed for the session.

Three points of the code's behaviour the model keeps:
- The code has a single exit for "stream lost" and "video ended", with the warning "Stream lost or ended.". A finite video therefore ends with 11 failed reads, so `StreamLost` covers both a lost stream and the end of a video.
- An existing but empty log file makes `read_csv` raise. It is modelled as the view `Unreadable`, which is distinct from `NoViolations`.
- The capture's `isOpened()` is tested before the stop flag. An unopened source therefore ends the session as `SourceClosed` even when stop is set.

## Model

| member | source | states |
|---|---|---|
| Trigger.Upper | app.py:62 | upper-casing keeps the length and maps each ASCII `a`-`z` to `A`-`Z`; every other character is unchanged |
| Trigger.Contains | app.py:62 | `needle in hay` holds iff `needle` occurs in `hay` starting at some index |
| Trigger.IsViolation | app.py:62 | `"NO" in name.upper()` (ASCII upper-casing, then the substring search) holds iff the name has an `N`/`n` directly followed by an `O`/`o`, in both directions |
| Trigger.TriggeringExamples | app.py:62-63 | `NO-Helmet`, `NO-Mask`, `no-vest`, `NOTICE` and `Snow` all trigger a log call |
| Trigger.NonTriggeringExamples | app.py:62-63 | `Person`, `Hardhat`, `ON` and the empty name do not trigger |
| ViolationLog.Encode | app.py:43-44 | a data row has exactly 3 fields, in header order (timestamp, class name, confidence), and is never the header row |
| ViolationLog.Decode | app.py:127 | a row read back as a record has exactly 3 fields; the header row is never read back as a record |
| ViolationLog.RowRoundTrip | app.py:43-47 | writing a record as a row and reading it back yields the same record, and the reverse for any readable row |
| ViolationLog.RowsRoundTrip | app.py:126-129 | reading back the rows written for N records yields the same N records, field for field and in order |
| ViolationLog.Appended | app.py:46-49 | one append to an absent file yields the header and then the row; to an existing file it adds the row at the end and keeps every earlier line in place |
| ViolationLog.AppendedHeaderCount | app.py:46-49 | an append adds a header row only when it creates the file |
| ViolationLog.AppendKeepsWellFormed | app.py:43-49 | after an append the file exists, its first line is the header, and every other line is a 3-field record, provided this held before |
| ViolationLog.AppendAllConcat | app.py:46-49 | logging `a` and then `b` leaves the same file as logging `a + b` |
| ViolationLog.AppendAllToExisting | app.py:46-47 | logging to an existing file only appends one row per record, in order, and writes no header |
| ViolationLog.LogFromAbsent | app.py:46-49 | starting from no file, logging a non-empty sequence yields the header followed by exactly its rows, in logging order |
| ViolationLog.HeaderExactlyOnce | app.py:46-49 | however many records are logged starting from no file, the file exists iff something was logged, holds the header exactly once as its first line, and is well-formed |
| ViolationLog.Tail | app.py:128 | `tail(n)` gives the last `min(n, len)` elements, in order |
| ViolationLog.ViewLog | app.py:126-131 | "no violations" iff the file is absent; otherwise the first line is the column row, the full file is offered for download, and the last `min(10, rows)` rows are shown in file order |
| ViolationLog.ViewAfterLogging | app.py:126-131 | after logging N records from no file, the viewer says "no violations" when N = 0; otherwise it shows the header and reads back the last `min(10, N)` records, field for field and in order, with all N records in the download |
| ViolationLog.ViewShowsNewestLast | app.py:126-128 | after an append to a well-formed log, the row just written is the last one the viewer shows |
| ViolationLog.LogFile.LogViolation | app.py:41-49 | `log_violation` changes the file exactly as `Appended` says, for the record (now, class name, confidence) |
| FrameProcessing.Logged | app.py:58-63 | a frame logs at most one record per box, and only for boxes whose class name triggers |
| FrameProcessing.LoggedConcat | app.py:58-63 | records come in box order: the boxes of `a + b` log the records of `a` and then those of `b` |
| FrameProcessing.LoggedOne | app.py:62-63 | one box is logged, as the record (its timestamp, class name, confidence), exactly when its class name triggers |
| FrameProcessing.LoggedCount | app.py:58-63 | the number of appended records equals the number of boxes whose class name triggers |
| FrameProcessing.NothingTriggersNothingLogged | app.py:58-63 | a frame with no boxes, or with no triggering box, logs nothing |
| FrameProcessing.ProcessFrame | app.py:54-65 | processing a frame leaves the log equal to the old log with the frame's triggering records appended in box order |
| DisplayLoop.ReadsUntilLost | app.py:74-83 | an open, unstopped session stops after the first read that completes 11 consecutive failed reads (a count above 10), never earlier, and within the script's length plus 11 |
| DisplayLoop.TrailingWindow | app.py:78-84 | the number of trailing failed reads is at least k iff the last k reads all failed |
| DisplayLoop.LostIffTrailing | app.py:79-80 | the source counts as lost iff more than 10 of the latest reads failed in a row |
| DisplayLoop.AfterFrame | app.py:84-86 | a successful read resets the counter to 0, keeps the counter invariant, and adds its frame after the frames read before |
| DisplayLoop.AfterFailure | app.py:78-83 | a failed read increments the counter and adds no frame; at most 10 keeps the invariant, and 11 means the session has made exactly `ReadsUntilLost` reads |
| DisplayLoop.FramesReadPrefix | app.py:77-86 | the frames processed in `n` reads are the frames among the first `n` script entries, in read order; reads past the end add none |
| DisplayLoop.AlwaysFailing | app.py:74-82 | a source whose every read fails is given up on after exactly 11 reads, with no frame processed |
| DisplayLoop.FiniteVideo | app.py:74-86 | a video ending in a frame, with no 11-failure run inside it, is read to its end plus exactly 11 failing reads, and each of its frames is processed once, in order |
| DisplayLoop.Capture.constructor | app.py:69 | a new capture is opened as the source says, with no reads and no releases yet |
| DisplayLoop.Capture.Read | app.py:77 | `read()` returns the next scripted result while open (a failure past the end or once released) and counts the attempt |
| DisplayLoop.Capture.Release | app.py:90 | `release()` closes the capture and counts one release |
| DisplayLoop.ShowFrame | app.py:84-88 | processing and showing one frame adds it after the frames shown before, and its records after theirs in the log |
| DisplayLoop.ReadStep | app.py:77-88 | one read: the capture stays open and counts one more attempt; either the session is lost after exactly `ReadsUntilLost` reads, or the counter invariant holds again; the frames shown are those read so far, with their records appended to the log in order |
| DisplayLoop.DisplayVideo | app.py:68-90 | the capture is released exactly once on each of the three exits the loop itself takes (source not open, stop flag, 11 consecutive failures); an unopened source or a set stop flag makes no read, shows nothing and leaves the log unchanged; otherwise the loop makes exactly `ReadsUntilLost` reads, and its invariant keeps the counter within 0..10 at every loop head; it shows each frame read, once and in read order, and appends their triggering records in that order |

## Left out

- The YOLO model: loading it (app.py:11-13), inference (app.py:55) and box annotation (`results.plot()`, app.py:56). A frame is given by the detector's boxes on it. Class ids and the `CLASS_NAMES` lookup (app.py:59-60) are folded into the box's class name.
- OpenCV: opening a capture from a path, decoding frames, `imread`, and the BGR to RGB conversion (app.py:69, 77, 87, 94). A source is a script of read results. A source whose reads fail intermittently forever cannot be expressed: every script is finite, and every read past its end fails.
- Streamlit: page layout, the sidebar, file uploaders, temporary files, `st.video`/`st.image`, the warning, the download button and the HTML audio alert `play_alert_sound` (app.py:16-38, 51, 81, 99-120, 128-131). Only what the log view selects is modelled, not how it is rendered.
- `process_image` (app.py:93-96): it reads one image and calls `process_frame` once, which is `ProcessFrame` on that image's boxes.
- `datetime.now()` and its formatting (app.py:42): the timestamp is an opaque string passed in with each box.
- `round(confidence, 2)` (app.py:43): confidences are integer hundredths, already rounded.
- pandas CSV text, quoting and `read_csv` parsing (app.py:47-49, 127): rows are sequences of cells, not text. This includes `read_csv`'s conversion of missing-value strings such as `None` or `NA` to NaN: a class named `None` triggers (`NONE` contains `NO`), but pandas reads its row back with NaN as the class name. The field-for-field round trips `RowsRoundTrip` and `ViewAfterLogging` hold for the model, not for such rows in the program.
- Exceptions: nothing in `display_video` (app.py:68-90) catches one. An exception raised inside the loop by the detector (app.py:55), by the log write (`to_csv`, app.py:47-49, e.g. on a disk or permission error) or by rendering (app.py:87) leaves `display_video` without reaching `cap.release()` (app.py:90), and a failed `to_csv` can leave a partial row in the file. These exits are not modelled: `LogFile.LogViolation` and `ProcessFrame` always succeed, so the release guarantee of `DisplayVideo` covers only the loop's own three exits.
- `time.sleep(0.03)` (app.py:88) and any concurrent writer to the log file: timing and concurrency.
- Non-ASCII upper-casing in `str.upper()` (app.py:62): only `a`-`z` are mapped.
- The stop button is read once, before the loop (app.py:71). It is a fixed boolean, not a signal that changes during the session.
