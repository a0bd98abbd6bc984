# Smart Attendance: a Dafny model of the recognition and attendance core

Smart Attendance marks people present from a webcam stream. Faces found in
each frame are matched against a gallery of known face embeddings. A person
is marked only after being recognised in several consecutive frames, and at
most once per session. The rows of a session are appended to an attendance
sheet when the session ends. A separate tool builds the gallery from a tree
of labelled images.

This project models:

- **Gallery loading** (`gallery.dfy`, module `Gallery`). This is `load_known`: a
  missing file and an empty encodings list are distinct start-up errors.
- **Matcher and box padding** (`matcher.dfy`, module `Matcher`). The first
  nearest gallery entry (as `np.argmin` picks it) is accepted when its distance
  is at most the tolerance 0.5; otherwise the region is "Unknown". A region whose
  embedder raised or found no face is "Unknown". Each detected box is padded by
  15% and clamped to the frame. `RecognizeFrame` is the loop over one frame's
  regions.
- **Confirmation tracker and attendance ledger** (`attendance.dfy`, module
  `Attendance`). The loop's three locals (`confirmation_counts`, `marked_names`
  and `attendance_rows`) are fields of the class `Session`. `Session.Step` is
  proved to compute the pure one-frame function `Next`, and `Run` folds `Next`
  over a whole session. The lemmas state what a session guarantees: streaks
  count the sightings since the last frame without the label, every label
  whose streak reached 3 has exactly one row, and rows are only appended.
- **The capture loop** (`capture.dfy`, module `Capture`). Frames are processed
  until a read fails or the quit key is seen. Then the rows are merged into the
  prior sheet, if there are any.
- **Worked sessions** (`scenarios.dfy`, module `Scenarios`). Five steady
  sightings give one row at the third frame. A sighting, a gap and three more
  sightings give the streaks 1, 0, 1, 2, 3 and one row at the fifth frame.
- **Gallery building** (`encodings.dfy`, module `Encodings`). This is
  `create_encodings` over an abstract directory listing. The embedding and name
  lists grow in lock step. Only files named `.png`, `.jpg` or `.jpeg` (in any
  letter case) are read, only the first face of an image is kept, and failing
  or faceless images are skipped.

Three points of behaviour are easy to misread, and the model keeps each one as the code has it:

- A reader might expect a label's streak to grow by one per frame. The code
  adds one per sighting, so a label recognised in two regions of one frame
  gains 2 (attendance_capture.py:101-102). `Next` and `TrailingCount` count
  sightings.
- Every tracked label missing from the frame is set to 0, including labels
  that are already at 0 (attendance_capture.py:103-105). This is the same as
  resetting only the non-zero streaks.
- When the camera cannot be opened, the code returns without saving anything
  (attendance_capture.py:51-53). `RunAttendance` gives `Finished(None)` then.

"Unknown" is a plain string in the code. A gallery person whose directory is
literally named `Unknown` is therefore dropped before streak counting and is
never marked. The model keeps this behaviour.

## Model

| member | source | states |
|---|---|---|
| `Gallery.LoadKnownAsWritten` | attendance_capture.py:25-35 | A missing file fails with GalleryNotFound. A file with no encodings fails with GalleryEmpty. Otherwise it succeeds and returns the stored encodings and names unchanged, with a missing key read as an empty list. |
| `Gallery.LoadKnownAcceptsUnpairedFile` | attendance_capture.py:30-35 | A file holding one encoding and no "names" entry loads successfully, yet the loaded gallery has no label for index 0. |
| `Gallery.LoadKnown` | attendance_capture.py:25-35 | The corrected loader. Each outcome has exactly one cause, in both directions. GalleryNotFound means the file is missing. GalleryEmpty means there are no encodings. NamesMismatch means there are fewer names than encodings. Success means there is at least one encoding and a name for each of them; extra names are accepted, as the matcher never reads them. Success agrees with the as-written loader and yields a usable gallery. |
| `Gallery.LoadKnownReturnsStoredGallery` | attendance_capture.py:28-35 | A usable gallery that was stored loads back unchanged. |
| `Matcher.ArgMin` | attendance_capture.py:88 | The result is a position of the smallest distance, and no earlier position holds the same distance (the first minimum). |
| `Matcher.Match` | attendance_capture.py:84-93 | Given at least one distance and a name at every distance's position, for the first minimal index i, the result is names[i] when distance i is at most the tolerance, and "Unknown" otherwise. |
| `Matcher.MatchedLabelIsNearest` | attendance_capture.py:88-91 | Any label other than "Unknown" belongs to a nearest entry that lies within tolerance. |
| `Matcher.TighterToleranceOnlyLosesMatches` | attendance_capture.py:90-93 | For fixed distances, a smaller tolerance yields either "Unknown" or the same label as the larger one. It never yields a different label, and never a label where the larger tolerance gave "Unknown". |
| `Matcher.Distances` | attendance_capture.py:87 | One distance per gallery embedding, in gallery order. Position i holds the distance from the region's embedding to embedding i. |
| `Matcher.RegionName` | attendance_capture.py:79-93 | A region whose embedder raised or found no face is "Unknown". Otherwise the region's label is the match of its first embedding against every gallery entry. |
| `Matcher.Pad` | attendance_capture.py:71-72 | The pad is the largest whole number not above 15% of the side. |
| `Matcher.PadBox` | attendance_capture.py:71-76 | The crop lies inside the frame (x1 and y1 at least 0, x2 at most the width, y2 at most the height). It contains the detected box clamped to the frame. Each side moves out by the full pad unless the frame edge stops it. |
| `Matcher.FrameNames` | attendance_capture.py:70-100 | A frame's labels, one per detected region in detection order, each the region's `RegionName` at tolerance 0.5. |
| `Matcher.RecognizeFrame` | attendance_capture.py:70-95 | One detection per region, in detection order, each holding the region's label and padded box. |
| `Attendance.KnownNames` | attendance_capture.py:100 | The frame's labels with "Unknown" removed. Every other label keeps its number of occurrences. |
| `Attendance.Tally` | attendance_capture.py:101-105 | The tracked labels after a frame are the earlier ones plus those recognised in the frame. None is forgotten. A tracked label that the frame does not recognise is at 0. |
| `Attendance.Next` | attendance_capture.py:100-116 | One frame never forgets a tracked label or unmarks a label. It only appends rows. Every label it newly marks is recognised in the frame and is not "Unknown". |
| `Attendance.Run` | attendance_capture.py:57-132 | The state after a sequence of frames, one `Next` per frame. Every marked label was recognised in at least one of the frames. |
| `Attendance.Confirmed` | attendance_capture.py:107-116 | A label is newly marked exactly when it appears in the frame, is not "Unknown", is not already marked, and its streak is at least 3. No label is marked twice. |
| `Attendance.NextKeepsInv` | attendance_capture.py:100-116 | A frame keeps the session invariant. "Unknown" is never tracked. Marked labels are tracked. The marked set equals the set of labels in the rows. No label has two rows. |
| `Attendance.StreakUpdate` | attendance_capture.py:100-105 | After a frame, each recognised label's streak is its old streak plus its number of sightings. Every other tracked label is 0. No label is removed, and "Unknown" is never added. |
| `Attendance.MarkingRule` | attendance_capture.py:107-116 | Existing rows are kept. A label becomes marked exactly when it is recognised, was unmarked, and has a new streak of at least 3. Its row carries the frame's time. |
| `Attendance.NextMarks` | attendance_capture.py:107-116 | After a frame, a label is marked exactly when it was marked before, or when it is recognised in the frame with a new streak of at least 3. |
| `Attendance.RunKeepsInv` | attendance_capture.py:100-116 | The session invariant holds after any sequence of frames. |
| `Attendance.StreakIsTrailingCount` | attendance_capture.py:100-105 | After a session, a label's streak is its number of sightings since the last frame that lacked it. A gap erases all earlier credit. |
| `Attendance.MarkedIffEverConfirmed` | attendance_capture.py:100-116 | A label is marked after a session exactly when its streak reached 3 at some frame. |
| `Attendance.ExactlyOneRowPerConfirmedLabel` | attendance_capture.py:107-116 | A label whose streak reached 3 at some frame has exactly one row, however many frames confirm it afterwards. Every other label has none. |
| `Attendance.RowsOnlyGrow` | attendance_capture.py:115 | Further frames only append rows. The rows of a session are a prefix of the rows of any longer session. |
| `Attendance.RunPrefixStep` | attendance_capture.py:57-116 | Processing frame i moves the session from its state after i frames to its state after i + 1 frames. |
| `Attendance.Session.constructor` | attendance_capture.py:46-48 | A new session has no streaks, no marked labels and no rows. |
| `Attendance.Session.Step` | attendance_capture.py:100-116 | The new state is `Next` of the old state, and the session invariant is kept. |
| `Attendance.Session.BumpStreaks` | attendance_capture.py:101-102 | Given a session whose invariant holds and labels without "Unknown", each label gains one per sighting, starting from 0 when it was untracked. The marked set and the rows are untouched, and the invariant still holds. |
| `Attendance.Session.ResetAbsent` | attendance_capture.py:103-105 | Tracked labels stay tracked. Those missing from the frame's recognised labels drop to 0, and the others keep their counts. The session invariant is kept. |
| `Attendance.Session.MarkConfirmed` | attendance_capture.py:107-116 | The newly confirmed labels of the frame are added to the marked set and appended as rows, in frame order. The streaks are untouched, and the session invariant is kept. |
| `Attendance.MarkKeepsInv` | attendance_capture.py:107-116 | Marking the labels a frame confirms keeps the session invariant: each of them is tracked, none of them already had a row, and they are distinct. |
| `Attendance.SavedSheet` | attendance_capture.py:137-148 | Nothing is written when the session has no rows. Otherwise the session's rows are written after the readable prior rows, or alone when there is no readable prior sheet. |
| `Attendance.SheetAfter` | attendance_capture.py:137-148 | The sheet left on disk after a save. A session without rows leaves the prior sheet as it was. Otherwise the sheet is readable and ends with the session's rows. |
| `Attendance.SavingTwiceAppends` | attendance_capture.py:137-148 | Saving session A and then session B to the same destination leaves the same sheet as saving A's rows followed by B's rows at once. This holds for every prior sheet (none, unreadable or readable) and for sessions with or without rows. |
| `Capture.FramesProcessed` | attendance_capture.py:57-132 | Every processed frame was grabbed. Only the last processed frame can carry the quit key. Processing stops at the first failed read, or right after a quit. |
| `Capture.SessionFrames` | attendance_capture.py:57-116 | The frames the session sees: one for each processed read, in order. Each holds the labels of that frame's regions and its clock reading. |
| `Capture.CaptureSession` | attendance_capture.py:50-135 | There are no rows when the camera does not open. Otherwise the rows are those of `Run` over the labelled frames processed before the loop stops. |
| `Capture.RunAttendance` | attendance_capture.py:41-148 | A gallery that does not load aborts with its error before any frame is read. Otherwise the sheet written is the session's rows merged into the prior sheet, or nothing when there are no rows. |
| `Scenarios.SingleSighting` | attendance_capture.py:100-116 | A frame with one recognised label raises its streak by one and zeroes all others. It marks the label, with one row, exactly when the label was unmarked and the new streak is at least 3. |
| `Scenarios.NoSighting` | attendance_capture.py:103-105 | A frame with nothing recognised zeroes every streak and leaves the marked set and the rows alone. |
| `Scenarios.SteadySighting` | attendance_capture.py:100-116 | Five frames recognising "Alice": there are no rows after frame 2, one row stamped with frame 3's time after frame 3, and still only that row after frame 5. |
| `Scenarios.GapResetsStreak` | attendance_capture.py:100-116 | For seen, missed, seen, seen, seen, the streaks are 1, 0, 1, 2, 3. There are no rows after frame 4, and one row stamped with frame 5's time after frame 5. |
| `Encodings.IsImageName` | create_encodings.py:25 | An accepted name is at least four characters long. Any name ending in ".png", ".jpg" or ".jpeg" as written is accepted. |
| `Encodings.ImageNameIgnoresCase` | create_encodings.py:25 | The extension test gives the same answer for a file name and its lower-cased form. |
| `Encodings.FileEncoding` | create_encodings.py:25-35 | A file contributes an embedding exactly when its name passes the extension test and at least one face was found in it. It contributes its first face. A file whose loading or embedding raised contributes nothing. |
| `Encodings.CollectPerson` | create_encodings.py:23-37 | The loop over one person's files collects exactly that directory's embeddings (`PersonEncodings`), in listing order, with one copy of the directory name per embedding, and counts them. |
| `Encodings.CreateEncodings` | create_encodings.py:9-42 | The loop's result equals `BuildGallery`. A missing dataset gives DatasetNotFound. The per-person log lines are `Reports` of the directory listing. |
| `Encodings.PairedLengths` | create_encodings.py:33-34 | The collected encodings and names always have the same length. |
| `Encodings.PersonProvenance` | create_encodings.py:23-35 | Every embedding a directory contributes is the first face of one of its image files. |
| `Encodings.Provenance` | create_encodings.py:16-35 | The i-th collected embedding is the first face of an image file with an accepted extension, inside a directory entry. The i-th name is that directory's name. Non-directory entries contribute nothing. |
| `Encodings.PersonCoverage` | create_encodings.py:23-35 | Every image file with an accepted extension and at least one face contributes its first face to its directory's embeddings. |
| `Encodings.Coverage` | create_encodings.py:16-35 | Every such file in a person directory appears in the gallery, labelled with that directory's name. |
| `Encodings.ReportedCountsAddUp` | create_encodings.py:22-39 | The per-person counts that are logged add up to the number of collected pairs. |
| `Encodings.BuildGallery` | create_encodings.py:9-42 | DatasetNotFound exactly when the dataset directory is missing. NoEncodings exactly when no image yielded an embedding. A successful build has as many names as embeddings, and at least one of each. |
| `Encodings.BuiltGalleryLoads` | create_encodings.py:44-46 | A gallery built successfully and stored loads back unchanged. |
| `Encodings.FacelessImageSkipped` | create_encodings.py:29-34 | In a directory with a faceless image and an image with a face, the faceless one is skipped and the gallery is built from the other. The upper-case extension ".PNG" is accepted. |

## Findings

| source | as written | input that shows it | evidently intended | confidence | as-written member | corrected member |
|---|---|---|---|---|---|---|
| attendance_capture.py:30-35 | `load_known` rejects only a missing file or an empty encodings list. It never checks that there is one name per encoding. | A stored dictionary with one encoding and no "names" key loads. The first region within tolerance of that encoding then reads `known_names[0]` at line 91, which does not exist. | Reject at start-up, with its own message, a file that has fewer names than encodings. A file with extra names stays accepted, since the matcher never reads them. | medium; not executed | `Gallery.LoadKnownAcceptsUnpairedFile` | `Gallery.LoadKnown` |

Files written by `create_encodings` always have one name per encoding (`Encodings.PairedLengths`),
so only a file produced some other way shows the problem. The rest of the model
loads the gallery with `Gallery.LoadKnown`.

## Left out

- Face detection (`detectMultiScale`), face embedding and `face_distance` are
  foreign numeric code. A region's box and the embedder's output are inputs,
  and the distance function is a parameter.
- Distances and the tolerance are reals. Float rounding and NaN distances are
  not modelled.
- `Matcher.Pad`: this is the integer form `(15 * w) / 100` of `int(0.15 * w)`.
  The float product is not modelled.
- Webcam acquisition, `imutils.resize`, colour conversion, drawing, `imshow`
  and `waitKey` are not modelled. The quit key is a flag on each grabbed frame.
  The camera is a finite feed, and running out of it ends the session like
  quitting. Releasing the camera and closing the windows are left out.
- The snapshot written with `cv2.imwrite` for each new row, its file name and
  `ensure_dirs` are file side effects and are left out.
- Each frame carries one clock reading. The code reads the clock once per new
  row, so two labels marked in the same frame may carry slightly different
  times there.
- The pickle load and dump, and the Excel read and write, are left out. The
  stored gallery is an `EncodingsFile` value, and the prior sheet a
  `PriorSheet` value. A corrupt pickle, or a pickle that is not a dictionary,
  is not modelled.
- `Encodings.IsImageName` lower-cases ASCII letters only. Python's `str.lower`
  also folds other Unicode letters.
- The directory listing (`os.listdir`, `os.path.isdir`) is an abstract list of
  entries in listing order. Logging is modelled only as the per-person
  reports.
