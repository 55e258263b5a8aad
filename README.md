# Face registry: matcher, enrolment and capture session

This project models the logic at the heart of a small face-recognition
system. A registry maps labels to face embeddings. Three operations use it:

- **`process_face`** (the browser-facing service) reports, for every detected
  face, the best-matching label, its similarity and the integer bounding box.
- **`capture_faces` / `compare_faces`** (the one-shot image tool) enrol the
  first face of an image under a label typed on the console, or annotate every
  face of an image with its match.
- **`main`** (the camera capture session) is an event loop over camera frames
  and key presses. Key `s` enrols the first face of the frame under a label
  read from standard input and then asks "add another face? (yes/no)". Key `q`
  quits.

The registry is a sequence of `(label, embedding)` entries with pairwise
distinct labels, kept in insertion order. A Python dict, and the pickle that
stores it, keeps that order, and the matcher's first-seen tie-break depends on
it. The matcher scans the registry in order and keeps an entry only if its
similarity is strictly above 0.6 and strictly above the best so far (which
starts at `Unknown` with 0).

How the outside world enters the model:

- Similarity (cosine similarity of embeddings) is an uninterpreted function
  parameter.
- The detector's output is data: a sequence of detections, each with a box
  of reals and an embedding.
- Standard input is a sequence of lines read through a cursor. Running out of
  lines is Python's `input()` raising EOFError.
- The camera is a finite sequence of frame events, each holding the faces
  found and the raw `waitKey` code. The end of the sequence is `cap.read()`
  failing.
- The outcome of each `save_embeddings` call is a parameter. In the session it
  is a function of the call's index: `saveOk(k)` is what the k-th save
  reports.

Modules:

| module | contents |
|---|---|
| `Text` | Python's `str.strip()` (the `str.isspace` character set) and `str.lower()` restricted to ASCII |
| `Registry` | entries, labels, dictionary assignment and lookup |
| `Detector` | detections and `bbox.astype(int)` |
| `Matcher` | the strict-threshold, first-maximum matcher and its specification `IsBestMatch` |
| `MultiFaceTest` | `process_face` |
| `Prompts` | the label prompt and the yes/no prompt |
| `FaceCompare` | `capture_faces` and `compare_faces` |
| `LoopFaceCapture` | the session loop of `main` |
| `SessionScenarios` | concrete sessions whose outcome the session contract determines |

The session is specified by a log of captures. Each capture records:

- its frame;
- the input line that gave its label and the line that answered the yes/no
  prompt. Only the two prompts read input, so each label prompt starts at the
  line after the previous reply, and the first at line 0;
- the stored entry;
- what the save reported, and the registry handed to the save.

`ValidLog` says what each capture must satisfy and how consecutive captures
are ordered.

## Model

| member | source | states |
|---|---|---|
| Matcher.BestMatch | logic/multi_face_test.py:38-42 | the scan returns the first entry holding the maximum score, when that maximum is strictly above 0.6, and otherwise `Unknown` with 0; `found` holds exactly when some score is above 0.6, and a found label is a registry key |
| Matcher.BestMatchUnique | logic/multi_face_test.py:38-42 | the matcher's specification admits one result per registry and score sequence |
| Matcher.AtOrBelowThresholdIsUnknown | logic/multi_face_test.py:41 | if no score is strictly above 0.6 the result is `Unknown` with similarity 0 |
| Matcher.EmptyRegistryIsUnknown | logic/multi_face_test.py:38-42 | an empty registry gives `Unknown` with 0 for every probe |
| Matcher.ThresholdBoundary | logic/multi_face_test.py:41 | a score of exactly 0.6 is rejected; 0.6000001 is accepted |
| Matcher.MatchIsMaximum | logic/multi_face_test.py:39-42 | a reported match carries the maximum score over all entries, that maximum is above 0.6, and its label is a key |
| Matcher.TieGoesToEarlier | logic/multi_face_test.py:41 | of two entries with the same maximal score, the later one is not reported |
| Matcher.FoundIffKnownLabel | face_compare.py:95-102 | when no entry is labelled "Unknown", a match was found exactly when the reported label is not "Unknown" |
| Matcher.UnknownLabelIsAmbiguous | face_compare.py:96-102 | an entry labelled "Unknown" that matches is reported under the sentinel's label |
| MultiFaceTest.ProcessFace | logic/multi_face_test.py:31-55 | one result per detection, in detection order; each carries the detection's box truncated to integers and the best match of its embedding; no detections give an empty list |
| Detector.Trunc | logic/multi_face_test.py:35 | conversion of one coordinate truncates toward zero, for both signs |
| Detector.TruncBox | logic/multi_face_test.py:35 | the box keeps its length, and each coordinate is truncated |
| Detector.TruncWhole | logic/multi_face_test.py:35 | a box whose coordinates are already whole numbers comes through the conversion unchanged |
| Registry.Labels | face_compare.py:61 | a label is a key exactly when some entry carries it |
| Registry.Assign | face_compare.py:65 | assignment keeps keys distinct and adds the key; a new key goes to the end; an existing key keeps its place and takes the new value |
| Registry.Lookup | face_compare.py:65 | the dictionary read used to state what an assignment does (the program itself only tests membership): it fails exactly for a missing key and otherwise returns the value of an entry with that key |
| Registry.AssignLookup | face_compare.py:65 | after an assignment the key reads back the new value and every other key reads back its old value |
| Registry.LookupAt | face_compare.py:65 | in a registry with distinct keys, the dictionary read returns the value stored at any entry with that key |
| Text.StripSpec | face_compare.py:57 | `strip()` returns the middle of its input, with only whitespace cut from either end and no whitespace left at either edge |
| Text.TrimLeftSpec | face_compare.py:57 | left trimming cuts exactly the leading whitespace |
| Text.TrimRightSpec | face_compare.py:57 | right trimming cuts exactly the trailing whitespace |
| Text.StripIdempotent | face_compare.py:57 | stripping twice is stripping once |
| Text.StripEmptyIff | face_compare.py:57-60 | a line strips to the empty label exactly when it is all whitespace |
| Text.Lower | logic/loop_face_capture.py:83 | lowering keeps the length and maps each character |
| Text.LowerIsYes | logic/loop_face_capture.py:83-84 | a line lowers to "yes" exactly when its three characters are y, e, s in either case |
| Text.LowerIsNo | logic/loop_face_capture.py:83-84 | a line lowers to "no" exactly when its two characters are n, o in either case |
| Prompts.PromptLabel | logic/loop_face_capture.py:65-72 | returns the first line at or after the cursor that is non-empty after stripping and not a key, stripped, with every earlier line rejected; when no line qualifies, input runs out |
| Prompts.PromptChoice | logic/loop_face_capture.py:82-86 | returns the first line at or after the cursor that lowers to "yes" or "no" and says which; when no line qualifies, input runs out |
| FaceCompare.CaptureFaces | face_compare.py:47-71 | an undecodable image is an error and touches nothing; no face stores and saves nothing; in both cases no input line is read; otherwise only the first face's embedding is stored under the first acceptable label, as a new last entry, and save is called once with the new registry |
| FaceCompare.CompareFaces | face_compare.py:92-118 | one annotation per face in detection order, each with the truncated box, green with the label and similarity when a match was found and red with "No Match" otherwise; `matches` is the best match of the last face; with no face `best_match` is unbound |
| LoopFaceCapture.KeyCode | logic/loop_face_capture.py:57 | the key code is the low byte of the raw code: it lies in 0..255 and differs from the raw code by a multiple of 256, so modifier bits are dropped, codes below 256 come through and "no key" (-1) reads as 255 |
| LoopFaceCapture.Entries | logic/loop_face_capture.py:75 | the entries a log of captures adds, one per capture, in order |
| LoopFaceCapture.Session | logic/loop_face_capture.py:40-94 | the registry is the loaded one plus one entry per capture, in order, with keys distinct; each capture stores its frame's first embedding under the first line from its cursor that is non-empty after stripping and not yet a key, stripped, and its reply is the first later line that lowers to "yes" or "no"; every `s` frame with a face is captured and nothing else is; every capture but the last was answered "yes"; the loop stops at the first `q`, at a "no", when frames run out with no `q` seen, or when input runs out at the label prompt (no line left is acceptable, nothing stored) or at the yes/no prompt (entry stored); input is consumed up to the line after the last reply; the registry is kept whatever the saves report |
| LoopFaceCapture.CaptureFace | logic/loop_face_capture.py:59-89 | an `s` frame with a face appends one capture for that frame, labelled by the first acceptable line from the cursor and answered by the first accepted reply, and moves the cursor past the reply; it appends nothing only when no line left is an acceptable label; the loop goes on after "yes", stops after "no", and stops when input runs out |
| LoopFaceCapture.StartRunning | logic/loop_face_capture.py:40-42 | the loop starts from the loaded registry with no captures |
| LoopFaceCapture.SkipFrame | logic/loop_face_capture.py:59-60 | a frame that is neither an `s` with a face nor a `q` changes nothing, including an `s` frame with no face |
| LoopFaceCapture.QuitAt | logic/loop_face_capture.py:93-94 | a `q` frame stops the loop without touching the registry |
| LoopFaceCapture.FramesDone | logic/loop_face_capture.py:44-47 | a failed camera read stops the loop with the registry as it stands |
| LoopFaceCapture.AfterCapture | logic/loop_face_capture.py:82-89 | after a capture, "yes" keeps the loop running and "no" or end of input stops it |
| LoopFaceCapture.AppendCapture | logic/loop_face_capture.py:62-79 | logging one capture whose label was accepted against the current registry keeps the log valid and the registry equal to the loaded one plus the captured entries |
| LoopFaceCapture.ExtendLog | logic/loop_face_capture.py:70-79 | a valid log stays valid when a capture taken after a "yes" is appended |
| LoopFaceCapture.LoggedElsewhere | logic/loop_face_capture.py:59-60 | logging a capture for one frame changes for no other frame whether it was captured |
| LoopFaceCapture.CapturedLabelsDistinct | logic/loop_face_capture.py:70-75 | within a session no captured label was a key of the loaded registry and no two captures share a label |
| FaceCompare.Decorate | face_compare.py:104-105 | the colour is green exactly when a match was found and red otherwise; the caption carries the best match's label and similarity exactly when a match was found, and is "No Match" otherwise |
| Matcher.Scores | logic/multi_face_test.py:39-40 | one similarity per registry entry, in registry order, each the similarity of the probe to that entry's embedding |
| SessionScenarios.FirstLabelIsStored | logic/loop_face_capture.py:65-89 | with one `s` frame and the replies "alice", "bob", "no", the session stores "alice" and ends on the "no" after three lines |
| SessionScenarios.FirstReplyDecides | logic/loop_face_capture.py:82-89 | with one `s` frame and the replies "bob", "no", "yes", the session stores "bob" and declines after two lines |
| SessionScenarios.QuitAfterYes | logic/loop_face_capture.py:59-94 | with an `s` frame, a `q` frame and the replies "bob", "yes", the session stores "bob" and quits at the second frame |
| SessionScenarios.QuitIsNotFramesEnded | logic/loop_face_capture.py:93-94 | a single `q` frame ends the session as a quit, with nothing stored |
| SessionScenarios.NoEndsAtItsFrame | logic/loop_face_capture.py:82-89 | with two `s` frames and the replies "a", "no", the session stores "a" and declines at the first frame, never reading the second |
| SessionScenarios.InputEndsAtReply | logic/loop_face_capture.py:82-86 | with two `s` frames and the single reply "a", input runs out at the first frame's yes/no prompt with "a" stored and the second frame never read |
| SessionScenarios.AliceBobNo | logic/loop_face_capture.py:65-86 | the prompts accept "alice" as a label, refuse "bob" at the yes/no prompt and accept the "no" after it |
| SessionScenarios.OneFrameSession | logic/loop_face_capture.py:59-89 | over any loaded registry: in a one-frame session on an `s` frame with a face whose first line is an acceptable label against that registry, exactly one capture is logged, for that frame, answered by the first accepted reply after the label, and the registry is the loaded one plus that entry |
| SessionScenarios.StopsAtFirstOfTwo | logic/loop_face_capture.py:59-94 | over any loaded registry and two `s` frames with faces, whose first line is an acceptable label against that registry: when the first accepted reply is not "yes" the session stops at the first frame with that single capture, and the registry is the loaded one plus that entry |
| SessionScenarios.ReadsAFrame | logic/loop_face_capture.py:42-47 | over any loaded registry, a session over at least one frame stops having read a frame |
| SessionScenarios.FirstCapture | logic/loop_face_capture.py:59-89 | over any loaded registry: when the first frame is an `s` with a face and the first line an acceptable label against that registry, the first capture is that frame, labelled by line 0 and answered by the first accepted reply after it |
| SessionScenarios.NoMoreAfterFirst | logic/loop_face_capture.py:87-89 | a first capture not answered "yes" is the only one |
| SessionScenarios.YesThenQuitLog | logic/loop_face_capture.py:59-89 | with an `s` frame, a `q` frame and the replies "bob", "yes", exactly one capture is logged, at the first frame, labelled by the first line and answered by the second |
| SessionScenarios.FirstFrameCaptured | logic/loop_face_capture.py:59-72 | over any loaded registry: when the first frame is an `s` with a face and the first line is an acceptable label against that registry, the first capture comes from the first frame |
| SessionScenarios.FirstCaptureReadsFrom | logic/loop_face_capture.py:65-72 | over any loaded registry, the first capture's label is the first line of input acceptable against that registry, and its reply the first accepted line after it |
| SessionScenarios.CapturesInFrameOrder | logic/loop_face_capture.py:42-60 | at most one capture per frame, in frame order: capture k comes from frame k or later |
| Registry.SameNames | face_compare.py:65 | overwriting values in place keeps the keys and their distinctness |
| Registry.AppendFresh | face_compare.py:65 | appending an entry under a new key keeps keys distinct and adds exactly that key |

## Left out

- The detector and embedding model (`arcface.get`, `normed_embedding`) are foreign calls. Their output is an input of the model.
- `cosine_similarity` is floating-point numerics. It is an uninterpreted real-valued function, and reals are exact, so float rounding near 0.6 and NaN are not modelled.
- Several library steps are not modelled:
  - base64 splitting and decoding, `cv2.imdecode`/`imencode` and `cvtColor`;
  - the drawing calls `cv2.rectangle` and `putText`;
  - `compare_faces` receiving an undecodable frame (`None` passed into the detector).

  These are codec and rendering library calls. An undecodable image in `capture_faces` is modelled as `None` detections.
- FaceCompare.CompareFaces: the caption keeps the label and the exact similarity, without the `:.2f` two-decimal formatting.
- Pickle load and save and `os.path.exists` are file I/O:
  - `load_embeddings` is modelled by its result, the `loaded` parameter;
  - `save_embeddings` is modelled by the success it reports (`saveOk`).

  The success or failure message it prints is also not modelled.
- `print` output and console prompt texts are not modelled.
- The camera is not modelled:
  - opening it and the `RuntimeError` when it cannot be opened (logic/loop_face_capture.py:35-37);
  - `imshow` and `waitKey` as devices;
  - window teardown.

  Only the resulting key and detection events are inputs.
- The module-level model and registry initialisation is not modelled; the registry is passed explicitly.
- app.py is HTTP and network plumbing plus a thread and is not part of this model: the Flask route, the mapping of exceptions to JSON, `get_local_ip` and the browser-launch timer.
- static/script.js is browser UI and is not part of this model.
- Text.Lower: lowers ASCII letters only. No other character lowers to one of the letters of "yes" or "no", so acceptance of the yes/no prompt is unaffected.
- Registry.Assign: the in-place dictionary update is modelled as a registry value that the loop reassigns. The dict only leaves the loop through the save, which the model records as a snapshot.
- Matcher.FoundIffKnownLabel: `match_found` is true exactly when the reported label is not "Unknown" only if no registry entry is labelled "Unknown". The label prompt accepts "Unknown" as a label, and Matcher.UnknownLabelIsAmbiguous shows the reported label is then ambiguous.
