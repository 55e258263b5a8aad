/** The camera capture session: an event loop over camera frames and key
    presses. Key `s` enrols the first face of the frame under a label read from
    standard input, then asks whether to add another face; key `q` quits. The
    registry is held across iterations and grows by one entry per capture. */
module LoopFaceCapture {
  import opened Text
  import opened Registry
  import opened Detector
  import opened Prompts

  /** `ord('s')` and `ord('q')`. */
  const KEY_S: int := 115
  const KEY_Q: int := 113

  /** One turn of the loop: what `arcface.get` found in the frame and what
      `cv2.waitKey(1)` returned. A camera read failing (`ret` false) is the
      end of the frame sequence. */
  datatype FrameEvent = FrameEvent(faces: seq<Detection>, rawKey: int)

  /** `cv2.waitKey(1) & 0xFF`: the low byte, so "no key" (-1) reads as 255 and
      modifier bits above the low byte are dropped. */
  function KeyCode(raw: int): (k: int)
    ensures 0 <= k < 256
    ensures (raw - k) % 256 == 0
    ensures 0 <= raw < 256 ==> k == raw
    ensures raw == -1 ==> k == 255
  {
    raw % 256
  }

  /** Why the session loop stopped: `q`, a "no" to "add another face?", the
      camera delivering no frame, or `input()` raising EOFError. */
  datatype SessionEnd = Quit | Declined | FramesEnded | InputEnded

  /** One enrolment: the frame it came from, the input line that gave the
      label and the one that answered the yes/no prompt (`|lines|` if input
      ran out first), the stored entry, what `save_embeddings` reported and the
      registry handed to it. */
  datatype Capture = Capture(
    frame: nat, labelLine: nat, replyLine: nat,
    name: string, embedding: Embedding,
    saved: bool, snapshot: Registry)

  /** The entries a sequence of captures adds, in order. */
  function Entries(log: seq<Capture>): (r: Registry)
    ensures |r| == |log|
    ensures forall k :: 0 <= k < |log| ==> r[k] == Entry(log[k].name, log[k].embedding)
  {
    seq(|log|, k requires 0 <= k < |log| => Entry(log[k].name, log[k].embedding))
  }

  ghost predicate IsCaptureFrame(ev: FrameEvent)
  {
    KeyCode(ev.rawKey) == KEY_S && |ev.faces| > 0
  }

  ghost predicate IsQuitFrame(ev: FrameEvent)
  {
    KeyCode(ev.rawKey) == KEY_Q
  }

  /** A frame index at which a capture was logged. */
  ghost predicate Logged(log: seq<Capture>, i: int)
  {
    exists k :: 0 <= k < |log| && log[k].frame == i
  }

  /** The input line after a capture's reply, where the next label prompt
      starts reading; all of input when the reply never came. */
  ghost function NextLine(lines: seq<string>, c: Capture): int
  {
    if c.replyLine < |lines| then c.replyLine + 1 else |lines|
  }

  /** The input line at which the label prompt of capture k starts reading:
      only the prompts consume input, so it is the first line for the first
      capture and the line after the previous reply otherwise. */
  ghost function Cursor(lines: seq<string>, log: seq<Capture>, k: int): int
    requires 0 <= k <= |log|
  {
    if k == 0 then 0 else NextLine(lines, log[k - 1])
  }

  /** The k-th logged capture is what the loop does on an `s` frame with a
      face: it stores that frame's first embedding under the label read, which
      is the first line from the cursor that is acceptable against the
      registry as it stood, stripped; its reply is the first line after the
      label that the yes/no prompt accepts (none if input ran out); the k-th
      save reported `saved` and received the registry with the new entry. */
  ghost predicate ValidCapture(loaded: Registry, frames: seq<FrameEvent>, lines: seq<string>,
                               saveOk: nat -> bool, log: seq<Capture>, k: int)
    requires 0 <= k < |log|
  {
    var c := log[k];
    && c.frame < |frames|
    && IsCaptureFrame(frames[c.frame])
    && c.embedding == frames[c.frame].faces[0].embedding
    && FirstLabelAt(loaded + Entries(log[..k]), lines, Cursor(lines, log, k), c.labelLine)
    && c.name == Strip(lines[c.labelLine])
    && FirstChoiceAt(lines, c.labelLine + 1, c.replyLine)
    && c.saved == saveOk(k)
    && c.snapshot == loaded + Entries(log[..k + 1])
  }

  /** Capture k was answered "yes" and came from an earlier frame than
      capture k + 1. */
  ghost predicate ThenAnotherFace(lines: seq<string>, log: seq<Capture>, k: int)
    requires 0 <= k < |log| - 1
  {
    && log[k].frame < log[k + 1].frame
    && AnsweredYes(lines, log[k])
  }

  ghost predicate AnsweredYes(lines: seq<string>, c: Capture)
  {
    c.replyLine < |lines| && Lower(lines[c.replyLine]) == "yes"
  }

  ghost predicate ValidLog(loaded: Registry, frames: seq<FrameEvent>, lines: seq<string>,
                           saveOk: nat -> bool, log: seq<Capture>)
  {
    && (forall k :: 0 <= k < |log| ==> ValidCapture(loaded, frames, lines, saveOk, log, k))
    && (forall k :: 0 <= k < |log| - 1 ==> ThenAnotherFace(lines, log, k))
  }

  /** The last capture was answered "no". */
  ghost predicate AnsweredNo(lines: seq<string>, c: Capture)
  {
    c.replyLine < |lines| && Lower(lines[c.replyLine]) == "no"
  }

  /** The state of the loop after `framesRead` frames without stopping: the
      registry is the loaded one plus the captured entries, the log is valid,
      every `s` frame with a face so far was captured (and nothing else), no
      frame so far was a `q`, the last capture was answered "yes", and input
      has been read up to the line after that reply. */
  ghost predicate Running(loaded: Registry, frames: seq<FrameEvent>, lines: seq<string>, saveOk: nat -> bool,
                          reg: Registry, log: seq<Capture>, framesRead: nat, linesRead: nat)
  {
    && framesRead <= |frames| && linesRead <= |lines|
    && linesRead == Cursor(lines, log, |log|)
    && reg == loaded + Entries(log) && Distinct(reg)
    && ValidLog(loaded, frames, lines, saveOk, log)
    && (forall k :: 0 <= k < |log| ==> log[k].frame < framesRead && log[k].replyLine < linesRead)
    && (0 < |log| ==> AnsweredYes(lines, log[|log| - 1]))
    && (forall i :: 0 <= i < framesRead ==> (IsCaptureFrame(frames[i]) <==> Logged(log, i)))
    && (forall i :: 0 <= i < framesRead ==> !IsQuitFrame(frames[i]))
  }

  /** The state in which the loop stops for reason `end`. Besides what
      Running keeps: `q` stops at its own frame, "no" stops at the frame of
      the last capture, the loop reaches the end of the frames only when no
      frame was a `q`, and input runs out either at the yes/no prompt of a
      capture on the last frame or at the label prompt of the last frame, with
      then no line from the cursor on acceptable and the capture before it, if
      any, answered "yes". */
  ghost predicate Stopped(loaded: Registry, frames: seq<FrameEvent>, lines: seq<string>, saveOk: nat -> bool,
                          end: SessionEnd, reg: Registry, log: seq<Capture>, framesRead: nat, linesRead: nat)
  {
    && framesRead <= |frames| && linesRead <= |lines|
    && reg == loaded + Entries(log) && Distinct(reg)
    && ValidLog(loaded, frames, lines, saveOk, log)
    && (forall k :: 0 <= k < |log| ==> log[k].frame < framesRead && log[k].replyLine <= linesRead)
    && (forall i :: 0 <= i < framesRead && (i < framesRead - 1 || end != InputEnded) ==>
          (IsCaptureFrame(frames[i]) <==> Logged(log, i)))
    && (end != InputEnded ==> linesRead == Cursor(lines, log, |log|))
    && (forall i :: 0 <= i < framesRead - 1 ==> !IsQuitFrame(frames[i]))
    && (end == FramesEnded ==>
          framesRead == |frames| && forall i :: 0 <= i < framesRead ==> !IsQuitFrame(frames[i]))
    && ((end == FramesEnded || end == Quit) && 0 < |log| ==> AnsweredYes(lines, log[|log| - 1]))
    && (end == Quit ==> 0 < framesRead && IsQuitFrame(frames[framesRead - 1]))
    && (end == Declined ==>
          0 < |log| && log[|log| - 1].frame == framesRead - 1 && AnsweredNo(lines, log[|log| - 1]))
    && (end == InputEnded ==>
          && 0 < framesRead && IsCaptureFrame(frames[framesRead - 1]) && linesRead == |lines|
          && if 0 < |log| && log[|log| - 1].frame == framesRead - 1 then log[|log| - 1].replyLine == |lines|
             else && !Logged(log, framesRead - 1)
                  && (0 < |log| ==> AnsweredYes(lines, log[|log| - 1]))
                  && forall j :: Cursor(lines, log, |log|) <= j < |lines| ==> !AcceptsLabel(reg, lines[j]))
  }

  /** `main` after the camera is open and the registry loaded. `saveOk(k)` is
      what the k-th call of `save_embeddings` reports. */
  method Session(loaded: Registry, frames: seq<FrameEvent>, lines: seq<string>, saveOk: nat -> bool)
    returns (end: SessionEnd, reg: Registry, log: seq<Capture>, framesRead: nat, linesRead: nat)
    requires Distinct(loaded)
    // the registry only ever grows by the captured entries, in capture order;
    // a failed save is not rolled back
    ensures reg == loaded + Entries(log) && Distinct(reg)
    ensures Stopped(loaded, frames, lines, saveOk, end, reg, log, framesRead, linesRead)
  {
    reg, log, framesRead, linesRead := loaded, [], 0, 0;
    StartRunning(loaded, frames, lines, saveOk);
    end := FramesEnded;
    while framesRead < |frames|
      invariant end == FramesEnded
      invariant Running(loaded, frames, lines, saveOk, reg, log, framesRead, linesRead)
    {
      var event := frames[framesRead];
      var key := KeyCode(event.rawKey);
      if key == KEY_S {
        if |event.faces| > 0 {
          var log', reg', stop, next := CaptureFace(loaded, frames, lines, saveOk, log, reg, framesRead, linesRead);
          AfterCapture(loaded, frames, lines, saveOk, reg, log, framesRead, linesRead, reg', log', stop, next);
          log, reg, framesRead, linesRead := log', reg', framesRead + 1, next;
          if stop.Some? {
            end := stop.value;
            break;
          }
          continue;
        }
      }
      if key == KEY_Q {
        QuitAt(loaded, frames, lines, saveOk, reg, log, framesRead, linesRead);
        end, framesRead := Quit, framesRead + 1;
        break;
      }
      SkipFrame(loaded, frames, lines, saveOk, reg, log, framesRead, linesRead);
      framesRead := framesRead + 1;
    }
    if end == FramesEnded {
      FramesDone(loaded, frames, lines, saveOk, reg, log, framesRead, linesRead);
    }
  }

  lemma StartRunning(loaded: Registry, frames: seq<FrameEvent>, lines: seq<string>, saveOk: nat -> bool)
    requires Distinct(loaded)
    ensures Running(loaded, frames, lines, saveOk, loaded, [], 0, 0)
  {
    assert loaded + Entries([]) == loaded;
  }

  /** A frame that is neither a capture nor a quit leaves the state alone. */
  lemma SkipFrame(loaded: Registry, frames: seq<FrameEvent>, lines: seq<string>, saveOk: nat -> bool,
                  reg: Registry, log: seq<Capture>, framesRead: nat, linesRead: nat)
    requires Running(loaded, frames, lines, saveOk, reg, log, framesRead, linesRead)
    requires framesRead < |frames|
    requires !IsCaptureFrame(frames[framesRead]) && !IsQuitFrame(frames[framesRead])
    ensures Running(loaded, frames, lines, saveOk, reg, log, framesRead + 1, linesRead)
  {
    assert !Logged(log, framesRead);
  }

  /** A `q` frame stops the loop. */
  lemma QuitAt(loaded: Registry, frames: seq<FrameEvent>, lines: seq<string>, saveOk: nat -> bool,
               reg: Registry, log: seq<Capture>, framesRead: nat, linesRead: nat)
    requires Running(loaded, frames, lines, saveOk, reg, log, framesRead, linesRead)
    requires framesRead < |frames| && IsQuitFrame(frames[framesRead])
    ensures Stopped(loaded, frames, lines, saveOk, Quit, reg, log, framesRead + 1, linesRead)
  {
    assert !Logged(log, framesRead);
  }

  /** Running out of frames stops the loop. */
  lemma FramesDone(loaded: Registry, frames: seq<FrameEvent>, lines: seq<string>, saveOk: nat -> bool,
                   reg: Registry, log: seq<Capture>, framesRead: nat, linesRead: nat)
    requires Running(loaded, frames, lines, saveOk, reg, log, framesRead, linesRead)
    requires framesRead == |frames|
    ensures Stopped(loaded, frames, lines, saveOk, FramesEnded, reg, log, framesRead, linesRead)
  {
  }

  /** After the capture on frame `framesRead` the loop goes on (a "yes") or
      stops (a "no" or end of input). */
  lemma AfterCapture(loaded: Registry, frames: seq<FrameEvent>, lines: seq<string>, saveOk: nat -> bool,
                     reg: Registry, log: seq<Capture>, framesRead: nat, linesRead: nat,
                     reg': Registry, log': seq<Capture>, stop: Option<SessionEnd>, next: nat)
    requires Running(loaded, frames, lines, saveOk, reg, log, framesRead, linesRead)
    requires framesRead < |frames| && IsCaptureFrame(frames[framesRead])
    requires CaptureStep(loaded, frames, lines, saveOk, log, framesRead, linesRead, reg', log', stop, next)
    ensures stop.None? ==> Running(loaded, frames, lines, saveOk, reg', log', framesRead + 1, next)
    ensures stop.Some? ==> Stopped(loaded, frames, lines, saveOk, stop.value, reg', log', framesRead + 1, next)
  {
    LoggedElsewhere(log, log', framesRead);
    forall k | 0 <= k < |log'| ensures log'[k].frame < framesRead + 1 && log'[k].replyLine <= next {
      if k < |log| {
        assert log'[k] == log[k];
      }
    }
    if stop.None? {
      forall k | 0 <= k < |log'| ensures log'[k].replyLine < next {
        if k < |log| {
          assert log'[k] == log[k];
        }
      }
    }
  }

  /** What one `s` frame with a face does, from log `log` and input cursor
      `start` to log `log'` and cursor `next`: at most one capture, at frame
      `frame`, is appended, and none only when no line from `start` on is an
      acceptable label; the registry stays the loaded one plus the captured
      entries and the log stays valid; the cursor moves past the reply;
      `stop` is None after a "yes", Declined after a "no" and InputEnded when
      input ran out. */
  ghost predicate CaptureStep(loaded: Registry, frames: seq<FrameEvent>, lines: seq<string>, saveOk: nat -> bool,
                              log: seq<Capture>, frame: nat, start: nat,
                              reg': Registry, log': seq<Capture>, stop: Option<SessionEnd>, next: nat)
  {
    && start <= next <= |lines|
    && reg' == loaded + Entries(log') && Distinct(reg')
    && ValidLog(loaded, frames, lines, saveOk, log')
    && (log' == log || (|log'| == |log| + 1 && log'[..|log|] == log && log'[|log|].frame == frame))
    && (|log'| == |log| + 1 ==> next == NextLine(lines, log'[|log|]))
    && (stop.None? || stop == Some(InputEnded) || stop == Some(Declined))
    && (log' == log ==> stop == Some(InputEnded))
    && (log' == log ==> forall j :: start <= j < |lines| ==> !AcceptsLabel(reg', lines[j]))
    && (stop == Some(InputEnded) && |log'| == |log| + 1 ==> log'[|log|].replyLine == |lines|)
    && (stop.None? ==> |log'| == |log| + 1 && log'[|log|].replyLine < next && AnsweredYes(lines, log'[|log|]))
    && (stop == Some(Declined) ==> |log'| == |log| + 1 && AnsweredNo(lines, log'[|log|]))
    && (stop == Some(InputEnded) ==> next == |lines|)
  }

  /** The body of `if key == ord('s')` for a frame with a face: store the
      first face's embedding under a label read from standard input, save,
      and ask whether to add another face. `stop` says why the session ends
      here, if it does. */
  method CaptureFace(loaded: Registry, frames: seq<FrameEvent>, lines: seq<string>, saveOk: nat -> bool,
                     log: seq<Capture>, reg: Registry, frame: nat, start: nat)
    returns (log': seq<Capture>, reg': Registry, stop: Option<SessionEnd>, next: nat)
    requires Running(loaded, frames, lines, saveOk, reg, log, frame, start)
    requires frame < |frames| && IsCaptureFrame(frames[frame])
    ensures CaptureStep(loaded, frames, lines, saveOk, log, frame, start, reg', log', stop, next)
  {
    var embedding := frames[frame].faces[0].embedding;
    var name, afterLabel := PromptLabel(reg, lines, start);
    next := afterLabel;
    if name.None? {
      return log, reg, Some(InputEnded), next;
    }
    reg' := Assign(reg, name.value, embedding);
    var saved := saveOk(|log|);
    var more, afterReply := PromptChoice(lines, next);
    next := afterReply;
    var replyLine := if more.Some? then afterReply - 1 else |lines|;
    var capture := Capture(frame, afterLabel - 1, replyLine, name.value, embedding, saved, reg');
    if more.None? {
      stop := Some(InputEnded);
    } else if !more.value {
      stop := Some(Declined);
    } else {
      stop := None;
    }
    log' := log + [capture];
    AppendCapture(loaded, frames, lines, saveOk, log, reg, frame, start, capture, stop, next);
  }

  /** The step that logs capture `c`, whose reply (if any) is `stop`. */
  lemma AppendCapture(loaded: Registry, frames: seq<FrameEvent>, lines: seq<string>, saveOk: nat -> bool,
                      log: seq<Capture>, reg: Registry, frame: nat, start: nat,
                      c: Capture, stop: Option<SessionEnd>, next: nat)
    requires Running(loaded, frames, lines, saveOk, reg, log, frame, start)
    requires frame < |frames| && IsCaptureFrame(frames[frame])
    requires c.frame == frame && c.embedding == frames[frame].faces[0].embedding
    requires FirstLabelAt(reg, lines, start, c.labelLine) && c.name == Strip(lines[c.labelLine])
    requires FirstChoiceAt(lines, c.labelLine + 1, c.replyLine) && next == NextLine(lines, c)
    requires c.saved == saveOk(|log|)
    requires c.snapshot == Assign(reg, c.name, c.embedding)
    requires stop.None? || stop == Some(InputEnded) || stop == Some(Declined)
    requires stop.None? ==> AnsweredYes(lines, c)
    requires stop == Some(Declined) ==> AnsweredNo(lines, c)
    requires stop == Some(InputEnded) ==> c.replyLine == |lines|
    ensures CaptureStep(loaded, frames, lines, saveOk, log, frame, start, c.snapshot, log + [c], stop, next)
  {
    assert c.snapshot == reg + [Entry(c.name, c.embedding)];
    ExtendLog(loaded, frames, lines, saveOk, log, c);
    assert (log + [c])[..|log|] == log;
  }

  /** Logging at most one capture, at frame `frame`, changes for no other frame
      whether a capture was logged there. */
  lemma LoggedElsewhere(log: seq<Capture>, log': seq<Capture>, frame: int)
    requires log' == log || (|log'| == |log| + 1 && log'[..|log|] == log && log'[|log|].frame == frame)
    ensures forall i :: i != frame ==> (Logged(log', i) <==> Logged(log, i))
    ensures |log'| == |log| + 1 ==> Logged(log', frame)
  {
    if log' != log {
      forall i | i != frame && Logged(log', i) ensures Logged(log, i) {
        var k :| 0 <= k < |log'| && log'[k].frame == i;
        assert k < |log| && log[k] == log'[k];
      }
      forall i | Logged(log, i) ensures Logged(log', i) {
        var k :| 0 <= k < |log| && log[k].frame == i;
        assert log'[k] == log[k];
      }
      assert log'[|log|].frame == frame;
    }
  }

  /** A valid log stays valid when a capture that meets the conditions of
      ValidCapture is appended after a "yes". */
  lemma ExtendLog(loaded: Registry, frames: seq<FrameEvent>, lines: seq<string>,
                  saveOk: nat -> bool, log: seq<Capture>, c: Capture)
    requires ValidLog(loaded, frames, lines, saveOk, log)
    requires c.frame < |frames| && IsCaptureFrame(frames[c.frame])
    requires c.embedding == frames[c.frame].faces[0].embedding
    requires FirstLabelAt(loaded + Entries(log), lines, Cursor(lines, log, |log|), c.labelLine)
    requires c.name == Strip(lines[c.labelLine])
    requires FirstChoiceAt(lines, c.labelLine + 1, c.replyLine)
    requires c.saved == saveOk(|log|)
    requires c.snapshot == loaded + Entries(log) + [Entry(c.name, c.embedding)]
    requires 0 < |log| ==> log[|log| - 1].frame < c.frame && AnsweredYes(lines, log[|log| - 1])
    ensures ValidLog(loaded, frames, lines, saveOk, log + [c])
    ensures Entries(log + [c]) == Entries(log) + [Entry(c.name, c.embedding)]
  {
    var log' := log + [c];
    assert Entries(log') == Entries(log) + [Entry(c.name, c.embedding)];
    forall k | 0 <= k < |log'| ensures ValidCapture(loaded, frames, lines, saveOk, log', k) {
      assert log'[..k] == log[..k];
      assert Cursor(lines, log', k) == Cursor(lines, log, k);
      if k < |log| {
        assert log'[..k + 1] == log[..k + 1];
        assert ValidCapture(loaded, frames, lines, saveOk, log, k);
      } else {
        assert log'[..k] == log;
        assert log'[..k + 1] == log';
      }
    }
    forall k | 0 <= k < |log'| - 1 ensures ThenAnotherFace(lines, log', k) {
      if k < |log| - 1 {
        assert ThenAnotherFace(lines, log, k);
      }
    }
  }

  /** Within a session every accepted label is new: none was in the loaded
      registry and no two captures share one. */
  lemma CapturedLabelsDistinct(loaded: Registry, log: seq<Capture>)
    requires Distinct(loaded + Entries(log))
    ensures forall k :: 0 <= k < |log| ==> log[k].name !in Labels(loaded)
    ensures forall k1, k2 :: 0 <= k1 < k2 < |log| ==> log[k1].name != log[k2].name
  {
    var all := loaded + Entries(log);
    forall k | 0 <= k < |log| ensures log[k].name !in Labels(loaded) {
      assert all[|loaded| + k].name == log[k].name;
      forall i | 0 <= i < |loaded| ensures loaded[i].name != log[k].name {
        assert all[i] == loaded[i];
      }
    }
    forall k1, k2 | 0 <= k1 < k2 < |log| ensures log[k1].name != log[k2].name {
      assert all[|loaded| + k1].name == log[k1].name;
      assert all[|loaded| + k2].name == log[k2].name;
    }
  }
}
