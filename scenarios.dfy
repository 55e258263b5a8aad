/** Concrete sessions whose outcome the session contract determines: the
    label stored is the first acceptable line, the reply is the first line the
    yes/no prompt accepts, and the end reason is the one the loop reaches. */
module SessionScenarios {
  import opened Text
  import opened Registry
  import opened Detector
  import opened Prompts
  import opened LoopFaceCapture

  /** One `s` frame with a face and the replies "alice", "bob", "no": the
      session stores "alice" and ends on the "no". */
  lemma FirstLabelIsStored(e: Embedding, box: seq<real>, saveOk: nat -> bool, end: SessionEnd,
                           reg: Registry, log: seq<Capture>, framesRead: nat, linesRead: nat)
    requires Stopped([], [FrameEvent([Detection(box, e)], KEY_S)], ["alice", "bob", "no"], saveOk,
                     end, reg, log, framesRead, linesRead)
    ensures end == Declined && reg == [Entry("alice", e)] && linesRead == 3
  {
    var frames := [FrameEvent([Detection(box, e)], KEY_S)];
    var lines := ["alice", "bob", "no"];
    assert IsCaptureFrame(frames[0]) && !IsQuitFrame(frames[0]);
    AliceBobNo(lines);
    OneFrameSession([], frames, lines, saveOk, end, reg, log, framesRead, linesRead, 2);
  }

  /** How the prompts read the replies "alice", "bob", "no": "alice" is a
      label, "bob" is refused by the yes/no prompt and "no" is accepted. */
  lemma AliceBobNo(lines: seq<string>)
    requires lines == ["alice", "bob", "no"]
    ensures Strip(lines[0]) == "alice" && AcceptsLabel([], lines[0])
    ensures FirstChoiceAt(lines, 1, 2) && Lower(lines[2]) == "no"
  {
  }

  /** One `s` frame with a face and the replies "bob", "no", "yes": the first
      reply the yes/no prompt accepts is "no", so the session declines. */
  lemma FirstReplyDecides(e: Embedding, box: seq<real>, saveOk: nat -> bool, end: SessionEnd,
                          reg: Registry, log: seq<Capture>, framesRead: nat, linesRead: nat)
    requires Stopped([], [FrameEvent([Detection(box, e)], KEY_S)], ["bob", "no", "yes"], saveOk,
                     end, reg, log, framesRead, linesRead)
    ensures end == Declined && reg == [Entry("bob", e)] && linesRead == 2
  {
    var frames := [FrameEvent([Detection(box, e)], KEY_S)];
    var lines := ["bob", "no", "yes"];
    assert IsCaptureFrame(frames[0]) && !IsQuitFrame(frames[0]);
    assert Strip(lines[0]) == "bob" && AcceptsLabel([], lines[0]);
    LowerIsYes(lines[1]);
    LowerIsNo(lines[1]);
    assert FirstChoiceAt(lines, 1, 1);
    OneFrameSession([], frames, lines, saveOk, end, reg, log, framesRead, linesRead, 1);
  }

  /** Two `s` frames with a face and the replies "a", "no": the "no" ends the
      session at the first frame; the second frame is never read. */
  lemma NoEndsAtItsFrame(e: Embedding, box: seq<real>, saveOk: nat -> bool, end: SessionEnd,
                         reg: Registry, log: seq<Capture>, framesRead: nat, linesRead: nat)
    requires Stopped([], [FrameEvent([Detection(box, e)], KEY_S), FrameEvent([Detection(box, e)], KEY_S)],
                     ["a", "no"], saveOk, end, reg, log, framesRead, linesRead)
    ensures end == Declined && framesRead == 1 && reg == [Entry("a", e)] && linesRead == 2
  {
    var frames := [FrameEvent([Detection(box, e)], KEY_S), FrameEvent([Detection(box, e)], KEY_S)];
    var lines := ["a", "no"];
    assert IsCaptureFrame(frames[0]) && IsCaptureFrame(frames[1]) && !IsQuitFrame(frames[0]);
    assert Strip(lines[0]) == "a" && AcceptsLabel([], lines[0]);
    LowerIsYes(lines[1]);
    LowerIsNo(lines[1]);
    assert FirstChoiceAt(lines, 1, 1);
    StopsAtFirstOfTwo([], frames, lines, saveOk, end, reg, log, framesRead, linesRead, 1);
  }

  /** Two `s` frames with a face and the single reply "a": input runs out at
      the yes/no prompt of the first frame, with "a" stored. */
  lemma InputEndsAtReply(e: Embedding, box: seq<real>, saveOk: nat -> bool, end: SessionEnd,
                         reg: Registry, log: seq<Capture>, framesRead: nat, linesRead: nat)
    requires Stopped([], [FrameEvent([Detection(box, e)], KEY_S), FrameEvent([Detection(box, e)], KEY_S)],
                     ["a"], saveOk, end, reg, log, framesRead, linesRead)
    ensures end == InputEnded && framesRead == 1 && reg == [Entry("a", e)] && linesRead == 1
  {
    var frames := [FrameEvent([Detection(box, e)], KEY_S), FrameEvent([Detection(box, e)], KEY_S)];
    var lines := ["a"];
    assert IsCaptureFrame(frames[0]) && IsCaptureFrame(frames[1]) && !IsQuitFrame(frames[0]);
    assert Strip(lines[0]) == "a" && AcceptsLabel([], lines[0]);
    assert FirstChoiceAt(lines, 1, 1);
    StopsAtFirstOfTwo([], frames, lines, saveOk, end, reg, log, framesRead, linesRead, 1);
  }

  /** A one-frame session, over any loaded registry, on an `s` frame with a
      face, whose first line is an acceptable label and whose first accepted reply after it is at `reply`:
      exactly that capture is logged. */
  lemma OneFrameSession(loaded: Registry, frames: seq<FrameEvent>, lines: seq<string>, saveOk: nat -> bool, end: SessionEnd,
                        reg: Registry, log: seq<Capture>, framesRead: nat, linesRead: nat, reply: int)
    requires |frames| == 1 && IsCaptureFrame(frames[0])
    requires 0 < |lines| && AcceptsLabel(loaded, lines[0]) && FirstChoiceAt(lines, 1, reply)
    requires Stopped(loaded, frames, lines, saveOk, end, reg, log, framesRead, linesRead)
    ensures framesRead == 1 && |log| == 1 && log[0].frame == 0 && log[0].replyLine == reply
    ensures reg == loaded + [Entry(Strip(lines[0]), frames[0].faces[0].embedding)]
  {
    ReadsAFrame(loaded, frames, lines, saveOk, end, reg, log, framesRead, linesRead);
    FirstCapture(loaded, frames, lines, saveOk, end, reg, log, framesRead, linesRead, reply);
    CapturesInFrameOrder(loaded, frames, lines, saveOk, log);
    assert |log| - 1 <= log[|log| - 1].frame < 1;
    assert Entries(log) == [Entry(Strip(lines[0]), frames[0].faces[0].embedding)];
  }

  /** A session, over any loaded registry, over two `s` frames with a face,
      whose first line is an acceptable label and whose first accepted reply after it, at `reply`, is
      not "yes": the session stops at the first frame with that capture. */
  lemma StopsAtFirstOfTwo(loaded: Registry, frames: seq<FrameEvent>, lines: seq<string>, saveOk: nat -> bool, end: SessionEnd,
                          reg: Registry, log: seq<Capture>, framesRead: nat, linesRead: nat, reply: int)
    requires |frames| == 2 && IsCaptureFrame(frames[0]) && IsCaptureFrame(frames[1])
    requires 0 < |lines| && AcceptsLabel(loaded, lines[0]) && FirstChoiceAt(lines, 1, reply)
    requires !(reply < |lines| && Lower(lines[reply]) == "yes")
    requires Stopped(loaded, frames, lines, saveOk, end, reg, log, framesRead, linesRead)
    ensures framesRead == 1 && |log| == 1 && log[0].frame == 0 && log[0].replyLine == reply
    ensures reg == loaded + [Entry(Strip(lines[0]), frames[0].faces[0].embedding)]
  {
    ReadsAFrame(loaded, frames, lines, saveOk, end, reg, log, framesRead, linesRead);
    FirstCapture(loaded, frames, lines, saveOk, end, reg, log, framesRead, linesRead, reply);
    NoMoreAfterFirst(loaded, frames, lines, saveOk, log);
    assert !AnsweredYes(lines, log[|log| - 1]);
    assert framesRead == 2 && end != InputEnded ==> Logged(log, 1);
    assert Entries(log) == [Entry(Strip(lines[0]), frames[0].faces[0].embedding)];
  }

  /** A session over at least one frame stops having read a frame, whatever
      registry it loaded. */
  lemma ReadsAFrame(loaded: Registry, frames: seq<FrameEvent>, lines: seq<string>, saveOk: nat -> bool, end: SessionEnd,
                    reg: Registry, log: seq<Capture>, framesRead: nat, linesRead: nat)
    requires 0 < |frames|
    requires Stopped(loaded, frames, lines, saveOk, end, reg, log, framesRead, linesRead)
    ensures 0 < framesRead
  {
  }

  /** Over any loaded registry: when the first frame is an `s` with a face,
      the first line is an acceptable label against it and the first accepted reply after it is at `reply`,
      the first capture is that one: frame 0, line 0, reply `reply`. */
  lemma FirstCapture(loaded: Registry, frames: seq<FrameEvent>, lines: seq<string>, saveOk: nat -> bool, end: SessionEnd,
                     reg: Registry, log: seq<Capture>, framesRead: nat, linesRead: nat, reply: int)
    requires 0 < framesRead && 0 < |frames| && IsCaptureFrame(frames[0])
    requires 0 < |lines| && AcceptsLabel(loaded, lines[0]) && FirstChoiceAt(lines, 1, reply)
    requires Stopped(loaded, frames, lines, saveOk, end, reg, log, framesRead, linesRead)
    ensures 0 < |log| && log[0].frame == 0 && log[0].labelLine == 0 && log[0].replyLine == reply
    ensures log[0].name == Strip(lines[0]) && log[0].embedding == frames[0].faces[0].embedding
  {
    FirstFrameCaptured(loaded, frames, lines, saveOk, end, reg, log, framesRead, linesRead);
    FirstCaptureReadsFrom(loaded, frames, lines, saveOk, log);
    assert ValidCapture(loaded, frames, lines, saveOk, log, 0);
  }

  /** A capture not answered "yes" is the last one. */
  lemma NoMoreAfterFirst(loaded: Registry, frames: seq<FrameEvent>, lines: seq<string>,
                         saveOk: nat -> bool, log: seq<Capture>)
    requires ValidLog(loaded, frames, lines, saveOk, log)
    requires 0 < |log| && !AnsweredYes(lines, log[0])
    ensures |log| == 1
  {
    assert 1 < |log| ==> ThenAnotherFace(lines, log, 0);
  }

  /** A capture frame followed by a `q` frame, with replies "bob" and "yes":
      the session stores "bob" and ends on the `q`. */
  lemma QuitAfterYes(e: Embedding, box: seq<real>, saveOk: nat -> bool, end: SessionEnd,
                     reg: Registry, log: seq<Capture>, framesRead: nat, linesRead: nat)
    requires Stopped([], [FrameEvent([Detection(box, e)], KEY_S), FrameEvent([], KEY_Q)], ["bob", "yes"], saveOk,
                     end, reg, log, framesRead, linesRead)
    ensures end == Quit && reg == [Entry("bob", e)] && framesRead == 2
  {
    var frames := [FrameEvent([Detection(box, e)], KEY_S), FrameEvent([], KEY_Q)];
    var lines := ["bob", "yes"];
    YesThenQuitLog(e, box, saveOk, end, reg, log, framesRead, linesRead);
    assert IsQuitFrame(frames[1]);
    LowerIsNo(lines[1]);
    assert log[0].name == "bob" && log[0].embedding == e;
    assert Entries(log) == [Entry("bob", e)];
  }

  /** The log of the session of QuitAfterYes: one capture, at the first frame,
      labelled by the first line and answered by the second. */
  lemma YesThenQuitLog(e: Embedding, box: seq<real>, saveOk: nat -> bool, end: SessionEnd,
                       reg: Registry, log: seq<Capture>, framesRead: nat, linesRead: nat)
    requires Stopped([], [FrameEvent([Detection(box, e)], KEY_S), FrameEvent([], KEY_Q)], ["bob", "yes"], saveOk,
                     end, reg, log, framesRead, linesRead)
    ensures |log| == 1 && log[0].frame == 0 && log[0].labelLine == 0 && log[0].replyLine == 1
    ensures log[0].name == Strip("bob") && log[0].embedding == e
  {
    var frames := [FrameEvent([Detection(box, e)], KEY_S), FrameEvent([], KEY_Q)];
    var lines := ["bob", "yes"];
    assert IsCaptureFrame(frames[0]) && !IsQuitFrame(frames[0]);
    assert !IsCaptureFrame(frames[1]);
    assert Strip(lines[0]) == "bob";
    assert AcceptsLabel([], lines[0]);
    LowerIsYes(lines[1]);
    assert FirstChoiceAt(lines, 1, 1);
    ReadsAFrame([], frames, lines, saveOk, end, reg, log, framesRead, linesRead);
    FirstCapture([], frames, lines, saveOk, end, reg, log, framesRead, linesRead, 1);
    CapturesInFrameOrder([], frames, lines, saveOk, log);
    assert ValidCapture([], frames, lines, saveOk, log, |log| - 1);
  }

  /** A single `q` frame is a quit, not the end of the frames. */
  lemma QuitIsNotFramesEnded(saveOk: nat -> bool, lines: seq<string>, end: SessionEnd,
                             reg: Registry, log: seq<Capture>, framesRead: nat, linesRead: nat)
    requires Stopped([], [FrameEvent([], KEY_Q)], lines, saveOk, end, reg, log, framesRead, linesRead)
    ensures end == Quit && log == [] && reg == [] && framesRead == 1
  {
    var frames := [FrameEvent([], KEY_Q)];
    assert !IsCaptureFrame(frames[0]) && IsQuitFrame(frames[0]);
    assert log == [] by {
      if log != [] {
        assert false;
      }
    }
  }

  /** Over any loaded registry: when the first frame is an `s` with a face and
      the first line is an acceptable label against it, the first capture comes from the first frame. */
  lemma FirstFrameCaptured(loaded: Registry, frames: seq<FrameEvent>, lines: seq<string>, saveOk: nat -> bool, end: SessionEnd,
                           reg: Registry, log: seq<Capture>, framesRead: nat, linesRead: nat)
    requires 0 < framesRead <= |frames| && IsCaptureFrame(frames[0])
    requires 0 < |lines| && AcceptsLabel(loaded, lines[0])
    requires Stopped(loaded, frames, lines, saveOk, end, reg, log, framesRead, linesRead)
    ensures 0 < |log| && log[0].frame == 0
  {
    CapturesInFrameOrder(loaded, frames, lines, saveOk, log);
    if end == InputEnded && framesRead == 1 {
      assert 0 < |log| ==> ValidCapture(loaded, frames, lines, saveOk, log, |log| - 1);
      assert |log| == 0 ==> Cursor(lines, log, |log|) == 0 && loaded + Entries(log) == loaded;
    } else {
      assert Logged(log, 0);
      var k :| 0 <= k < |log| && log[k].frame == 0;
      assert k <= log[k].frame;
    }
  }

  /** The first capture of a session reads its label from the first line on,
      against the loaded registry. */
  lemma FirstCaptureReadsFrom(loaded: Registry, frames: seq<FrameEvent>, lines: seq<string>, saveOk: nat -> bool, log: seq<Capture>)
    requires 0 < |log| && ValidLog(loaded, frames, lines, saveOk, log)
    ensures FirstLabelAt(loaded, lines, 0, log[0].labelLine)
    ensures FirstChoiceAt(lines, log[0].labelLine + 1, log[0].replyLine)
  {
    assert ValidCapture(loaded, frames, lines, saveOk, log, 0);
    assert loaded + Entries(log[..0]) == loaded;
  }

  /** Captures come from strictly later frames, so capture k is at frame k or
      later. */
  lemma CapturesInFrameOrder(loaded: Registry, frames: seq<FrameEvent>, lines: seq<string>,
                             saveOk: nat -> bool, log: seq<Capture>)
    requires ValidLog(loaded, frames, lines, saveOk, log)
    ensures forall k :: 0 <= k < |log| ==> k <= log[k].frame
  {
    var k := 0;
    while k < |log|
      invariant k <= |log|
      invariant forall i :: 0 <= i < k ==> i <= log[i].frame
    {
      if 0 < k {
        assert ThenAnotherFace(lines, log, k - 1);
      }
      k := k + 1;
    }
  }
}
