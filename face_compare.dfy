/** The one-shot capture and compare operations on a single decoded image. */
module FaceCompare {
  import opened Text
  import opened Registry
  import opened Detector
  import opened Matcher
  import opened Prompts

  /** How `capture_faces` ends. InvalidImage is returned to the caller as
      `{'error': 'Invalid image data'}`; NoFaceDetected and Captured return
      None after printing their message; InputExhausted is `input()` raising
      EOFError out of the label prompt. */
  datatype CaptureOutcome =
    | InvalidImage
    | NoFaceDetected
    | Captured(name: string, saved: bool)
    | InputExhausted

  /** `capture_faces`. `loaded` is what `load_embeddings` returned,
      `detections` is None when the image does not decode and otherwise the
      provider's detections, `lines` is standard input and `saveOk` is what
      `save_embeddings` reports. `reg` is the registry afterwards and `saves`
      the registries handed to `save_embeddings`, one per call. */
  method CaptureFaces(loaded: Registry, detections: Option<seq<Detection>>, lines: seq<string>, saveOk: bool)
    returns (outcome: CaptureOutcome, reg: Registry, saves: seq<Registry>, linesRead: nat)
    requires Distinct(loaded)
    ensures Distinct(reg) && linesRead <= |lines|
    ensures outcome == InvalidImage <==> detections.None?
    ensures outcome == NoFaceDetected <==> detections == Some([])
    ensures !outcome.Captured? ==> reg == loaded && saves == []
    ensures outcome == InvalidImage || outcome == NoFaceDetected ==> linesRead == 0
    ensures outcome == InputExhausted ==>
      linesRead == |lines| && forall j :: 0 <= j < |lines| ==> !AcceptsLabel(loaded, lines[j])
    ensures outcome.Captured? ==> detections.Some? && |detections.value| > 0 && 0 < linesRead
    ensures outcome.Captured? ==> outcome.name == Strip(lines[linesRead - 1])
    ensures outcome.Captured? ==> outcome.name != "" && outcome.name !in Labels(loaded)
    ensures outcome.Captured? ==> forall j :: 0 <= j < linesRead - 1 ==> !AcceptsLabel(loaded, lines[j])
    ensures outcome.Captured? ==> reg == loaded + [Entry(outcome.name, detections.value[0].embedding)]
    ensures outcome.Captured? ==> saves == [reg] && outcome.saved == saveOk
  {
    reg, saves, linesRead := loaded, [], 0;
    if detections.None? {
      outcome := InvalidImage;
    } else if |detections.value| == 0 {
      outcome := NoFaceDetected;
    } else {
      var embedding := detections.value[0].embedding;
      var name;
      name, linesRead := PromptLabel(reg, lines, 0);
      if name.None? {
        outcome := InputExhausted;
      } else {
        var accepted := name.value;
        reg := Assign(reg, accepted, embedding);
        assert reg == loaded + [Entry(accepted, embedding)];
        saves := saves + [reg];
        outcome := Captured(accepted, saveOk);
      }
    }
  }

  /** The caption drawn above a box: `"label (sim)"` or `"No Match"`. The
      two-decimal formatting of the similarity is not modelled. */
  datatype Caption = Labelled(name: string, similarity: real) | NoMatchCaption

  /** A BGR colour triple as OpenCV takes it. */
  type Color = (int, int, int)

  const GREEN: Color := (0, 255, 0)
  const RED: Color := (0, 0, 255)

  /** One `cv2.rectangle` plus `cv2.putText` on the frame. */
  datatype Annotation = Annotation(box: seq<int>, color: Color, caption: Caption)

  /** What `compare_faces` returns: the annotations drawn on the frame, in
      drawing order, and `best_match` as it stands after the last face. With
      no face, reading `best_match` at the return raises UnboundLocalError. */
  datatype CompareResult =
    | Compared(drawn: seq<Annotation>, matches: Match)
    | BestMatchUnbound

  /** The colour and caption choice for one face: green with the label and
      similarity of the best match when a match was found, red with
      "No Match" otherwise. */
  function Decorate(found: bool, best: Match): (d: (Color, Caption))
    ensures d.0 == GREEN <==> found
    ensures d.0 == RED <==> !found
    ensures d.1.Labelled? <==> found
    ensures d.1.Labelled? ==> d.1.name == best.name && d.1.similarity == best.similarity
  {
    if found then (GREEN, Labelled(best.name, best.similarity)) else (RED, NoMatchCaption)
  }

  /** `compare_faces` on the provider's detections for the decoded frame. */
  method CompareFaces(reg: Registry, detections: seq<Detection>, sim: Similarity) returns (r: CompareResult)
    ensures r.BestMatchUnbound? <==> detections == []
    ensures r.Compared? ==> |r.drawn| == |detections|
    ensures r.Compared? ==>
      IsBestMatch(reg, Scores(reg, detections[|detections| - 1].embedding, sim), r.matches)
    ensures r.Compared? ==> forall k :: 0 <= k < |detections| ==>
      && r.drawn[k].box == TruncBox(detections[k].bbox)
      && r.drawn[k].color == (if HasMatch(Scores(reg, detections[k].embedding, sim)) then GREEN else RED)
      && (r.drawn[k].caption.Labelled? <==> HasMatch(Scores(reg, detections[k].embedding, sim)))
      && (r.drawn[k].caption.Labelled? ==>
            IsBestMatch(reg, Scores(reg, detections[k].embedding, sim),
                        Match(r.drawn[k].caption.name, r.drawn[k].caption.similarity)))
  {
    var drawn: seq<Annotation> := [];
    var last: Option<Match> := None;
    for k := 0 to |detections|
      invariant |drawn| == k
      invariant last.None? <==> k == 0
      invariant last.Some? ==>
        IsBestMatch(reg, Scores(reg, detections[k - 1].embedding, sim), last.value)
      invariant forall i :: 0 <= i < k ==>
        && drawn[i].box == TruncBox(detections[i].bbox)
        && drawn[i].color == (if HasMatch(Scores(reg, detections[i].embedding, sim)) then GREEN else RED)
        && (drawn[i].caption.Labelled? <==> HasMatch(Scores(reg, detections[i].embedding, sim)))
        && (drawn[i].caption.Labelled? ==>
              IsBestMatch(reg, Scores(reg, detections[i].embedding, sim),
                          Match(drawn[i].caption.name, drawn[i].caption.similarity)))
    {
      var face := detections[k];
      var box := TruncBox(face.bbox);
      var best, found := BestMatch(reg, face.embedding, sim);
      var (color, caption) := Decorate(found, best);
      drawn := drawn + [Annotation(box, color, caption)];
      last := Some(best);
    }
    if last.None? {
      return BestMatchUnbound;
    }
    return Compared(drawn, last.value);
  }
}
