/** `process_face` of the browser-facing service: every detected face is
    matched against the registry and reported with its label, similarity and
    integer bounding box. The registry is a parameter (a value), so nothing
    here can change it. */
module MultiFaceTest {
  import opened Registry
  import opened Detector
  import opened Matcher

  /** `{"label": ..., "similarity": ..., "bbox": [...]}` */
  datatype FaceResult = FaceResult(name: string, similarity: real, bbox: seq<int>)

  /** `{"faces": [...]}` */
  datatype Response = Response(faces: seq<FaceResult>)

  /** One result per detection, in detection order; each carries the
      detection's box converted to integers and the best match of its
      embedding. No detections give `{"faces": []}`. */
  method ProcessFace(reg: Registry, detections: seq<Detection>, sim: Similarity) returns (r: Response)
    ensures |r.faces| == |detections|
    ensures detections == [] ==> r == Response([])
    ensures forall k :: 0 <= k < |detections| ==> r.faces[k].bbox == TruncBox(detections[k].bbox)
    ensures forall k :: 0 <= k < |detections| ==>
      IsBestMatch(reg, Scores(reg, detections[k].embedding, sim), Match(r.faces[k].name, r.faces[k].similarity))
  {
    var results: seq<FaceResult> := [];
    for k := 0 to |detections|
      invariant |results| == k
      invariant forall i :: 0 <= i < k ==> results[i].bbox == TruncBox(detections[i].bbox)
      invariant forall i :: 0 <= i < k ==>
        IsBestMatch(reg, Scores(reg, detections[i].embedding, sim), Match(results[i].name, results[i].similarity))
    {
      var face := detections[k];
      var box := TruncBox(face.bbox);
      var best, _ := BestMatch(reg, face.embedding, sim);
      results := results + [FaceResult(best.name, best.similarity, box)];
    }
    if results == [] {
      return Response([]);
    }
    return Response(results);
  }
}
