/** What the face-analysis provider hands back for one image: zero or more
    detections, each with a bounding box and an embedding. The provider itself
    is not modelled; callers receive its output as data. */
module Detector {
  import opened Registry

  /** One detected face: `face.bbox` (four floats x1, y1, x2, y2) and
      `face.normed_embedding`. */
  datatype Detection = Detection(bbox: seq<real>, embedding: Embedding)

  /** numpy's float-to-int conversion (`astype(int)`): truncation toward zero. */
  function Trunc(x: real): (n: int)
    ensures 0.0 <= x ==> 0 <= n && n as real <= x < n as real + 1.0
    ensures x < 0.0 ==> n <= 0 && n as real - 1.0 < x <= n as real
  {
    if x >= 0.0 then x.Floor else -((-x).Floor)
  }

  /** `face.bbox.astype(int)`, coordinate by coordinate. */
  function TruncBox(bbox: seq<real>): (r: seq<int>)
    ensures |r| == |bbox|
    ensures forall i :: 0 <= i < |bbox| ==> r[i] == Trunc(bbox[i])
  {
    seq(|bbox|, i requires 0 <= i < |bbox| => Trunc(bbox[i]))
  }

  /** A box whose coordinates are already whole numbers comes through unchanged. */
  lemma TruncWhole(bbox: seq<int>)
    ensures TruncBox(seq(|bbox|, i requires 0 <= i < |bbox| => bbox[i] as real)) == bbox
  {
  }
}
