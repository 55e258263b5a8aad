/** The matcher shared by `process_face` and `compare_faces`: a linear scan of
    the registry in insertion order that keeps the best entry whose similarity
    is strictly above the threshold, replacing it only on a strictly greater
    similarity, so that the first of several equal maxima wins. */
module Matcher {
  import opened Registry

  /** The sentinel label reported when nothing matches. */
  const UNKNOWN: string := "Unknown"

  /** The fixed acceptance threshold; the comparison against it is strict. */
  const THRESHOLD: real := 0.6

  /** `{"label": ..., "similarity": ...}` */
  datatype Match = Match(name: string, similarity: real)

  /** The starting value `{"label": "Unknown", "similarity": 0}`. */
  const NO_MATCH: Match := Match(UNKNOWN, 0.0)

  /** `cosine_similarity([probe], [stored])[0][0]`, left uninterpreted. */
  type Similarity = (Embedding, Embedding) -> real

  /** The similarity of the probe to each registry entry, in registry order. */
  function Scores(reg: Registry, probe: Embedding, sim: Similarity): (s: seq<real>)
    ensures |s| == |reg|
    ensures forall j :: 0 <= j < |reg| ==> s[j] == sim(probe, reg[j].embedding)
  {
    seq(|reg|, j requires 0 <= j < |reg| => sim(probe, reg[j].embedding))
  }

  /** Some entry is strictly above the threshold. */
  ghost predicate HasMatch(s: seq<real>)
  {
    exists j :: 0 <= j < |s| && s[j] > THRESHOLD
  }

  /** `i` holds the maximum of `s`, and no earlier position reaches it. */
  ghost predicate IsFirstMax(s: seq<real>, i: int)
  {
    && 0 <= i < |s|
    && (forall j :: 0 <= j < |s| ==> s[j] <= s[i])
    && (forall j :: 0 <= j < i ==> s[j] < s[i])
  }

  /** The matcher's specification, independent of the scan: if some score is
      above the threshold, the result is the entry at the first position of
      the maximum score, with that score; otherwise it is Unknown with 0. */
  ghost predicate IsBestMatch(reg: Registry, s: seq<real>, m: Match)
    requires |s| == |reg|
  {
    if HasMatch(s) then exists i :: IsFirstMax(s, i) && m == Match(reg[i].name, s[i])
    else m == NO_MATCH
  }

  /** The inner `for label, saved_embedding in embeddings_dict.items()` loop.
      `found` is `compare_faces`'s `match_found`; `process_face` ignores it. */
  method BestMatch(reg: Registry, probe: Embedding, sim: Similarity) returns (best: Match, found: bool)
    ensures IsBestMatch(reg, Scores(reg, probe, sim), best)
    ensures found <==> HasMatch(Scores(reg, probe, sim))
    ensures found ==> best.similarity > THRESHOLD && best.name in Labels(reg)
    ensures !found ==> best == NO_MATCH
  {
    ghost var s := Scores(reg, probe, sim);
    ghost var at := 0;
    best, found := NO_MATCH, false;
    for j := 0 to |reg|
      invariant found <==> HasMatch(s[..j])
      invariant !found ==> best == NO_MATCH
      invariant found ==> at < j && IsFirstMax(s[..j], at) && s[at] > THRESHOLD
      invariant found ==> best == Match(reg[at].name, s[at])
    {
      var similarity := sim(probe, reg[j].embedding);
      assert s[..j + 1] == s[..j] + [similarity];
      if similarity > THRESHOLD && similarity > best.similarity {
        best, found, at := Match(reg[j].name, similarity), true, j;
      }
    }
    assert s[..|reg|] == s;
  }

  /** The specification determines the result: there is one best match. */
  lemma BestMatchUnique(reg: Registry, s: seq<real>, m1: Match, m2: Match)
    requires |s| == |reg|
    requires IsBestMatch(reg, s, m1) && IsBestMatch(reg, s, m2)
    ensures m1 == m2
  {
    if HasMatch(s) {
      var i1 :| IsFirstMax(s, i1) && m1 == Match(reg[i1].name, s[i1]);
      var i2 :| IsFirstMax(s, i2) && m2 == Match(reg[i2].name, s[i2]);
      assert i1 == i2;
    }
  }

  /** Nothing above the threshold, including a score of exactly 0.6, gives
      Unknown with similarity 0. */
  lemma AtOrBelowThresholdIsUnknown(reg: Registry, s: seq<real>, m: Match)
    requires |s| == |reg|
    requires forall j :: 0 <= j < |s| ==> s[j] <= THRESHOLD
    ensures IsBestMatch(reg, s, m) <==> m == NO_MATCH
  {
  }

  /** An empty registry gives Unknown with similarity 0 for every probe. */
  lemma EmptyRegistryIsUnknown(probe: Embedding, sim: Similarity, m: Match)
    ensures IsBestMatch([], Scores([], probe, sim), m) <==> m == NO_MATCH
  {
  }

  /** The threshold boundary: 0.6 is rejected, 0.6000001 is accepted. */
  lemma ThresholdBoundary(e: Entry, m: Match)
    ensures IsBestMatch([e], [0.6], m) <==> m == NO_MATCH
    ensures IsBestMatch([e], [0.6000001], m) <==> m == Match(e.name, 0.6000001)
  {
    assert IsFirstMax([0.6000001], 0);
  }

  /** A reported match carries the maximum score over the whole registry,
      that maximum is above the threshold, and its label is a key. */
  lemma MatchIsMaximum(reg: Registry, s: seq<real>, m: Match)
    requires |s| == |reg|
    requires IsBestMatch(reg, s, m) && HasMatch(s)
    ensures m.similarity > THRESHOLD && m.name in Labels(reg)
    ensures forall j :: 0 <= j < |s| ==> s[j] <= m.similarity
    ensures exists i :: 0 <= i < |s| && s[i] == m.similarity
  {
    var i :| IsFirstMax(s, i) && m == Match(reg[i].name, s[i]);
    var j :| 0 <= j < |s| && s[j] > THRESHOLD;
    assert s[j] <= s[i];
  }

  /** First-seen tie-break: of two entries with the same maximal score the
      earlier one in registry order is reported. */
  lemma TieGoesToEarlier(reg: Registry, s: seq<real>, m: Match, i: nat, k: nat)
    requires |s| == |reg|
    requires i < k < |s| && s[i] == s[k] && s[k] > THRESHOLD
    requires forall j :: 0 <= j < |s| ==> s[j] <= s[k]
    requires IsBestMatch(reg, s, m)
    ensures m.similarity == s[k]
    ensures Distinct(reg) ==> m.name != reg[k].name
  {
    var b :| IsFirstMax(s, b) && m == Match(reg[b].name, s[b]);
    assert b <= i;
  }

  /** Without an entry labelled "Unknown", a match was found exactly when the
      reported label is not "Unknown". */
  lemma FoundIffKnownLabel(reg: Registry, s: seq<real>, m: Match)
    requires |s| == |reg|
    requires UNKNOWN !in Labels(reg)
    requires IsBestMatch(reg, s, m)
    ensures HasMatch(s) <==> m.name != UNKNOWN
  {
    if HasMatch(s) {
      MatchIsMaximum(reg, s, m);
    }
  }

  /** Nothing stops an operator from enrolling the label "Unknown": a match on
      it reports the sentinel's label, told apart only by its similarity. */
  lemma UnknownLabelIsAmbiguous(e: Embedding, m: Match)
    requires IsBestMatch([Entry(UNKNOWN, e)], [0.9], m)
    ensures HasMatch([0.9]) && m.name == UNKNOWN && m.similarity == 0.9
  {
    assert [0.9][0] > THRESHOLD;
    var i :| IsFirstMax([0.9], i) && m == Match([Entry(UNKNOWN, e)][i].name, [0.9][i]);
  }
}
