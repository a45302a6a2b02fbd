/** Choosing the one face to crop when the detector reports several. */
module Selection {
  import opened Boxes

  /** Index of the face `max(faces, key=area)` returns. Python's `max` scans
      left to right and replaces its candidate only on a strictly greater key,
      so among faces of equal largest area the earliest one wins. */
  function LargestIndex(faces: seq<Box>): (k: nat)
    requires |faces| > 0
    ensures k < |faces|
    ensures forall j :: 0 <= j < |faces| ==> Area(faces[j]) <= Area(faces[k])
    ensures forall j :: 0 <= j < k ==> Area(faces[j]) < Area(faces[k])
    decreases |faces|
  {
    if |faces| == 1 then 0
    else
      var best := LargestIndex(faces[..|faces| - 1]);
      if Area(faces[|faces| - 1]) > Area(faces[best]) then |faces| - 1 else best
  }

  /** The largest detected face: a member of the list whose area no other
      face exceeds, and which every earlier face is strictly smaller than. */
  function Largest(faces: seq<Box>): (f: Box)
    requires |faces| > 0
    ensures f in faces
    ensures forall g :: g in faces ==> Area(g) <= Area(f)
    ensures exists k :: 0 <= k < |faces| && faces[k] == f && forall j :: 0 <= j < k ==> Area(faces[j]) < Area(f)
  {
    var k := LargestIndex(faces);
    assert faces[k] == faces[k];  // names the witness `k` for the last ensures
    faces[k]
  }

  /** The three guarantees of `LargestIndex` determine it: any index that is a
      maximum of the areas with only strictly smaller areas before it is the
      one Python's `max` picks. */
  lemma LargestIndexUnique(faces: seq<Box>, k: nat)
    requires k < |faces|
    requires forall j :: 0 <= j < |faces| ==> Area(faces[j]) <= Area(faces[k])
    requires forall j :: 0 <= j < k ==> Area(faces[j]) < Area(faces[k])
    ensures LargestIndex(faces) == k
  {
  }

  /** A single detection is the one selected. */
  lemma LargestOfOne(f: Box)
    ensures Largest([f]) == f
  {
  }
}
