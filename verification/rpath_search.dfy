/**
 * Searching a colon-separated run path for one whole entry
 * (`cmSystemToolsFindRPath`).  A run path such as "/a:/ab:/abc" is a list of
 * directories separated by ':'; an occurrence of a directory counts only
 * when it is a whole segment, bounded on the left by the start of the value
 * or a ':' and on the right by the end of the value or a ':'.
 */
module RPathSearch {
  import opened ByteOrder

  const COLON: Byte := 0x3A

  /** want occurs in have starting at p. */
  predicate MatchesAt(have: Bytes, want: Bytes, p: nat) {
    p + |want| <= |have| && have[p..p + |want|] == want
  }

  /** want occurs in have at p as a whole ':'-delimited segment. */
  predicate SegmentAt(have: Bytes, want: Bytes, p: nat) {
    && MatchesAt(have, want, p)
    && (p == 0 || have[p - 1] == COLON)
    && (p + |want| == |have| || have[p + |want|] == COLON)
  }

  /** `std::string::find(want, from)`: the first occurrence at or after from. */
  function Find(have: Bytes, want: Bytes, from: nat): (r: Option<nat>)
    ensures r.Some? ==> from <= r.value && MatchesAt(have, want, r.value)
    ensures r.Some? ==> forall q :: from <= q < r.value ==> !MatchesAt(have, want, q)
    ensures r.None? ==> forall q :: from <= q ==> !MatchesAt(have, want, q)
    decreases |have| - from
  {
    if from + |want| > |have| then None
    else if MatchesAt(have, want, from) then Some(from)
    else Find(have, want, from + 1)
  }

  /**
   * The search loop of `cmSystemToolsFindRPath` from position pos: find the
   * next occurrence, and retry one byte further on when it is not
   * segment-aligned on either side.
   */
  function FindRPathFrom(have: Bytes, want: Bytes, pos: nat): (r: Option<nat>)
    ensures r.Some? ==> pos <= r.value < |have| && SegmentAt(have, want, r.value)
    ensures r.Some? ==> forall q :: pos <= q < r.value ==> !SegmentAt(have, want, q)
    ensures r.None? ==> forall q :: pos <= q < |have| ==> !SegmentAt(have, want, q)
    decreases |have| + 1 - pos
  {
    if pos >= |have| then None
    else
      match Find(have, want, pos)
      case None => None
      case Some(beg) =>
        if beg > 0 && have[beg - 1] != COLON then
          assert forall q :: pos <= q <= beg ==> !SegmentAt(have, want, q);
          FindRPathFrom(have, want, beg + 1)
        else if beg + |want| < |have| && have[beg + |want|] != COLON then
          assert forall q :: pos <= q <= beg ==> !SegmentAt(have, want, q);
          FindRPathFrom(have, want, beg + 1)
        else
          assert |want| == 0 ==> MatchesAt(have, want, pos);
          Some(beg)
  }

  /**
   * `cmSystemToolsFindRPath`: the position of the first segment-aligned
   * occurrence of want that starts inside have, or None (npos).
   */
  function FindRPath(have: Bytes, want: Bytes): (r: Option<nat>)
    ensures r.Some? ==> r.value < |have| && SegmentAt(have, want, r.value)
    ensures r.Some? ==> forall q :: 0 <= q < r.value ==> !SegmentAt(have, want, q)
    ensures r.None? <==> forall q :: 0 <= q < |have| ==> !SegmentAt(have, want, q)
    ensures |have| == 0 ==> r.None?
  {
    FindRPathFrom(have, want, 0)
  }

  /**
   * In "/a:/ab:/abc", "/ab" is found as the middle segment (position 3);
   * the substring of "/abc" at position 7 is not a segment.
   */
  lemma FindsWholeSegmentOnly()
    ensures FindRPath([0x2F, 0x61, 0x3A, 0x2F, 0x61, 0x62, 0x3A, 0x2F, 0x61, 0x62, 0x63],
                      [0x2F, 0x61, 0x62]) == Some(3)
    ensures MatchesAt([0x2F, 0x61, 0x3A, 0x2F, 0x61, 0x62, 0x3A, 0x2F, 0x61, 0x62, 0x63],
                      [0x2F, 0x61, 0x62], 7)
    ensures !SegmentAt([0x2F, 0x61, 0x3A, 0x2F, 0x61, 0x62, 0x3A, 0x2F, 0x61, 0x62, 0x63],
                       [0x2F, 0x61, 0x62], 7)
  {
    var have: Bytes := [0x2F, 0x61, 0x3A, 0x2F, 0x61, 0x62, 0x3A, 0x2F, 0x61, 0x62, 0x63];
    var want: Bytes := [0x2F, 0x61, 0x62];
    assert have[3..6] == want;
    assert SegmentAt(have, want, 3);
    assert have[7..10] == want;
    assert !SegmentAt(have, want, 0) by { assert have[0..3][2] != want[2]; }
    assert !SegmentAt(have, want, 1) by { assert have[0] != COLON; }
    assert !SegmentAt(have, want, 2) by { assert have[1] != COLON; }
  }
}
