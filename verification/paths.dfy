/**
 * Lexical path clean-up (`PathSplit`, `PathCanonicalize`): a path is cut at
 * every '/', empty pieces and "." are dropped, ".." removes the segment kept
 * before it (or nothing at the root), and the canonical form is '/' followed
 * by the kept segments joined with '/'.  No file system is consulted.
 */
module Paths {
  import opened ByteOrder

  const SLASH: char := '/'

  /** `find_first_of('/', from)`: the first '/' at or after from, or None (npos). */
  function FindSlash(sv: string, from: nat): (r: Option<nat>)
    ensures r.Some? ==> from <= r.value < |sv| && sv[r.value] == SLASH
    ensures r.Some? ==> forall q :: from <= q < r.value ==> sv[q] != SLASH
    ensures r.None? ==> forall q :: from <= q < |sv| ==> sv[q] != SLASH
    decreases |sv| - from
  {
    if from >= |sv| then None
    else if sv[from] == SLASH then Some(from)
    else FindSlash(sv, from + 1)
  }

  /** A segment that may appear in a split path. */
  predicate PlainSegment(s: string) {
    |s| > 0 && s != "." && s != ".." && SLASH !in s
  }

  /** Each piece cut out of the path, applied to the segments kept so far. */
  function Step(out: seq<string>, s: string): (r: seq<string>)
  {
    if s == ".." then (if |out| > 0 then out[..|out| - 1] else out)
    else if s == "." then out
    else out + [s]
  }

  /**
   * ".." drops the last kept segment (nothing at the root), "." keeps the
   * list, and any other piece is appended after the kept segments.
   */
  lemma StepShape(out: seq<string>, s: string)
    ensures s == ".." ==> Step(out, s) <= out && |Step(out, s)| == (if |out| > 0 then |out| - 1 else 0)
    ensures s == "." ==> Step(out, s) == out
    ensures s != "." && s != ".." ==>
              |Step(out, s)| == |out| + 1 && Step(out, s)[..|out|] == out && Step(out, s)[|out|] == s
  {
  }

  /** The loop of `PathSplit` from offset first, with the segments kept so far in out. */
  function SplitFrom(sv: string, first: nat, out: seq<string>): (r: seq<string>)
    requires forall k :: 0 <= k < |out| ==> PlainSegment(out[k])
    ensures forall k :: 0 <= k < |r| ==> PlainSegment(r[k])
    decreases |sv| - first
  {
    if first >= |sv| then out
    else
      var second := FindSlash(sv, first);
      var end := if second.Some? then second.value else |sv|;
      var piece := sv[first..end];
      assert SLASH !in piece by {
        forall k | 0 <= k < |piece| ensures piece[k] != SLASH {
          assert piece[k] == sv[first + k];
        }
      }
      var out' := if first != end then Step(out, piece) else out;
      if second.None? then out' else SplitFrom(sv, second.value + 1, out')
  }

  /** `PathSplit`: the kept segments of a path, in order. */
  function PathSplit(sv: string): (r: seq<string>)
    ensures forall k :: 0 <= k < |r| ==> PlainSegment(r[k])
  {
    SplitFrom(sv, 0, [])
  }

  // ---------------------------------------------------------------------
  // Reference definition: cut at every '/', then fold the pieces
  // ---------------------------------------------------------------------

  /** The pieces between the '/'s, empty ones included: "a//b/" gives "a", "", "b", "". */
  function RawSplit(s: string): (r: seq<string>)
    ensures |r| > 0
    ensures forall k :: 0 <= k < |r| ==> SLASH !in r[k]
    decreases |s|
  {
    match FindSlash(s, 0)
    case None => [s]
    case Some(i) =>
      assert SLASH !in s[..i] by {
        forall k | 0 <= k < i ensures s[..i][k] != SLASH { }
      }
      [s[..i]] + RawSplit(s[i + 1..])
  }

  /** Empty pieces are skipped; every other piece is a `Step`. */
  function Keep(out: seq<string>, piece: string): seq<string> {
    if piece == "" then out else Step(out, piece)
  }

  function Collapse(out: seq<string>, pieces: seq<string>): seq<string>
    decreases |pieces|
  {
    if |pieces| == 0 then out else Collapse(Keep(out, pieces[0]), pieces[1..])
  }

  lemma FindSlashShift(sv: string, first: nat)
    requires first <= |sv|
    ensures FindSlash(sv, first).None? <==> FindSlash(sv[first..], 0).None?
    ensures FindSlash(sv, first).Some? ==> FindSlash(sv[first..], 0).value == FindSlash(sv, first).value - first
  {
    var a := FindSlash(sv, first);
    if a.Some? {
      assert sv[first..][a.value - first] == SLASH;
    }
  }

  /** The raw pieces of the path from offset first on. */
  lemma RawSplitFrom(sv: string, first: nat)
    requires first < |sv|
    ensures FindSlash(sv, first).None? ==> RawSplit(sv[first..]) == [sv[first..]]
    ensures FindSlash(sv, first).Some? ==>
              RawSplit(sv[first..])
              == [sv[first..FindSlash(sv, first).value]] + RawSplit(sv[FindSlash(sv, first).value + 1..])
  {
    FindSlashShift(sv, first);
    var rest := sv[first..];
    if FindSlash(sv, first).Some? {
      var j := FindSlash(sv, first).value;
      assert rest[..j - first] == sv[first..j];
      assert rest[j - first + 1..] == sv[j + 1..];
    }
  }

  /** Keeping a piece without '/' keeps every segment plain. */
  lemma KeepPlain(out: seq<string>, piece: string)
    requires forall k :: 0 <= k < |out| ==> PlainSegment(out[k])
    requires SLASH !in piece
    ensures forall k :: 0 <= k < |Keep(out, piece)| ==> PlainSegment(Keep(out, piece)[k])
  {
  }

  /** The loop computes the fold of `Keep` over the raw pieces of the rest of the path. */
  lemma {:induction false} SplitFromIsCollapse(sv: string, first: nat, out: seq<string>)
    requires first <= |sv|
    requires forall k :: 0 <= k < |out| ==> PlainSegment(out[k])
    ensures SplitFrom(sv, first, out) == Collapse(out, RawSplit(sv[first..]))
    decreases |sv| - first
  {
    if first == |sv| {
      SplitFromAtEnd(sv, out);
    } else {
      SplitFromUnfold(sv, first, out);
      CollapseUnfold(sv, first, out);
      if FindSlash(sv, first).Some? {
        SplitFromIsCollapse(sv, PieceEnd(sv, first) + 1, Keep(out, sv[first..PieceEnd(sv, first)]));
      }
    }
  }

  /** At the end of the path the loop stops, and the one raw piece left is empty. */
  lemma SplitFromAtEnd(sv: string, out: seq<string>)
    requires forall k :: 0 <= k < |out| ==> PlainSegment(out[k])
    ensures SplitFrom(sv, |sv|, out) == out == Collapse(out, RawSplit(sv[|sv|..]))
  {
    assert sv[|sv|..] == "";
    assert RawSplit("") == [""];
    assert [""][1..] == [];
    assert Collapse(out, [""]) == Collapse(Keep(out, ""), []) == out;
  }

  /** Where the piece starting at first ends: at the next '/', or at the end of the path. */
  function PieceEnd(sv: string, first: nat): (e: nat)
    requires first <= |sv|
    ensures first <= e <= |sv|
    ensures FindSlash(sv, first).Some? ==> e == FindSlash(sv, first).value
    ensures FindSlash(sv, first).None? ==> e == |sv|
  {
    match FindSlash(sv, first)
    case Some(i) => i
    case None => |sv|
  }

  /** One turn of the `PathSplit` loop, stated through `Keep`. */
  lemma SplitFromUnfold(sv: string, first: nat, out: seq<string>)
    requires first < |sv|
    requires forall k :: 0 <= k < |out| ==> PlainSegment(out[k])
    ensures forall k :: 0 <= k < |Keep(out, sv[first..PieceEnd(sv, first)])| ==>
              PlainSegment(Keep(out, sv[first..PieceEnd(sv, first)])[k])
    ensures FindSlash(sv, first).None? ==>
              SplitFrom(sv, first, out) == Keep(out, sv[first..PieceEnd(sv, first)])
    ensures FindSlash(sv, first).Some? ==>
              SplitFrom(sv, first, out)
              == SplitFrom(sv, PieceEnd(sv, first) + 1, Keep(out, sv[first..PieceEnd(sv, first)]))
  {
    var end := PieceEnd(sv, first);
    var piece := sv[first..end];
    KeepPiecePlain(sv, first, out);
    assert |piece| == end - first;
    assert Keep(out, piece) == if first != end then Step(out, piece) else out;
  }

  /** The piece up to the next '/' holds no '/', so keeping it keeps every segment plain. */
  lemma KeepPiecePlain(sv: string, first: nat, out: seq<string>)
    requires first < |sv|
    requires forall k :: 0 <= k < |out| ==> PlainSegment(out[k])
    ensures forall k :: 0 <= k < |Keep(out, sv[first..PieceEnd(sv, first)])| ==>
              PlainSegment(Keep(out, sv[first..PieceEnd(sv, first)])[k])
  {
    var piece := sv[first..PieceEnd(sv, first)];
    assert SLASH !in piece by {
      forall k | 0 <= k < |piece| ensures piece[k] != SLASH {
        assert piece[k] == sv[first + k];
      }
    }
    KeepPlain(out, piece);
  }

  /** One turn of the reference fold over the raw pieces. */
  lemma CollapseUnfold(sv: string, first: nat, out: seq<string>)
    requires first < |sv|
    ensures FindSlash(sv, first).None? ==>
              Collapse(out, RawSplit(sv[first..])) == Keep(out, sv[first..PieceEnd(sv, first)])
    ensures FindSlash(sv, first).Some? ==>
              Collapse(out, RawSplit(sv[first..]))
              == Collapse(Keep(out, sv[first..PieceEnd(sv, first)]), RawSplit(sv[PieceEnd(sv, first) + 1..]))
  {
    var end := PieceEnd(sv, first);
    RawSplitFrom(sv, first);
    var pieces := RawSplit(sv[first..]);
    assert pieces[0] == sv[first..end];
    assert Collapse(out, pieces) == Collapse(Keep(out, sv[first..end]), pieces[1..]);
    if FindSlash(sv, first).Some? {
      assert pieces[1..] == RawSplit(sv[end + 1..]);
    } else {
      assert pieces[1..] == [];
    }
  }

  /** Folding over two runs of pieces is folding over the first, then the second. */
  lemma {:induction false} CollapseAppend(out: seq<string>, p: seq<string>, q: seq<string>)
    ensures Collapse(out, p + q) == Collapse(Collapse(out, p), q)
    decreases |p|
  {
    if |p| > 0 {
      assert (p + q)[1..] == p[1..] + q;
      CollapseAppend(Keep(out, p[0]), p[1..], q);
    } else {
      assert p + q == q;
    }
  }

  /** Cutting a + "/" + b gives a's pieces followed by b's. */
  lemma {:induction false} RawSplitAppend(a: string, b: string)
    ensures RawSplit(a + [SLASH] + b) == RawSplit(a) + RawSplit(b)
    decreases |a|
  {
    var s := a + [SLASH] + b;
    match FindSlash(a, 0)
    case None =>
      assert s[|a|] == SLASH;
      assert FindSlash(s, 0) == Some(|a|) by {
        assert forall q :: 0 <= q < |a| ==> s[q] == a[q];
      }
      assert s[..|a|] == a;
      assert s[|a| + 1..] == b;
    case Some(i) =>
      assert FindSlash(s, 0) == Some(i) by {
        assert forall q :: 0 <= q <= i ==> s[q] == a[q];
      }
      assert s[..i] == a[..i];
      assert s[i + 1..] == a[i + 1..] + [SLASH] + b;
      RawSplitAppend(a[i + 1..], b);
  }

  /** `PathSplit` is the fold of `Keep` over the raw pieces. */
  lemma PathSplitIsCollapse(sv: string)
    ensures PathSplit(sv) == Collapse([], RawSplit(sv))
  {
    SplitFromIsCollapse(sv, 0, []);
    assert sv[0..] == sv;
  }

  /**
   * A trailing ".." removes the last segment kept so far, and at the root
   * (nothing kept) it is dropped.
   */
  lemma DotDotPopsLastSegment(a: string)
    ensures var segs := PathSplit(a);
            PathSplit(a + [SLASH] + "..") == (if |segs| > 0 then segs[..|segs| - 1] else [])
  {
    PathSplitIsCollapse(a);
    PathSplitIsCollapse(a + [SLASH] + "..");
    RawSplitAppend(a, "..");
    assert RawSplit("..") == [".."];
    CollapseAppend([], RawSplit(a), [".."]);
  }

  /** Splitting a + "/" + b continues from a's segments with b's pieces. */
  lemma SplitOfJoin(a: string, b: string)
    ensures PathSplit(a + [SLASH] + b) == Collapse(PathSplit(a), RawSplit(b))
  {
    PathSplitIsCollapse(a);
    PathSplitIsCollapse(a + [SLASH] + b);
    RawSplitAppend(a, b);
    CollapseAppend([], RawSplit(a), RawSplit(b));
  }

  /** Reference: the pieces that are neither empty nor ".", in order. */
  function Named(pieces: seq<string>): seq<string> {
    if |pieces| == 0 then []
    else (if pieces[0] == "" || pieces[0] == "." then [] else [pieces[0]]) + Named(pieces[1..])
  }

  /** Without "..", the fold keeps every named piece in its input order. */
  lemma {:induction false} CollapseWithoutDotDot(out: seq<string>, pieces: seq<string>)
    requires forall k :: 0 <= k < |pieces| ==> pieces[k] != ".."
    ensures Collapse(out, pieces) == out + Named(pieces)
    decreases |pieces|
  {
    if |pieces| > 0 {
      var p := pieces[0];
      var kept := if p == "" || p == "." then [] else [p];
      assert Keep(out, p) == out + kept;
      assert Named(pieces) == kept + Named(pieces[1..]);
      CollapseWithoutDotDot(out + kept, pieces[1..]);
      assert (out + kept) + Named(pieces[1..]) == out + (kept + Named(pieces[1..]));
    }
  }

  /** A path with no ".." piece splits into its non-empty, non-"." pieces, in order. */
  lemma SplitKeepsOrder(sv: string)
    requires forall k :: 0 <= k < |RawSplit(sv)| ==> RawSplit(sv)[k] != ".."
    ensures PathSplit(sv) == Named(RawSplit(sv))
  {
    PathSplitIsCollapse(sv);
    CollapseWithoutDotDot([], RawSplit(sv));
  }

  // ---------------------------------------------------------------------
  // PathCanonicalize
  // ---------------------------------------------------------------------

  /** Reference: the segments separated by '/'. */
  function Join(segs: seq<string>): string {
    if |segs| == 0 then ""
    else if |segs| == 1 then segs[0]
    else segs[0] + [SLASH] + Join(segs[1..])
  }

  /** The loop of `PathCanonicalize`: each segment followed by '/'. */
  function AppendEach(s2: string, av: seq<string>): (r: string)
    ensures |r| >= |s2| && r[..|s2|] == s2
    decreases |av|
  {
    if |av| == 0 then s2 else AppendEach(s2 + av[0] + [SLASH], av[1..])
  }

  lemma {:induction false} AppendEachIsJoin(s2: string, av: seq<string>)
    requires |av| > 0
    ensures AppendEach(s2, av) == s2 + Join(av) + [SLASH]
    decreases |av|
  {
    if |av| > 1 {
      AppendEachIsJoin(s2 + av[0] + [SLASH], av[1..]);
    }
  }

  /**
   * `PathCanonicalize`: "/" followed by each kept segment and a '/', with
   * the final '/' removed when the string is longer than two characters.
   */
  function PathCanonicalize(s: string): (r: string)
    ensures |r| > 0 && r[0] == SLASH
    ensures r == [SLASH] + Join(PathSplit(s))
    ensures r == "/" <==> |PathSplit(s)| == 0
    ensures |PathSplit(s)| > 0 ==> r[|r| - 1] != SLASH
  {
    var av := PathSplit(s);
    var s2 := AppendEach("/", av);
    CanonicalLoopShape(av);
    if |s2| > 2 then s2[..|s2| - 1] else s2
  }

  /**
   * With no segments the loop leaves "/"; otherwise it produces
   * "/" + the joined segments + "/", longer than two characters.
   */
  lemma CanonicalLoopShape(av: seq<string>)
    requires forall k :: 0 <= k < |av| ==> PlainSegment(av[k])
    ensures |av| == 0 ==> AppendEach("/", av) == "/"
    ensures |av| > 0 ==> var s2 := AppendEach("/", av);
              |s2| > 2 && s2[..|s2| - 1] == [SLASH] + Join(av)
    ensures |av| > 0 ==> |Join(av)| > 0 && Join(av)[|Join(av)| - 1] != SLASH
  {
    if |av| > 0 {
      AppendEachIsJoin("/", av);
      JoinNonEmpty(av);
      var s2 := AppendEach("/", av);
      assert s2 == ([SLASH] + Join(av)) + [SLASH];
    }
  }

  /** Joining plain segments gives a string that does not end in '/' and is at least one character long. */
  lemma {:induction false} JoinNonEmpty(segs: seq<string>)
    requires |segs| > 0
    requires forall k :: 0 <= k < |segs| ==> PlainSegment(segs[k])
    ensures |Join(segs)| > 0 && Join(segs)[|Join(segs)| - 1] != SLASH
    decreases |segs|
  {
    if |segs| > 1 {
      JoinNonEmpty(segs[1..]);
    } else {
      assert segs[0][|segs[0]| - 1] in segs[0];
    }
  }

  /** Cutting a join of plain segments gives back the segments. */
  lemma {:induction false} RawSplitOfJoin(segs: seq<string>)
    requires |segs| > 0
    requires forall k :: 0 <= k < |segs| ==> PlainSegment(segs[k])
    ensures RawSplit(Join(segs)) == segs
    decreases |segs|
  {
    if |segs| == 1 {
      var s := segs[0];
      assert FindSlash(s, 0).None?;
    } else {
      RawSplitOfJoin(segs[1..]);
      RawSplitAppend(segs[0], Join(segs[1..]));
      var s := segs[0];
      assert FindSlash(s, 0).None?;
    }
  }

  /** Splitting the canonical form gives back the segments it was built from. */
  lemma SplitOfCanonical(s: string)
    ensures PathSplit(PathCanonicalize(s)) == PathSplit(s)
  {
    var segs := PathSplit(s);
    SplitOfJoin("", Join(segs));
    assert [] + [SLASH] + Join(segs) == PathCanonicalize(s);
    assert PathSplit("") == [];
    if |segs| == 0 {
      assert RawSplit("") == [""];
    } else {
      RawSplitOfJoin(segs);
      CollapseWithoutDotDot([], segs);
      NamedOfPlain(segs);
    }
  }

  lemma {:induction false} NamedOfPlain(segs: seq<string>)
    requires forall k :: 0 <= k < |segs| ==> PlainSegment(segs[k])
    ensures Named(segs) == segs
    decreases |segs|
  {
    if |segs| > 0 {
      NamedOfPlain(segs[1..]);
    }
  }

  /** Canonicalizing is idempotent. */
  lemma CanonicalizeIdempotent(s: string)
    ensures PathCanonicalize(PathCanonicalize(s)) == PathCanonicalize(s)
  {
    SplitOfCanonical(s);
  }
}
