/**
 * `split_text_to_fake_segments` (app.py:29-42): the fallback used when the
 * recogniser returns no timed segments. The transcript is cut with
 * `re.split(r'(?<=[.!?])\s+', text)`, blank pieces are dropped, and every other piece
 * becomes a 2.5 second segment, the segments laid end to end from time zero.
 */
module Splitter {
  import opened Text
  import opened Segments

  /** The fixed length of a synthetic segment, 2.5 seconds. */
  const SlotMillis: nat := 2500

  /** The characters of the look-behind class `[.!?]`. */
  predicate IsTerminator(c: char) {
    c == '.' || c == '!' || c == '?'
  }

  /** The pattern `(?<=[.!?])\s+` can start a match at position `p` of `s`. */
  predicate SplitsAt(s: string, p: int) {
    0 < p < |s| && IsTerminator(s[p - 1]) && IsSpace(s[p])
  }

  /**
   * The result of the split together with what it consumed: `fragments` are what
   * `re.split` returns, `gaps` the whitespace runs matched between them.
   */
  datatype Pieces = Pieces(fragments: seq<string>, gaps: seq<string>)

  /**
   * The scan `re.split` performs: the current fragment began at `start`, and the
   * pattern is tried at `p` and onwards.
   */
  function Scan(s: string, start: nat, p: nat): (r: Pieces)
    requires start <= p <= |s|
    decreases |s| - p
  {
    if p == |s| then Pieces([s[start..]], [])
    else if SplitsAt(s, p) then
      var e := RunEnd(s, p);
      var rest := Scan(s, e, e);
      Pieces([s[start..p]] + rest.fragments, [s[p..e]] + rest.gaps)
    else Scan(s, start, p + 1)
  }

  /** `re.split(r'(?<=[.!?])\s+', s)`, with the separators it consumed. */
  function SplitPieces(s: string): Pieces {
    Scan(s, 0, 0)
  }

  /** The sentences `re.split(r'(?<=[.!?])\s+', s)` returns. */
  function Sentences(s: string): seq<string> {
    SplitPieces(s).fragments
  }

  /** `fs[0] + gs[0] + fs[1] + gs[1] + ... + fs[n]`. */
  function Interleave(fs: seq<string>, gs: seq<string>): string
    requires |fs| == |gs| + 1
    decreases |gs|
  {
    if gs == [] then fs[0] else fs[0] + gs[0] + Interleave(fs[1..], gs[1..])
  }

  /**
   * What it means for `P` to be the split of `s` by `(?<=[.!?])\s+`: the first
   * fragment holds no place where the pattern could match; if it is the only one it
   * is all of `s`; otherwise it ends in `.`, `!` or `?`, is followed in `s` by its
   * run, a non-empty stretch of whitespace that is maximal (the end of `s` or a
   * non-space follows it), and the rest of `s` after the run is split the same way.
   */
  ghost predicate WellSplit(s: string, P: Pieces)
    decreases |P.gaps|
  {
    |P.fragments| == |P.gaps| + 1
    && (forall j :: !SplitsAt(P.fragments[0], j))
    && if P.gaps == [] then s == P.fragments[0]
       else
         var f, g := P.fragments[0], P.gaps[0];
         var n := |f| + |g|;
         f != [] && IsTerminator(f[|f| - 1]) && g != [] && IsBlank(g)
         && n <= |s| && s[..n] == f + g && (n == |s| || !IsSpace(s[n]))
         && WellSplit(s[n..], Pieces(P.fragments[1..], P.gaps[1..]))
  }

  /** A stretch of `s` with no match position in it has none of its own. */
  lemma NoSplitInside(s: string, start: nat, p: nat)
    requires start <= p <= |s|
    requires forall q | start <= q < p :: !SplitsAt(s, q)
    ensures forall j :: !SplitsAt(s[start..p], j)
  {
    forall j ensures !SplitsAt(s[start..p], j) {
      if 0 < j < p - start {
        assert s[start..p][j - 1] == s[start + j - 1] && s[start..p][j] == s[start + j];
        assert !SplitsAt(s, start + j);
      }
    }
  }

  /** A sentence and its run in front of a well-split rest make a well-split whole. */
  lemma ConsWellSplit(f: string, g: string, rest: string, R: Pieces)
    requires f != [] && IsTerminator(f[|f| - 1]) && forall j :: !SplitsAt(f, j)
    requires g != [] && IsBlank(g) && (rest == [] || !IsSpace(rest[0]))
    requires WellSplit(rest, R)
    ensures WellSplit(f + g + rest, Pieces([f] + R.fragments, [g] + R.gaps))
  {
    var t, n := f + g + rest, |f| + |g|;
    var P := Pieces([f] + R.fragments, [g] + R.gaps);
    assert P.fragments[1..] == R.fragments && P.gaps[1..] == R.gaps;
    assert t[..n] == f + g && t[n..] == rest;
  }

  /** Adjacent slices join into one. */
  lemma SliceSplit(s: string, a: nat, b: nat, c: nat)
    requires a <= b <= c <= |s|
    ensures s[a..c] == s[a..b] + s[b..c]
  {
  }

  /** Where the scan finds a match, it cuts there and resumes after the run. */
  lemma ScanCut(s: string, start: nat, p: nat)
    requires start <= p < |s| && SplitsAt(s, p)
    ensures var e := RunEnd(s, p); var R := Scan(s, e, e);
      Scan(s, start, p) == Pieces([s[start..p]] + R.fragments, [s[p..e]] + R.gaps)
  {
  }

  /** The sentence before a match and the run after it, seen from the suffix at `start`. */
  lemma MatchParts(s: string, start: nat, p: nat)
    requires start < p < |s| && SplitsAt(s, p)
    ensures var e := RunEnd(s, p);
      var f, g := s[start..p], s[p..e];
      s[start..] == f + g + s[e..]
      && f != [] && IsTerminator(f[|f| - 1]) && g != [] && IsBlank(g)
      && (s[e..] == [] || !IsSpace(s[e..][0]))
  {
    var e := RunEnd(s, p);
    SliceSplit(s, start, p, e);
    SliceSplit(s, start, e, |s|);
    assert s[start..p][p - 1 - start] == s[p - 1];
  }

  /** A sentence cut at a match, its run and a well-split rest make a well-split whole. */
  lemma MatchWellSplit(s: string, start: nat, p: nat, R: Pieces)
    requires start < p < |s| && SplitsAt(s, p)
    requires forall q | start <= q < p :: !SplitsAt(s, q)
    requires WellSplit(s[RunEnd(s, p)..], R)
    ensures WellSplit(s[start..], Pieces([s[start..p]] + R.fragments, [s[p..RunEnd(s, p)]] + R.gaps))
  {
    NoSplitInside(s, start, p);
    MatchParts(s, start, p);
    ConsWellSplit(s[start..p], s[p..RunEnd(s, p)], s[RunEnd(s, p)..], R);
  }

  /** The scan from `start` splits the rest of `s` as the pattern does. */
  lemma {:induction false} ScanWellSplit(s: string, start: nat, p: nat)
    requires start <= p <= |s|
    requires start == 0 || IsSpace(s[start - 1])
    requires forall q | start <= q < p :: !SplitsAt(s, q)
    ensures WellSplit(s[start..], Scan(s, start, p))
    decreases |s| - p
  {
    if p == |s| {
      NoSplitInside(s, start, p);
      assert s[start..p] == s[start..];
    } else if SplitsAt(s, p) {
      var e := RunEnd(s, p);
      assert s[e - 1] == s[p..e][e - 1 - p];
      ScanWellSplit(s, e, e);
      ScanCut(s, start, p);
      MatchWellSplit(s, start, p, Scan(s, e, e));
    } else {
      ScanWellSplit(s, start, p + 1);
    }
  }

  /** `re.split` with this pattern cuts `s` exactly as `WellSplit` describes. */
  lemma SplitPiecesWellSplit(s: string)
    ensures WellSplit(s, SplitPieces(s))
  {
    ScanWellSplit(s, 0, 0);
    assert s[0..] == s;
  }

  /** A whitespace run that ends at the end of `s` or before a non-space is the greedy one. */
  lemma {:induction false} GreedyRun(s: string, p: nat, q: nat)
    requires p <= q <= |s| && IsBlank(s[p..q]) && (q == |s| || !IsSpace(s[q]))
    ensures RunEnd(s, p) == q
    decreases q - p
  {
    if p < q {
      assert s[p] == s[p..q][0];
      var rest := s[p + 1..q];
      forall k | 0 <= k < |rest| ensures IsSpace(rest[k]) {
        assert rest[k] == s[p..q][k + 1];
      }
      GreedyRun(s, p + 1, q);
    }
  }

  /** The scan moves over a stretch with no match position without cutting. */
  lemma {:induction false} ScanSkip(s: string, start: nat, p: nat, q: nat)
    requires start <= p <= q <= |s|
    requires forall x | p <= x < q :: !SplitsAt(s, x)
    ensures Scan(s, start, p) == Scan(s, start, q)
    decreases q - p
  {
    if p < q {
      ScanSkip(s, start, p + 1, q);
    }
  }

  /** The first sentence of a well-split rest of `s` holds no match position of `s`. */
  lemma NoSplitBefore(s: string, start: nat, f: string)
    requires start + |f| <= |s| && f == s[start..start + |f|]
    requires start == 0 || IsSpace(s[start - 1])
    requires forall j :: !SplitsAt(f, j)
    ensures forall x | start <= x < start + |f| :: !SplitsAt(s, x)
  {
    forall x | start < x < start + |f| ensures !SplitsAt(s, x) {
      assert !SplitsAt(f, x - start);
    }
  }

  /** At a match the scan yields the current sentence, the run, and the scan after the run. */
  lemma ScanMatchStep(s: string, start: nat, p: nat, P: Pieces)
    requires start <= p < |s| && SplitsAt(s, p) && |P.fragments| == |P.gaps| + 1 && |P.gaps| > 0
    requires P.fragments[0] == s[start..p]
    requires P.gaps[0] == s[p..RunEnd(s, p)]
    requires Scan(s, RunEnd(s, p), RunEnd(s, p)) == Pieces(P.fragments[1..], P.gaps[1..])
    ensures Scan(s, start, p) == P
  {
    assert P.fragments == [P.fragments[0]] + P.fragments[1..];
    assert P.gaps == [P.gaps[0]] + P.gaps[1..];
  }

  /** What `WellSplit` says about the first sentence and run, when there is a run. */
  lemma WellSplitHead(t: string, P: Pieces)
    requires WellSplit(t, P) && P.gaps != []
    ensures var f, g := P.fragments[0], P.gaps[0];
      var n := |f| + |g|;
      n <= |t| && t[..|f|] == f && t[|f|..n] == g
      && f != [] && IsTerminator(f[|f| - 1]) && g != [] && IsBlank(g)
      && (n == |t| || !IsSpace(t[n]))
      && WellSplit(t[n..], Pieces(P.fragments[1..], P.gaps[1..]))
  {
    PrefixParts(t, P.fragments[0], P.gaps[0]);
  }

  /** The first sentence and run of a well-split rest of `s`, located in `s`. */
  lemma FirstSentence(s: string, start: nat, P: Pieces)
    requires start <= |s| && WellSplit(s[start..], P) && P.gaps != []
    ensures var f, g := P.fragments[0], P.gaps[0];
      var p := start + |f|; var e := p + |g|;
      e <= |s| && f == s[start..p] && g == s[p..e] && f != [] && IsTerminator(f[|f| - 1])
      && g != [] && IsBlank(g) && (e == |s| || !IsSpace(s[e]))
      && WellSplit(s[e..], Pieces(P.fragments[1..], P.gaps[1..]))
  {
    var t, f, g := s[start..], P.fragments[0], P.gaps[0];
    var n := |f| + |g|;
    WellSplitHead(t, P);
    SuffixSlices(s, start, |f|, n);
    if start + n < |s| {
      assert s[start + n] == t[n];
    }
  }

  /** A prefix that is `f + g` splits into `f` and then `g`. */
  lemma PrefixParts(t: string, f: string, g: string)
    requires |f| + |g| <= |t| && t[..|f| + |g|] == f + g
    ensures t[..|f|] == f && t[|f|..|f| + |g|] == g
  {
    assert t[..|f|] == (f + g)[..|f|];
    assert t[|f|..|f| + |g|] == (f + g)[|f|..];
  }

  /** Slices of the suffix `s[a..]` are slices of `s`. */
  lemma SuffixSlices(s: string, a: nat, i: nat, j: nat)
    requires a + j <= |s| && i <= j
    ensures s[a..][..i] == s[a..a + i] && s[a..][i..j] == s[a + i..a + j] && s[a..][j..] == s[a + j..]
  {
  }

  /** A scan that starts at the beginning of a sentence ending at `p` cuts at `p`. */
  lemma ScanFirstCut(s: string, start: nat, P: Pieces)
    requires start <= |s| && (start == 0 || IsSpace(s[start - 1]))
    requires |P.fragments| == |P.gaps| + 1 && P.gaps != []
    requires forall j :: !SplitsAt(P.fragments[0], j)
    requires var f, g := P.fragments[0], P.gaps[0];
      var p := start + |f|; var e := p + |g|;
      e <= |s| && f == s[start..p] && g == s[p..e] && f != [] && IsTerminator(f[|f| - 1])
      && g != [] && IsBlank(g) && (e == |s| || !IsSpace(s[e]))
      && Scan(s, e, e) == Pieces(P.fragments[1..], P.gaps[1..])
    ensures Scan(s, start, start) == P
  {
    var f, g := P.fragments[0], P.gaps[0];
    var p := start + |f|;
    var e := p + |g|;
    NoSplitBefore(s, start, f);
    ScanSkip(s, start, start, p);
    assert SplitsAt(s, p) by {
      assert s[p - 1] == f[|f| - 1];
      assert s[p] == g[0];
    }
    GreedyRun(s, p, e);
    ScanMatchStep(s, start, p, P);
  }

  /** The scan from the start of a well-split rest of `s` produces exactly its pieces. */
  lemma {:induction false} ScanUnique(s: string, start: nat, P: Pieces)
    requires start <= |s|
    requires start == 0 || IsSpace(s[start - 1])
    requires WellSplit(s[start..], P)
    ensures Scan(s, start, start) == P
    decreases |s| - start
  {
    var f := P.fragments[0];
    if P.gaps == [] {
      assert f == s[start..start + |f|];
      NoSplitBefore(s, start, f);
      ScanSkip(s, start, start, |s|);
      assert P.fragments == [f];
    } else {
      var e := start + |f| + |P.gaps[0]|;
      FirstSentence(s, start, P);
      ScanUnique(s, e, Pieces(P.fragments[1..], P.gaps[1..]));
      ScanFirstCut(s, start, P);
    }
  }

  /**
   * `WellSplit` determines the split: any pieces that meet it are the ones
   * `re.split` returns.
   */
  lemma SplitPiecesUnique(s: string, P: Pieces)
    requires WellSplit(s, P)
    ensures P == SplitPieces(s)
  {
    assert s[0..] == s;
    ScanUnique(s, 0, P);
  }

  /**
   * The fragments and the runs consumed between them, interleaved, give back the
   * input exactly; every run is non-empty whitespace and follows a fragment that
   * ends in `.`, `!` or `?`.
   */
  lemma {:induction false} WellSplitPieces(s: string, P: Pieces)
    requires WellSplit(s, P)
    ensures Interleave(P.fragments, P.gaps) == s
    ensures forall k | 0 <= k < |P.gaps| :: P.gaps[k] != [] && IsBlank(P.gaps[k])
    ensures forall k | 0 <= k < |P.gaps| ::
      P.fragments[k] != [] && IsTerminator(P.fragments[k][|P.fragments[k]| - 1])
    decreases |P.gaps|
  {
    if P.gaps != [] {
      var f, g := P.fragments[0], P.gaps[0];
      var n := |f| + |g|;
      var R := Pieces(P.fragments[1..], P.gaps[1..]);
      WellSplitPieces(s[n..], R);
      assert s == f + g + s[n..] by {
        assert s == s[..n] + s[n..];
      }
      forall k | 1 <= k < |P.gaps| ensures P.gaps[k] == R.gaps[k - 1] && P.fragments[k] == R.fragments[k - 1] {
      }
    }
  }

  /** No fragment holds a place where the pattern could have matched. */
  lemma {:induction false} WellSplitNoInnerMatch(s: string, P: Pieces)
    requires WellSplit(s, P)
    ensures forall k, j | 0 <= k < |P.fragments| :: !SplitsAt(P.fragments[k], j)
    decreases |P.gaps|
  {
    if P.gaps != [] {
      var n := |P.fragments[0]| + |P.gaps[0]|;
      var R := Pieces(P.fragments[1..], P.gaps[1..]);
      WellSplitNoInnerMatch(s[n..], R);
      forall k | 1 <= k < |P.fragments| ensures P.fragments[k] == R.fragments[k - 1] {
      }
    }
  }

  /** The string is blank exactly when every fragment is. */
  lemma WellSplitBlank(s: string, P: Pieces)
    requires WellSplit(s, P)
    ensures IsBlank(s) <==> forall k | 0 <= k < |P.fragments| :: IsBlank(P.fragments[k])
  {
    if P.gaps != [] {
      // Both sides are false: the first fragment ends in a terminator, which is not whitespace.
      var f, g := P.fragments[0], P.gaps[0];
      assert s[|f| - 1] == (f + g)[|f| - 1] == f[|f| - 1];
      assert !IsSpace(s[|f| - 1]);
      assert !IsBlank(P.fragments[0]);
    }
  }

  // ---------------------------------------------------------------------------
  // The synthetic segments.

  /**
   * The fragments that pass the `if s.strip()` filter, in order; `s.strip()` is
   * non-empty exactly when `s` is not all whitespace (see `Text.Strip`).
   */
  function NonBlank(fragments: seq<string>): seq<string> {
    if fragments == [] then []
    else if IsBlank(fragments[0]) then NonBlank(fragments[1..])
    else [fragments[0]] + NonBlank(fragments[1..])
  }

  /**
   * The loop of `split_text_to_fake_segments`: each non-blank fragment gets a slot
   * `[t, t + 2.5 s)` and the clock `t` moves on by one slot.
   */
  function LayOut(fragments: seq<string>, t: nat): seq<Segment> {
    if fragments == [] then []
    else if IsBlank(fragments[0]) then LayOut(fragments[1..], t)
    else [Segment(t, t + SlotMillis, fragments[0])] + LayOut(fragments[1..], t + SlotMillis)
  }

  /** The value `split_text_to_fake_segments(text)` returns. */
  function FakeSegments(text: string): seq<Segment> {
    LayOut(Sentences(text), 0)
  }

  /**
   * Slot `k` of a layout starting at `t` runs from `t + 2.5 s * k` for 2.5 s and carries
   * the `k`-th non-blank fragment, unchanged.
   */
  lemma {:induction false} LayOutTimeline(fragments: seq<string>, t: nat)
    ensures |LayOut(fragments, t)| == |NonBlank(fragments)|
    ensures forall k | 0 <= k < |LayOut(fragments, t)| ::
      LayOut(fragments, t)[k]
        == Segment(t + SlotMillis * k, t + SlotMillis * k + SlotMillis, NonBlank(fragments)[k])
  {
    if fragments != [] {
      if IsBlank(fragments[0]) {
        LayOutTimeline(fragments[1..], t);
      } else {
        LayOutTimeline(fragments[1..], t + SlotMillis);
        var rest := LayOut(fragments[1..], t + SlotMillis);
        var L, N := LayOut(fragments, t), NonBlank(fragments);
        assert L == [Segment(t, t + SlotMillis, fragments[0])] + rest;
        assert N == [fragments[0]] + NonBlank(fragments[1..]);
        forall k | 1 <= k < |L|
          ensures L[k] == Segment(t + SlotMillis * k, t + SlotMillis * k + SlotMillis, N[k])
        {
          assert L[k] == rest[k - 1] && N[k] == NonBlank(fragments[1..])[k - 1];
          assert SlotMillis * k == SlotMillis * (k - 1) + SlotMillis;
        }
      }
    }
  }

  /**
   * The fallback gives one segment per non-blank sentence, in order, with its raw
   * text; segment `k` starts at 2.5 s times `k` and lasts 2.5 s.
   */
  lemma FakeSegmentsTimeline(text: string)
    ensures |FakeSegments(text)| == |NonBlank(Sentences(text))|
    ensures forall k | 0 <= k < |FakeSegments(text)| ::
      FakeSegments(text)[k]
        == Segment(SlotMillis * k, SlotMillis * k + SlotMillis, NonBlank(Sentences(text))[k])
  {
    LayOutTimeline(Sentences(text), 0);
  }

  /** The synthetic segments start at zero and each starts where the previous one ends. */
  lemma FakeSegmentsContiguous(text: string)
    ensures FakeSegments(text) != [] ==> FakeSegments(text)[0].start == 0
    ensures forall k | 0 < k < |FakeSegments(text)| ::
      FakeSegments(text)[k].start == FakeSegments(text)[k - 1].end
  {
    FakeSegmentsTimeline(text);
  }

  /** No fragment survives the filter exactly when every fragment is blank. */
  lemma {:induction false} NonBlankEmpty(fragments: seq<string>)
    ensures NonBlank(fragments) == [] <==> forall k | 0 <= k < |fragments| :: IsBlank(fragments[k])
  {
    if fragments != [] {
      NonBlankEmpty(fragments[1..]);
      assert forall k | 1 <= k < |fragments| :: fragments[k] == fragments[1..][k - 1];
    }
  }

  /**
   * The fallback produces no segment exactly when the transcript is empty or all
   * whitespace.
   */
  lemma FakeSegmentsEmpty(text: string)
    ensures FakeSegments(text) == [] <==> IsBlank(text)
  {
    var P := SplitPieces(text);
    SplitPiecesWellSplit(text);
    WellSplitBlank(text, P);
    NonBlankEmpty(P.fragments);
    LayOutTimeline(P.fragments, 0);
  }

  /** One step of the layout, taken at position `i` of the fragment list. */
  lemma LayOutStep(fragments: seq<string>, i: nat, t: nat)
    requires i < |fragments|
    ensures LayOut(fragments[i..], t) == if IsBlank(fragments[i]) then LayOut(fragments[i + 1..], t)
      else [Segment(t, t + SlotMillis, fragments[i])] + LayOut(fragments[i + 1..], t + SlotMillis)
  {
    assert fragments[i..][1..] == fragments[i + 1..];
  }

  /** Appending one segment and then the rest is the same as appending both at once. */
  lemma AppendSegment(done: seq<Segment>, x: Segment, rest: seq<Segment>)
    ensures done + ([x] + rest) == (done + [x]) + rest
  {
  }

  /**
   * `split_text_to_fake_segments`: walks the sentences with a running start time
   * `t`, appending a 2.5 second segment for each non-blank one.
   */
  method SplitTextToFakeSegments(text: string) returns (segments: seq<Segment>)
    ensures segments == FakeSegments(text)
    ensures |segments| == |NonBlank(Sentences(text))|
    ensures forall k | 0 <= k < |segments| ::
      segments[k] == Segment(SlotMillis * k, SlotMillis * k + SlotMillis, NonBlank(Sentences(text))[k])
  {
    var sentences := Sentences(text);
    segments := [];
    var t: nat := 0;
    for i := 0 to |sentences|
      invariant t == SlotMillis * |segments|
      invariant segments + LayOut(sentences[i..], t) == LayOut(sentences, 0)
    {
      var s := sentences[i];
      LayOutStep(sentences, i, t);
      StripEmpty(s);
      if Strip(s) != [] {
        AppendSegment(segments, Segment(t, t + SlotMillis, s), LayOut(sentences[i + 1..], t + SlotMillis));
        segments := segments + [Segment(t, t + SlotMillis, s)];
        t := t + SlotMillis;
      }
    }
    assert sentences[|sentences|..] == [];
    FakeSegmentsTimeline(text);
  }
}
