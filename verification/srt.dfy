/**
 * The caption file writer inside `index()` (app.py:100-108). For each segment, at
 * 1-based position `i`, the loop writes `i\n`, the timing line
 * `format_time(start) --> format_time(end)\n` and `text.strip() + "\n\n"`. The model
 * builds the file content as a string instead of writing it to a file handle.
 *
 * A reader for the same format, `ParseSrt`, states what a player gets back from the
 * file: one cue per segment, numbered from 1.
 */
module Srt {
  import opened Wrappers
  import opened Text
  import opened Clock
  import opened Segments

  /** The timing line, without its line break. */
  function TimingLine(seg: Segment): string {
    FormatTime(seg.start) + " --> " + FormatTime(seg.end)
  }

  /** The three writes the loop makes for segment `seg` at position `i`. */
  function Block(i: nat, seg: Segment): string {
    Decimal(i) + "\n" + TimingLine(seg) + "\n" + Strip(seg.text) + "\n\n"
  }

  /** The strings of `xs` one after the other. */
  function Concat(xs: seq<string>): string {
    if xs == [] then "" else Concat(xs[..|xs| - 1]) + xs[|xs| - 1]
  }

  /** Concatenation distributes over joining the lists. */
  lemma {:induction false} ConcatAppend(xs: seq<string>, ys: seq<string>)
    ensures Concat(xs + ys) == Concat(xs) + Concat(ys)
    decreases |ys|
  {
    if ys == [] {
      assert xs + ys == xs;
    } else {
      var zs := xs + ys;
      assert zs[..|zs| - 1] == xs + ys[..|ys| - 1];
      ConcatAppend(xs, ys[..|ys| - 1]);
    }
  }

  /** The blocks for `segs`, the `k`-th numbered `k + 1`. */
  function Blocks(segs: seq<Segment>): (r: seq<string>)
    ensures |r| == |segs|
  {
    seq(|segs|, k requires 0 <= k < |segs| => Block(k + 1, segs[k]))
  }

  /** The content of the caption file for `segs`: one block per segment, numbered from 1. */
  function SrtFile(segs: seq<Segment>): string {
    Concat(Blocks(segs))
  }

  /** The three writes for one segment append its block to the buffer. */
  lemma WriteBlock(before: string, n: string, a: string, b: string, x: string)
    ensures before + n + "\n" + a + " --> " + b + "\n" + x + "\n\n"
            == before + (n + "\n" + (a + " --> " + b) + "\n" + x + "\n\n")
  {
  }

  /** Taking one more block appends it. */
  lemma ConcatTake(blocks: seq<string>, i: nat)
    requires i < |blocks|
    ensures Concat(blocks[..i + 1]) == Concat(blocks[..i]) + blocks[i]
  {
    assert blocks[..i + 1][..i] == blocks[..i];
  }

  /**
   * The writing loop: one block per segment appended to the buffer, numbered from 1.
   * The same segments always give the same content.
   */
  method WriteSrt(segments: seq<Segment>) returns (content: string)
    ensures content == SrtFile(segments)
  {
    content := "";
    ghost var blocks := Blocks(segments);
    for i := 0 to |segments|
      invariant content == Concat(blocks[..i])
    {
      var seg := segments[i];
      ghost var before := content;
      content := content + Decimal(i + 1) + "\n";
      content := content + FormatTime(seg.start) + " --> " + FormatTime(seg.end) + "\n";
      content := content + Strip(seg.text) + "\n\n";
      WriteBlock(before, Decimal(i + 1), FormatTime(seg.start), FormatTime(seg.end), Strip(seg.text));
      ConcatTake(blocks, i);
    }
    assert blocks[..|segments|] == blocks;
  }

  // ---------------------------------------------------------------------------
  // Reading a caption file back.

  /** A cue as a player reads it: its number, its times and its one text line. */
  datatype Cue = Cue(index: nat, start: nat, end: nat, text: string)

  /** The position of the first `c` in `s`. */
  function Find(s: string, c: char): (r: Option<nat>)
    ensures r.Some? ==> r.value < |s| && s[r.value] == c && c !in s[..r.value]
    ensures r.None? ==> c !in s
  {
    if s == [] then None
    else if s[0] == c then Some(0)
    else
      match Find(s[1..], c)
      case None => None
      case Some(i) => Some(i + 1)
  }

  /** The first line of `s` and what follows its line break. */
  function NextLine(s: string): (r: Option<(string, string)>)
    ensures r.Some? ==> '\n' !in r.value.0 && s == r.value.0 + "\n" + r.value.1
    ensures r.None? <==> '\n' !in s
  {
    var i :- Find(s, '\n');
    assert s == s[..i] + "\n" + s[i + 1..];
    Some((s[..i], s[i + 1..]))
  }

  /** A line holding a cue number. */
  function ParseIndex(line: string): Option<nat> {
    if line != [] && AllDigits(line) then Some(ValueOf(line)) else None
  }

  /** A line `start --> end`. */
  function ParseTiming(line: string): Option<(nat, nat)> {
    var i :- Find(line, ' ');
    if i + 5 <= |line| && line[i..i + 5] == " --> " then
      var start :- ParseClock(line[..i]);
      var end :- ParseClock(line[i + 5..]);
      Some((start, end))
    else None
  }

  /** One cue: number line, timing line, text line, blank line; and what follows it. */
  function ParseBlock(s: string): (r: Option<(Cue, string)>)
    ensures r.Some? ==> |r.value.1| < |s|
  {
    var l1 :- NextLine(s);
    var l2 :- NextLine(l1.1);
    var l3 :- NextLine(l2.1);
    var l4 :- NextLine(l3.1);
    if l4.0 != [] then None
    else
      var index :- ParseIndex(l1.0);
      var times :- ParseTiming(l2.0);
      Some((Cue(index, times.0, times.1, l3.0), l4.1))
  }

  /** A whole caption file: cues until the content runs out; `None` if malformed. */
  function ParseSrt(s: string): Option<seq<Cue>>
    decreases |s|
  {
    if s == [] then Some([])
    else
      var b :- ParseBlock(s);
      var rest :- ParseSrt(b.1);
      Some([b.0] + rest)
  }

  /** The cues the blocks of `segs` are meant to carry: cue `k + 1` for segment `k`. */
  function Cues(segs: seq<Segment>): seq<Cue> {
    seq(|segs|, k requires 0 <= k < |segs| => Cue(k + 1, segs[k].start, segs[k].end, Strip(segs[k].text)))
  }

  lemma NextLineOf(a: string, b: string)
    requires '\n' !in a
    ensures NextLine(a + "\n" + b) == Some((a, b))
  {
    var s := a + "\n" + b;
    assert s[|a|] == '\n';
    assert s[..|a|] == a && s[|a| + 1..] == b;
  }

  /** A line `a --> b` reads back as the two clocks, when `a` holds no space. */
  lemma ParseTimingOf(a: string, b: string, x: nat, y: nat)
    requires ' ' !in a && ParseClock(a) == Some(x) && ParseClock(b) == Some(y)
    ensures ParseTiming(a + " --> " + b) == Some((x, y))
  {
    var line := a + " --> " + b;
    assert line[|a|] == ' ';
    assert line[..|a|] == a && line[|a|..|a| + 5] == " --> " && line[|a| + 5..] == b;
  }

  /** A timing line reads back as the two times it was written from. */
  lemma TimingRoundTrip(seg: Segment)
    ensures ParseTiming(TimingLine(seg)) == Some((seg.start, seg.end))
  {
    FormatTimeShape(seg.start);
    ClockHasNoBreaks(FormatTime(seg.start));
    ClockRoundTrip(seg.start);
    ClockRoundTrip(seg.end);
    ParseTimingOf(FormatTime(seg.start), FormatTime(seg.end), seg.start, seg.end);
  }

  /** No line break in a timing line. */
  lemma TimingOneLine(seg: Segment)
    ensures '\n' !in TimingLine(seg)
  {
    FormatTimeShape(seg.start);
    FormatTimeShape(seg.end);
    ClockHasNoBreaks(FormatTime(seg.start));
    ClockHasNoBreaks(FormatTime(seg.end));
    OneLineJoin(FormatTime(seg.start), FormatTime(seg.end));
  }

  lemma OneLineJoin(a: string, b: string)
    requires '\n' !in a && '\n' !in b
    ensures '\n' !in a + " --> " + b
  {
  }

  /** Four lines, the last empty, read back as one cue. */
  lemma ParseBlockOf(n: string, t: string, x: string, rest: string, c: Cue)
    requires '\n' !in n && '\n' !in t && '\n' !in x
    requires ParseIndex(n) == Some(c.index) && ParseTiming(t) == Some((c.start, c.end)) && c.text == x
    ensures ParseBlock(n + "\n" + t + "\n" + x + "\n\n" + rest) == Some((c, rest))
  {
    var r3 := "" + "\n" + rest;
    var r2 := x + "\n" + r3;
    var r1 := t + "\n" + r2;
    assert n + "\n" + t + "\n" + x + "\n\n" + rest == n + "\n" + r1;
    NextLineOf(n, r1);
    NextLineOf(t, r2);
    NextLineOf(x, r3);
    NextLineOf("", rest);
  }

  /** A block whose text is one line reads back as its cue, leaving what follows. */
  lemma BlockRoundTrip(i: nat, seg: Segment, rest: string)
    requires '\n' !in Strip(seg.text)
    ensures ParseBlock(Block(i, seg) + rest)
            == Some((Cue(i, seg.start, seg.end, Strip(seg.text)), rest))
  {
    var n := Decimal(i);
    assert '\n' !in n by {
      assert forall j | 0 <= j < |n| :: IsDigit(n[j]);
    }
    DecimalValue(i);
    TimingOneLine(seg);
    TimingRoundTrip(seg);
    ParseBlockOf(n, TimingLine(seg), Strip(seg.text), rest, Cue(i, seg.start, seg.end, Strip(seg.text)));
  }

  /** Concatenation seen from the front. */
  lemma ConcatCons(x: string, xs: seq<string>)
    ensures Concat([x] + xs) == x + Concat(xs)
  {
    ConcatAppend([x], xs);
    assert [x][..0] == [];
  }

  /** A block that reads back as one cue, in front of a file that reads back. */
  lemma ParseSrtCons(b: string, rest: string, c: Cue, cues: seq<Cue>)
    requires ParseBlock(b + rest) == Some((c, rest)) && ParseSrt(rest) == Some(cues)
    ensures ParseSrt(b + rest) == Some([c] + cues)
  {
  }

  /** A non-empty suffix is its first element followed by the rest. */
  lemma SuffixCons<T>(xs: seq<T>, j: nat)
    requires j < |xs|
    ensures xs[j..] == [xs[j]] + xs[j + 1..]
  {
  }

  /**
   * Blocks that each read back as their cue, whatever follows them, read back
   * together, from position `j` on, as the cues in order.
   */
  lemma {:induction false} ReadBack(bs: seq<string>, cs: seq<Cue>, j: nat)
    requires |bs| == |cs| && j <= |bs|
    requires forall k, rest | j <= k < |bs| :: ParseBlock(bs[k] + rest) == Some((cs[k], rest))
    ensures ParseSrt(Concat(bs[j..])) == Some(cs[j..])
    decreases |bs| - j
  {
    if j < |bs| {
      SuffixCons(bs, j);
      SuffixCons(cs, j);
      ConcatCons(bs[j], bs[j + 1..]);
      ReadBack(bs, cs, j + 1);
      ParseSrtCons(bs[j], Concat(bs[j + 1..]), cs[j], cs[j + 1..]);
    } else {
      assert bs[j..] == [] && cs[j..] == [];
    }
  }

  /** Block `k` of the file reads back as cue `k`. */
  lemma BlockReadsBack(segs: seq<Segment>, k: nat, rest: string)
    requires k < |segs| && '\n' !in Strip(segs[k].text)
    ensures ParseBlock(Blocks(segs)[k] + rest) == Some((Cues(segs)[k], rest))
  {
    BlockRoundTrip(k + 1, segs[k], rest);
  }

  /**
   * A caption file written for segments whose stripped text is one line reads back
   * as cue `k + 1` for segment `k`, with its start, end and stripped text.
   */
  lemma SrtRoundTrip(segs: seq<Segment>)
    requires forall k | 0 <= k < |segs| :: '\n' !in Strip(segs[k].text)
    ensures ParseSrt(SrtFile(segs)) == Some(Cues(segs))
  {
    var bs, cs := Blocks(segs), Cues(segs);
    forall k, rest | 0 <= k < |bs| ensures ParseBlock(bs[k] + rest) == Some((cs[k], rest)) {
      BlockReadsBack(segs, k, rest);
    }
    ReadBack(bs, cs, 0);
    assert bs[0..] == bs && cs[0..] == cs;
  }
}
