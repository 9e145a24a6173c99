/**
 * What `index()` does with the recogniser's result (app.py:90-108): it keeps the
 * stripped transcript and, in subtitle mode, takes the recogniser's segments or,
 * when there are none, the synthetic ones, and writes the caption file.
 */
module Pipeline {
  import opened Wrappers
  import opened Text
  import opened Segments
  import opened Splitter
  import opened Srt

  /** The form value that asks for captions. */
  const SubtitleMode: string := "subtitle"

  /** `result.get("text", "").strip()`. */
  function Transcript(tr: Transcription): string {
    Strip(tr.text.GetOr(""))
  }

  /**
   * `result.get("segments", [])`, replaced by `split_text_to_fake_segments(text)`
   * when it is empty.
   */
  function SelectSegments(tr: Transcription): seq<Segment> {
    var segs := tr.segments.GetOr([]);
    if segs != [] then segs else FakeSegments(Transcript(tr))
  }

  /** What the page is rendered with: the transcript, the caption list and the file written. */
  datatype Outcome = Outcome(text: string, subtitles: seq<Segment>, srt: Option<string>)

  /**
   * The part of `index()` after transcription. Outside subtitle mode only the
   * transcript is kept; in subtitle mode the segments are chosen and the caption
   * file is written from them.
   */
  method Respond(tr: Transcription, mode: string) returns (o: Outcome)
    ensures o.text == Transcript(tr)
    ensures mode == SubtitleMode ==> o.subtitles == SelectSegments(tr) && o.srt == Some(SrtFile(o.subtitles))
    ensures mode != SubtitleMode ==> o.subtitles == [] && o.srt == None
  {
    var text := Strip(tr.text.GetOr(""));
    var subtitles: seq<Segment> := [];
    var srt: Option<string> := None;
    if mode == SubtitleMode {
      var segments := tr.segments.GetOr([]);
      if |segments| == 0 {
        segments := SplitTextToFakeSegments(text);
      }
      subtitles := segments;
      var content := WriteSrt(subtitles);
      srt := Some(content);
    }
    o := Outcome(text, subtitles, srt);
  }

  /**
   * Segments from the recogniser pass through untouched; without them the captions
   * are one 2.5 second slot per non-blank sentence of the stripped transcript, in
   * order, and there are none exactly when the transcript is blank.
   */
  lemma SelectSegmentsSpec(tr: Transcription)
    ensures tr.segments.Some? && tr.segments.value != [] ==> SelectSegments(tr) == tr.segments.value
    ensures tr.segments.None? || tr.segments.value == [] ==>
      var sentences := NonBlank(Sentences(Transcript(tr)));
      var r := SelectSegments(tr);
      |r| == |sentences|
      && (forall k | 0 <= k < |r| ::
            r[k] == Segment(SlotMillis * k, SlotMillis * k + SlotMillis, sentences[k]))
      && (r == [] <==> IsBlank(Transcript(tr)))
  {
    if tr.segments.None? || tr.segments.value == [] {
      FakeSegmentsTimeline(Transcript(tr));
      FakeSegmentsEmpty(Transcript(tr));
    }
  }
}
