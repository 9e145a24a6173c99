/**
 * A caption segment and the recogniser's result, the values that flow from
 * transcription to the caption writer (app.py:90-108).
 */
module Segments {
  import opened Wrappers

  /**
   * A timed span of transcript. Times are whole milliseconds (the source carries
   * float seconds); `text` is kept exactly as produced.
   */
  datatype Segment = Segment(start: nat, end: nat, text: string)

  /**
   * What the recogniser returns: a dictionary whose `"text"` and `"segments"` entries
   * may each be absent.
   */
  datatype Transcription = Transcription(text: Option<string>, segments: Option<seq<Segment>>)
}
