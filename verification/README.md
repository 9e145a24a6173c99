# Caption core of the video transcription page

The application takes an uploaded video, transcribes its audio and, in subtitle
mode, writes a caption file in the SubRip (`.srt`) format. This project models the
part of `app.py` that turns a transcription into captions, and proves what that
part does:

- `format_time` (clock.dfy). A time is written as the caption clock `HH:MM:SS,mmm`.
  Hours are padded to at least two digits and are not capped at 24. The clock reads
  back (`ParseClock`) as the time it was written from.
- `split_text_to_fake_segments` (splitter.dfy). This is the fallback used when the
  recogniser returns no timed segments. The transcript is cut by
  `re.split(r'(?<=[.!?])\s+', text)`, modelled as a scan (`Scan`). The scan is
  proved equal to an independent description of that split (`WellSplit`), in both
  directions. Blank sentences are dropped, and the others get consecutive
  2.5 second slots from time zero. The loop is a method proved equal to the
  function `FakeSegments`.
- The rest of `index()` after transcription (pipeline.dfy), and the writing loop
  for the caption file (srt.dfy).
  - The transcript is stripped.
  - In subtitle mode, the segments are the recogniser's own or, if there are none,
    the synthetic ones.
  - Each segment becomes a block: its 1-based number, the timing line and the
    stripped text, then a blank line.
  - A reader for the same format (`ParseSrt`) gets back one cue per segment, with
    its number, times and stripped text.

Shared pieces:

- text.dfy holds Python's `str.strip()` and whitespace class, and the decimal
  fields of an f-string.
- segments.dfy holds the segment and transcription values.
- wrappers.dfy holds `Option`.

Times are whole milliseconds (`nat`). The source uses float seconds.

Where the design description of the system and the code disagree, the model
follows the code:

- The design description says the writer skips segments whose stripped text is
  empty. The code writes a block for every segment, and so does `WriteSrt`.
- The design description says segments from the recogniser have their text trimmed
  when they are selected. The code passes them through unchanged and strips the
  text only when writing the block. `SelectSegments` and `Respond` do the same.
- The design description derives milliseconds by rounding and asks for a carry
  when they reach 1000. The code truncates with `int(...)`. On whole milliseconds,
  truncation never produces 1000, and `FieldsOfSpec` proves that the field stays
  below 1000.
- The design description calls a segment's text non-empty and trimmed. Neither the
  recogniser's segments nor the fallback's are checked or trimmed: a fallback
  segment keeps its sentence's raw text.

## Model

| member | source | states |
|---|---|---|
| Text.StripSpec | app.py:90 | `strip()` returns the middle of the string, with only whitespace cut from each end, and the result neither starts nor ends with whitespace |
| Text.StripEmpty | app.py:35 | `s.strip()` is empty exactly when `s` is empty or all whitespace, which is the fallback's filter test |
| Text.StripTrimmed | app.py:108 | stripping an already trimmed text leaves it unchanged |
| Text.Decimal | app.py:104 | `str(i)` is all digits, with no leading zero unless it is the single digit |
| Text.DecimalValue | app.py:104 | the written cue number reads back as the number |
| Text.PaddedValue | app.py:26 | a zero-padded field `{n:02}` / `{n:03}` is all digits and reads back as `n` |
| Clock.FieldsOfSpec | app.py:22-25 | minutes and seconds are below 60 and milliseconds below 1000; hours are `t / 3600000`, not capped at 24; the four fields add back up to `t` |
| Clock.FormatTimeShape | app.py:26 | the result has the clock shape `\d{2,}:\d{2}:\d{2},\d{3}`, with as many hour digits as `{h:02}` gives |
| Clock.FormatTimeLength | app.py:25-26 | the clock is exactly 12 characters long if and only if the hours are below 100 |
| Clock.ClockRoundTrip | app.py:20-26 | reading the formatted clock back gives exactly the time it was made from |
| Clock.FormatTimeInjective | app.py:20-26 | two different times never give the same clock |
| Clock.ClockHasNoBreaks | app.py:26 | a clock holds no space and no line break, so the timing line splits cleanly at ` --> ` |
| Splitter.SplitPiecesWellSplit | app.py:31 | the scan cuts only after `.`, `!` or `?`. Each cut consumes a maximal non-empty whitespace run, and no sentence keeps a place where the pattern could match |
| Splitter.SplitPiecesUnique | app.py:31 | the other direction: any cutting that meets that description is the one the scan makes, so the split is determined by the pattern |
| Splitter.WellSplitPieces | app.py:31 | the sentences and the whitespace runs between them, interleaved, give back the text exactly. Every run is non-empty whitespace, and every sentence before a run ends in a terminator that stays attached to it |
| Splitter.WellSplitNoInnerMatch | app.py:31 | no sentence contains a terminator followed by whitespace |
| Splitter.WellSplitBlank | app.py:31-35 | the text is blank if and only if every sentence is blank |
| Splitter.NonBlankEmpty | app.py:34-35 | no sentence passes the filter if and only if all are blank |
| Splitter.LayOutTimeline | app.py:33-41 | the `k`-th kept sentence gets the slot starting at `t + 2.5 s * k` and lasting 2.5 s, with its text unchanged; one slot per kept sentence |
| Splitter.FakeSegmentsTimeline | app.py:29-42 | the fallback returns one segment per non-blank sentence, in order, timed `[2.5 s * k, 2.5 s * (k + 1))` |
| Splitter.FakeSegmentsContiguous | app.py:33-41 | the first synthetic segment starts at 0, and each one starts where the previous one ends |
| Splitter.FakeSegmentsEmpty | app.py:29-42 | the fallback returns no segment if and only if the text is empty or all whitespace |
| Splitter.SplitTextToFakeSegments | app.py:29-42 | the loop returns `FakeSegments(text)`: one 2.5 s segment per non-blank sentence, segment `k` at `2.5 s * k`, carrying the `k`-th non-blank sentence |
| Srt.WriteSrt | app.py:102-108 | the loop's output is the concatenation of the blocks: number `i`, timing line, stripped text and blank line for the `i`-th segment, in input order and numbered from 1 |
| Srt.TimingRoundTrip | app.py:105-107 | the timing line `format_time(start) --> format_time(end)` reads back as the segment's start and end |
| Srt.BlockRoundTrip | app.py:104-108 | one block reads back as its cue (number, start, end, stripped text), leaving whatever follows it untouched |
| Srt.SrtRoundTrip | app.py:101-108 | the whole file reads back as cue `k + 1` for segment `k`, with its times and stripped text, in order, as long as each stripped text is one line |
| Pipeline.Respond | app.py:90-108 | the page gets the stripped transcript. In subtitle mode it gets the selected segments and the caption file written from them; otherwise it gets no segments and no file |
| Pipeline.SelectSegmentsSpec | app.py:93-96 | non-empty recogniser segments pass through unchanged. Otherwise the captions are the fallback's timeline over the stripped transcript, and there are none if and only if that transcript is blank |

## Left out

- Flask routing, the form, the upload, the generated file names, the `ffmpeg` call, the audio-file check, the recogniser itself, the exception handler and page rendering are all I/O or foreign code. The recogniser's result is the parameter `Transcription`, and the selected mode is a parameter of `Respond`.
- Opening and writing the caption file: `WriteSrt` returns the content that the three `f.write` calls put into the file. UTF-8 encoding is not modelled; strings are sequences of Unicode characters.
- Float seconds: every time is a whole number of milliseconds. Float error in `format_time` is not modelled (for example, `format_time(1.2)` gives `,199` in the source), nor is the float sum `t += 2.5`, which is exact in milliseconds.
- Negative times: times are `nat`. The source would print a negative time with Python's floor division.
- Segment dictionaries: only `start`, `end` and `text` are modelled. A recogniser segment missing one of them raises `KeyError` in the source; the model's segments always have all three.
- Srt.SrtRoundTrip: holds only for segments whose stripped text has no line break. A text with a line break of its own spreads over several lines and cannot be told apart from the end of its block.
- Clock.ParseClock, Srt.ParseSrt and Splitter.WellSplit are reference definitions for stating these properties. They are not part of the source.
