# vosk-srt subtitle core, in Dafny

The tool turns the word-level output of a speech recognizer into a SubRip
(`.srt`) file. It makes one subtitle entry per recognized word and stamps
each entry with the word's start and end time. This project models the part
of `src/main.rs` that is the tool's own logic:

- **the timestamp formatter** (`format_time`). A duration is truncated to
  whole milliseconds. Integer division and remainder split it into hours,
  minutes, seconds and milliseconds. These are printed as `HH:MM:SS,mmm`,
  each field zero-padded to a minimum width of 2, 2, 2 and 3. This is module
  `Timestamp`. Rust's decimal and zero-padded integer formatting is module
  `Decimal`.
- **the block serializer** (`SubtitleEntry::to_srt`). It prints an entry as
  the index, then `start --> end`, then the text, then a blank line. This is
  `Subtitles.ToSrt`.
- **the entry builder and writer** (the body of `process_audio` from the
  recognition result on). Every word of every alternative is visited in
  order. Words with empty text are skipped. Each kept word becomes the next
  entry, numbered by a counter that starts at 1. The blocks of all entries
  are written one after the other. These are the methods
  `Subtitles.BuildEntries`, `Subtitles.WriteSrt` and `Subtitles.ProcessAudio`.
  They are proved against the specification functions `Entries` and
  `Render`.

An SRT reader (module `SrtReader`) is the partner of the serializer. It reads
the written text back into cues: index, start and end in whole milliseconds,
and text. It is used to prove that the output file lists exactly the kept
words, numbered 1..N, in order.

A duration is a natural number of nanoseconds, which is what
`std::time::Duration` holds. `as_millis` is the truncating division by
1 000 000. Integers are unbounded, so the `usize` index and the `u128`
millisecond count never wrap.

Three facts about the code shape the model:
- Words are dropped only when their text is empty (`is_empty`,
  src/main.rs:99). Nothing is trimmed, so a word made only of spaces becomes
  an entry (`Subtitles.WhitespaceWordKept`).
- Entries come from every alternative of the result (src/main.rs:87), not
  only from the first one.
- Nothing checks that a word's start is not after its end, and the model
  does not assume it either.

## Model

| member | source | states |
|---|---|---|
| `Decimal.Digits` | src/main.rs:21 | the `{}` rendering of an unsigned integer is a non-empty digit string with no leading zero, and "0" for zero |
| `Decimal.ValueOfDigits` | src/main.rs:21 | reading the decimal rendering of n back gives n |
| `Decimal.DigitsLength` | src/main.rs:37 | the rendering of n fits in k digits exactly when n < 10^k |
| `Decimal.PadLeftSpec` | src/main.rs:37 | a `{:0N}` field is max(N, digits of n) wide (padding never truncates), holds only digits, and reads back as n |
| `Decimal.PadLeftWidth` | src/main.rs:37 | a padded field is exactly N characters wide exactly when n < 10^N |
| `Decimal.ValueIgnoresLeadingZeros` | src/main.rs:37 | leading zero padding does not change the value a field reads as |
| `Timestamp.AsMillis` | src/main.rs:31 | `as_millis` truncates: the result m satisfies m·10^6 ≤ d < (m+1)·10^6 |
| `Timestamp.Split` | src/main.rs:32-35 | hours·3600000 + minutes·60000 + seconds·1000 + millis equals the total, with minutes and seconds below 60 and millis below 1000; hours unbounded |
| `Timestamp.SplitUnique` | src/main.rs:32-35 | any in-range reading of the fields is the one the divisions compute from its total |
| `Timestamp.HoursBelow` | src/main.rs:32 | the hour field is below k exactly when the total is below k hours |
| `Timestamp.FormatTime` | src/main.rs:30-38 | `format_time`: the hour, minute, second and millisecond fields of `Split(AsMillis(d))`, padded with `PadLeft` to widths 2, 2, 2 and 3, joined by `:`, `:` and `,` |
| `Timestamp.FormatTimeShape` | src/main.rs:37 | the timestamp has `:`, `:` and `,` before its last 9, 6 and 3 characters and digits elsewhere; it is 12 characters exactly when under 100 hours and longer from 100 hours on |
| `Timestamp.TimestampRoundTrip` | src/main.rs:30-38 | parsing the formatted timestamp and weighting its fields gives back the whole-millisecond count |
| `Timestamp.FormatTimeInjective` | src/main.rs:30-38 | two durations print the same timestamp exactly when they have the same whole milliseconds |
| `Timestamp.FormatTimeZero` | src/main.rs:30-38 | zero prints as `00:00:00,000` |
| `Timestamp.FormatTimeExample` | src/main.rs:30-38 | 1 h 2 min 5 s 1 ms prints as `01:02:05,001`, with any sub-millisecond remainder dropped |
| `Timestamp.FormatTimeExample540` | src/main.rs:30-38 | 540 ms prints as `00:00:00,540` |
| `Timestamp.FormatTimeUnderOneSecond` | src/main.rs:30-38 | under one second the hour, minute and second fields are `00` and the millisecond field is the padded count |
| `Timestamp.FormatTimeMillis` | src/main.rs:35-37 | a three-digit millisecond count under one second prints as `00:00:00,` followed by its three digits |
| `Timestamp.FormatTimeHundredHours` | src/main.rs:32-37 | the hour field is not capped: 100 hours print as `100:00:00,000` |
| `Subtitles.ToSrt` | src/main.rs:19-27 | `to_srt`: `Digits(index) + "\n" + FormatTime(start) + " --> " + FormatTime(end) + "\n" + text + "\n\n"` |
| `Subtitles.Render` | src/main.rs:112-115 | what the writer loop puts in the file: the `ToSrt` blocks of all entries joined in order |
| `Subtitles.Flatten` | src/main.rs:87-89 | the words of every alternative, alternative by alternative, each in its own order |
| `Subtitles.Kept` | src/main.rs:97-99 | the words whose text is not empty, in their original order |
| `Subtitles.Entries` | src/main.rs:87-109 | the entries the loop builds: `Numbered(Kept(Flatten(alternatives)))` |
| `Subtitles.ToSrtExample` | src/main.rs:19-27 | entry 1 from 0 ms to 540 ms with text "hello" serializes to `1\n00:00:00,000 --> 00:00:00,540\nhello\n\n` |
| `Subtitles.ExampleTimes` | src/main.rs:30-38 | the timestamps 300, 310 and 800 ms print as `00:00:00,300`, `00:00:00,310` and `00:00:00,800` |
| `Subtitles.Numbered` | src/main.rs:99-106 | entry i carries index i+1 and the i-th word's text, start and end |
| `Subtitles.BuildEntries` | src/main.rs:87-109 | the nested loop, with the vector and counter declared at src/main.rs:56-57, builds exactly `Entries`: as many entries as non-empty words, indices 1..N without gaps, every text non-empty |
| `Subtitles.WordStep` | src/main.rs:97-107 | one more word adds one entry, numbered next, exactly when its text is not empty |
| `Subtitles.NumberedKeptSnoc` | src/main.rs:99-106 | appending a word appends an entry numbered one past the kept count when its text is not empty, and nothing otherwise |
| `Subtitles.AlternativeEnd` | src/main.rs:87-109 | after the last word of alternative a, the entries are those of alternatives 0..a |
| `Subtitles.WriteSrt` | src/main.rs:112-115 | the writer loop produces the blocks of all entries concatenated in order (`Render`) |
| `Subtitles.ProcessAudio` | src/main.rs:87-115 | the content written is `Render(Entries(result))`, and it is empty exactly when no word of any alternative has non-empty text |
| `Subtitles.RenderEmpty` | src/main.rs:112-115 | the output is empty exactly when there are no entries |
| `Subtitles.FlattenAppend` | src/main.rs:87-89 | visiting alternatives in order: the words of xs + ys are those of xs followed by those of ys |
| `Subtitles.FlattenLayout` | src/main.rs:87-89 | alternative a's words sit, in their order, between those of the earlier and the later alternatives |
| `Subtitles.KeptAppend` | src/main.rs:99 | the filter keeps order across concatenation |
| `Subtitles.KeptExactly` | src/main.rs:97-107 | the kept words are exactly the words with non-empty text, taken unchanged at strictly increasing positions |
| `Subtitles.KeptCount` | src/main.rs:99 | the number of kept words is the number of positions holding a non-empty word |
| `Subtitles.EntriesShape` | src/main.rs:87-109 | the entries number N, the count of non-empty words across all alternatives, with indices 1..N and non-empty texts |
| `Subtitles.EntriesFollowWords` | src/main.rs:87-109 | entry i has index i+1 and the text, start and end of the i-th non-empty word in alternative-then-word order; there is no sorting by time |
| `Subtitles.EntriesByAlternative` | src/main.rs:87-109 | the kept words of alternative a come after all kept words of earlier alternatives and before those of later ones |
| `Subtitles.WhitespaceWordKept` | src/main.rs:97-99 | a word made only of a space becomes entry 1: only emptiness is tested, nothing is trimmed |
| `Subtitles.ProcessAudioExample` | src/main.rs:87-115 | "hi", an empty word and "there" give entries 1 ("hi", 0–300 ms) and 2 ("there", 310–800 ms), and the output is their two blocks |
| `Subtitles.ProcessAudioExampleText` | src/main.rs:87-115 | the same result is written as `1\n00:00:00,000 --> 00:00:00,300\nhi\n\n2\n00:00:00,310 --> 00:00:00,800\nthere\n\n` |
| `SrtReader.TimestampIsOneWord` | src/main.rs:37 | a timestamp holds no space and no line break |
| `SrtReader.TimingRoundTrip` | src/main.rs:21-24 | the `start --> end` line reads back as both times in whole milliseconds |
| `SrtReader.BlockRoundTrip` | src/main.rs:19-27 | a serialized block, when its text has no line break, reads back as the entry's index, millisecond times and text, and leaves the following text untouched |
| `SrtReader.ParseBlockParts` | src/main.rs:21 | a block is read as an index line, a timing line, a text line and an empty line |
| `SrtReader.SrtRoundTrip` | src/main.rs:112-115 | the concatenated blocks read back as every entry, in order |
| `SrtReader.ProcessAudioReadsBack` | src/main.rs:87-115 | the file the pipeline writes reads back as one cue per non-empty word, numbered 1..N in alternative-then-word order, each with its word's text and times |
| `SrtReader.FlattenMember` | src/main.rs:87-89 | every visited word is a word of some alternative |

## Left out

- Loading the Vosk model and creating and configuring the recognizer (src/main.rs:42-43, 50-53), `accept_waveform`, `final_result` and `multiple().unwrap()` (src/main.rs:59, 84-86). These are an external speech-recognition library. The recognition result is an input: a sequence of alternatives, each a sequence of words.
- Opening and decoding the WAV file, including the `unwrap` on each sample (src/main.rs:46-47). This is an external audio decoder.
- `Duration::from_secs_f32` (src/main.rs:90-96). It is a float conversion. Word times are given as whole nanosecond durations instead.
- `File::create`, `write_all` and the `println!` calls (src/main.rs:88, 112-115, 126). This is I/O. The model computes the text that would be written. I/O errors and a partly written file are not modelled.
- `main` and its hard-coded paths, and `SAMPLE_RATE` (src/main.rs:9, 120-128). This is configuration.
- The commented-out single-result variant (src/main.rs:60-82). It is dead code.
- Wrap-around of the `usize` index and of the `u128` millisecond count is not modelled. Integers are unbounded, and neither bound is reachable in practice.
- SrtReader.SrtRoundTrip and SrtReader.ProcessAudioReadsBack assume that no word text contains a line break. A text with a line break would make the written file ambiguous to read. The writer itself has no such restriction.
