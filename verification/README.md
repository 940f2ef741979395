# SubRip serialiser of the Whisper subtitle generator

The application transcribes a video with Whisper and offers the result as a
SubRip (`.srt`) subtitle file. This project models the pure core of that
pipeline:

- `format_time(seconds)` turns a time in seconds into `HH:MM:SS,mmm`. It uses
  Python's floor division `//`, the floor remainder `%`, truncation `int()`
  and zero-padded format fields.
- `save_srt(segments)` builds one block per transcription segment, numbered
  from 1. Each block holds the number, the `start --> end` timing line and
  the stripped text, and is followed by an empty line.

Modules:

- `Wrappers` (wrappers.dfy) holds the optional value the readers return and the suffix test `str.endswith`.
- `Decimal` (decimal.dfy) renders integers. It models `str(n)` and Python's
  sign-aware zero padding `{v:0w}`, and has the parsers that read numerals
  back.
- `Text` (text.dfy) models argument-less `str.strip()` over the whitespace
  set that `str.isspace` uses.
- `Timestamp` (timestamp.dfy) models `format_time`:
  - The clock fields are computed operator by operator on exact real time (`ClockOf`).
  - They are compared with an integer-millisecond reference (`ClockOfMillis`).
  - A timestamp reader (`ParseTimestamp`) partners the rendering.
- `Srt` (srt.dfy) models `save_srt`:
  - It holds the document as a function (`Document`) and the loop as a method (`SaveSrt`).
  - A block reader (`ParseBlock`) gives back number, clock readings and text.

The format is total, like the code: a negative time is rendered as well, with
minus signs in its fields. The rendering goes through Python's operators,
which is why minutes and seconds wrap around while hours and milliseconds
keep their sign. The code does not validate its input, and the model follows
the code here. It does not turn negative times into an error.

## Model

| member | source | states |
|---|---|---|
| Decimal.NatToString | main.py:17 | `str(i)` of the block counter is the shortest numeral: at least one character, digits only, and it starts with '0' exactly for zero |
| Decimal.PadLeft | main.py:25 | zero padding sets a minimum width and never cuts: the length is the larger of the width and the input's length, the input survives as the suffix, and only '0' is added in front |
| Decimal.FormatIntKeepsDigits | main.py:25 | `{v:02}` / `{v:03}`: the output is at least as wide as the field, every digit of the value survives at its end, and it starts with '-' exactly when the value is negative |
| Decimal.NatToStringLength | main.py:25 | a numeral has at most k digits exactly when the value is below 10^k, which decides when a padded field stays at its width |
| Decimal.ParsePadded | main.py:25 | a zero-padded numeral is all digits and reads back as its value |
| Decimal.FormatIntRoundTrip | main.py:25 | every sign-aware padded rendering of an integer reads back as that integer, negative values included |
| Text.TrimStart | main.py:16 | the leading-whitespace half of `strip()`: the result is a suffix of the input, everything dropped is whitespace, and the result does not start with whitespace |
| Text.TrimEnd | main.py:16 | the trailing-whitespace half of `strip()`: the result is a prefix of the input, everything dropped is whitespace, and the result does not end with whitespace |
| Text.Strip | main.py:16 | `segment["text"].strip()` neither starts nor ends with whitespace, is never longer than its input, and is empty exactly when the input is all whitespace |
| Text.StripIsTheCore | main.py:16 | strip removes exactly the two edge runs of whitespace: for any cut of the text into whitespace, a core that starts and ends with non-whitespace, and whitespace again, the result is that core |
| Text.StripIdempotent | main.py:16 | stripping an already stripped text changes nothing |
| Timestamp.FloorModRange | main.py:22-23 | on exact reals, the floor remainders `x % 3600` and `x % 60` lie in [0, d) for every x, negatives included, and quotient times divisor plus remainder gives x back |
| Timestamp.TruncBounds | main.py:21-24 | `int()` truncates toward zero: within one below a non-negative input, within one above a negative input |
| Timestamp.ClockOfFloor | main.py:21-23 | on exact time, the hour, minute and second fields are integer division and remainder of the whole seconds: n/3600, (n%3600)/60 and n%60 for n the floor of the input |
| Timestamp.ClockRanges | main.py:21-24 | on exact time, minutes and seconds always lie in 0..59; for a non-negative time the hours are non-negative and the milliseconds lie in 0..999 (never 1000); for a negative time the hours are negative and the milliseconds lie in -999..0 |
| Timestamp.ClockReconstructsSeconds | main.py:21-23 | on exact time, hours·3600 + minutes·60 + seconds is exactly the whole seconds of the input, for every input |
| Timestamp.ClockTruncatesToMillis | main.py:21-24 | for a non-negative time the fields denote the time rounded down to the millisecond: never more than the time, and less than 1 ms short |
| Timestamp.ClockMatchesMillisReference | main.py:21-24 | for a non-negative time the operator-by-operator fields equal the integer-only split of the time truncated to whole milliseconds |
| Timestamp.ClockOfMillisInverse | main.py:21-24 | a clock reading whose minutes, seconds and milliseconds are in range is recovered from the milliseconds it denotes |
| Timestamp.PaddedField | main.py:25 | a minute, second or millisecond field below 10^width renders as exactly `width` digits that read back as the field |
| Timestamp.HourField | main.py:25 | a non-negative hour count renders as at least two digits that read back as the count |
| Timestamp.FormatTimeRoundTrip | main.py:20-25 | the timestamp of a non-negative time reads back as the four fields `format_time` computed |
| Timestamp.FormatTimeLength | main.py:25 | a non-negative time renders as 12 characters exactly when the hours are below 100; from 100 hours on only the hour field widens, to the full numeral |
| Timestamp.NegativeTimeMalformed | main.py:20-25 | a negative time renders with a leading '-' and so is not a valid SubRip timestamp |
| Timestamp.FourThousandSeconds | main.py:20-25 | 4000 s renders as `01:06:40,000` |
| Timestamp.HundredHours | main.py:21-25 | 360000 s renders as `100:00:00,000`: the hour field is a minimum width |
| Timestamp.JustBelowAMinute | main.py:20-25 | 59.9995 s renders as `00:00:59,999`: no 60 in the seconds and no 1000 in the milliseconds |
| Timestamp.JustBelowAnHour | main.py:20-25 | on exact time, 3599.999 s renders as `00:59:59,999` and does not roll over into hour 1 |
| Timestamp.FiveSecondsSevenMillis | main.py:20-25 | on exact time, 5.007 s renders as `00:00:05,007` |
| Timestamp.MinusOneAndAHalfClock | main.py:21-24 | -1.5 s splits into hours -1, minutes 59, seconds 58 and milliseconds -500; read back as a time these fields give -2500 ms, not -1500 ms |
| Timestamp.MinusOneAndAHalfSeconds | main.py:20-25 | -1.5 s renders as `-1:59:58,-500`: the hours are the floor quotient, the minutes and seconds the floor remainder, and only the milliseconds truncate toward zero; these fields denote -2.5 s (Timestamp.MinusOneAndAHalfClock) |
| Srt.Numbered | main.py:13 | `enumerate(segments, 1)` yields exactly one numbered item per input item |
| Srt.NumberedAt | main.py:13 | item k of the numbered list is item k of the input rendered with number k + 1 |
| Srt.SaveSrt | main.py:11-18 | the loop that appends one block per segment to an initially empty string produces exactly `Document(segments)` |
| Srt.DocumentEmpty | main.py:12-18 | no segments give the empty string |
| Srt.DocumentSnoc | main.py:13-17 | one more segment appends exactly its block, numbered one past the segments before it; nothing earlier changes |
| Srt.BlockEndsWithEmptyLine | main.py:17 | every block closes with an empty line |
| Srt.DocumentEndsWithEmptyLine | main.py:17-18 | a document with at least one segment ends with an empty line |
| Srt.FormatTimeCharacters | main.py:25 | a rendered timestamp contains no blank and no line break, so it cannot break the timing line or the block |
| Srt.BlockRoundTrip | main.py:13-17 | for non-negative times, each block reads back as its number, both clock readings and the stripped text, whatever the text contains |
| Srt.DocumentNumbering | main.py:13-17 | the document has one block per segment, and whatever the times block k is the block of segment k numbered k + 1, whose number line reads back as k + 1, with no gaps even where a text is empty; with non-negative times the whole block also reads back as segment k's entry |
| Srt.BlockSplits | main.py:17 | every block, whatever its times, splits at its first two line breaks and its closing empty line into the counter's numeral, the timing line and the stripped text |
| Srt.BlockTextTrimmed | main.py:16-17 | the text line split off any block, whatever its times, neither starts nor ends with whitespace |
| Srt.StripExample | main.py:16 | the text `"  hi there  \n"` becomes `"hi there"` |
| Srt.TwoSegmentDocument | main.py:11-18 | segments (0.0, 1.5, "Hi") and (1.5, 3.0, " there ") give the blocks `1` / `00:00:00,000 --> 00:00:01,500` / `Hi` and `2` / `00:00:01,500 --> 00:00:03,000` / `there`, each closed by an empty line |

## Left out

- `transcribe_video` (main.py:6-9) calls the Whisper model. It is foreign code, so the model starts from a list of segments.
- The Streamlit page is left out: title, upload, model choice, button, spinner and download (main.py:27-49). It is user-interface I/O.
- The temporary video file and its removal are left out (main.py:37-39, 52). This is file-system I/O.
- Segments are modelled as records with a start, an end and a text. The code looks these up as dictionary keys. A missing key, or a value of the wrong type, raises in Python; such segments are not modelled.
- Time is an exact real number, not an IEEE-754 double. The model therefore does not show float rounding:
  - In binary floating point, `(5.007 - 5) * 1000` falls just short of 7, so the program prints `,006`. The exact product is 7, so the model prints `,007`.
  - Likewise 3599.999 is stored as a double just below 3599.999, so the program prints `00:59:59,998`. The model prints `00:59:59,999`.
  - A tiny negative time such as -1e-20: in doubles `-1e-20 % 60` is 60.0 and `-1e-20 % 3600` is 3600.0, so the program prints `-1:60:60,000`. The model prints `-1:59:59,000`.
  - Infinities and NaN are not modelled either; `int()` raises on them.
- Only single blocks are read back, not whole documents. A stripped text may still contain an empty line inside it, and then the document alone no longer shows where that block ends.
- Timestamp.FormatTimeRoundTrip: stated for non-negative times only. A negative time renders with minus signs, which `ParseTimestamp` rejects (Timestamp.NegativeTimeMalformed).
- Srt.BlockRoundTrip: stated for segments with non-negative times only, for the same reason.
- Srt.DocumentNumbering: the number of every block is proved whatever the times; the read-back of the whole block only for non-negative times, for the same reason.
- Timestamp.ClockRanges: the millisecond field is bounded only. Its exact value is pinned down by Timestamp.ClockTruncatesToMillis and Timestamp.ClockMatchesMillisReference.
