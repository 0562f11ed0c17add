# transcriber: the engine's timestamp, transcript and model-cache logic in Dafny

The transcriber turns an audio or video file into an English transcript with
timestamps. The library-independent logic sits in `transcriber/engine.py`.
This project models that logic and proves properties about it:

- `format_timestamp(seconds)` (module `Timestamp`). It splits the seconds into
  hours, minutes and seconds, using Python's floor division `//`, floor modulo
  `%` and `int()`, and prints each field with `02d`.
- The formatting loop of `WhisperEngine.transcribe_wav` (module `Transcript`).
  Each segment the model returns becomes `[HH:MM:SS] <text.strip()>`. The
  lines keep the model's order and are joined with `"\n"`.
- The lazy model cache of `WhisperEngine` (module `Engine`). `_model` starts
  as `None`. `load()` fills it on the first call and returns the same model on
  every later call.
- The Python string builtins the formatter calls (module `Strings`):
  `str.strip` (whose whitespace set is that of `str.isspace`), `"\n".join`
  and `f"{n:02d}"`. The engine never
  calls `str.split` or `int(s)`. They are defined here only as the inverses
  of join and of the format, so that the round-trip lemmas can be stated.

Seconds are exact `real`s, so a negative input follows Python's floor
arithmetic too. For example, -0.5 seconds gives hour -1 and `"-1:59:59"`.
Whisper's `load_model` is modelled by the class `ModelLibrary`, which counts
its calls and gives each call's model a fresh instance number. Because of
that, "the same model comes back" is a real statement about the model.
`model.transcribe` is a function-valued parameter (`Inference`) that maps the
model, the path and the options to any segment list.

Facts about the code that bound what is modelled:

- `transcribe_wav` hands the whole WAV path to the model in one call
  (`transcriber/engine.py:48`). It does no chunking and no offsetting or
  merging of segments.
- `best_of` and `beam_size` are both 5 (`transcriber/engine.py:39-40`).
- The engine has no worker thread, status queue or run-status value. The GUI
  runs the bundled binary synchronously (`gui.py:79-83`).

## Model

| member | source | states |
|---|---|---|
| `Strings.IsSpace` | transcriber/engine.py:54 | defines Python's `str.isspace()` per character as the exact set of whitespace code points; it has no contract of its own and is the whitespace notion used by the `strip()` lemmas below |
| `Strings.Strip` | transcriber/engine.py:54 | defines `text.strip()` as the trailing trim of the leading trim; it has no contract of its own, and what it leaves is proved by `Strings.StripSpec`, `Strings.StripUnique` and `Strings.StripIdempotent` |
| `Strings.TrimStartSpec` | transcriber/engine.py:54 | the leading-whitespace trim keeps a suffix of the text that does not start with whitespace, and everything it drops is whitespace |
| `Strings.TrimEndSpec` | transcriber/engine.py:54 | the trailing-whitespace trim keeps a prefix that does not end with whitespace, and everything it drops is whitespace |
| `Strings.StripSpec` | transcriber/engine.py:54 | `strip()` leaves the text minus a leading and a trailing run of Python whitespace, and the result has no whitespace at either end |
| `Strings.StripUnique` | transcriber/engine.py:54 | any split of a string into whitespace + core + whitespace whose core has non-space ends has exactly `strip()` as its core, so the characterisation defines `strip()` |
| `Strings.StripIdempotent` | transcriber/engine.py:54 | stripping a stripped text changes nothing |
| `Strings.Join` | transcriber/engine.py:57 | defines `"\n".join(output_lines)`: the parts in order with one separator between neighbours, `""` for no parts; its properties are `Strings.JoinAppend`, `Strings.JoinSplit` and `Strings.SplitJoin` |
| `Strings.JoinAppend` | transcriber/engine.py:57 | joining the concatenation of two non-empty lists gives the two joins with one separator between them |
| `Strings.JoinSplit` | transcriber/engine.py:57 | splitting on the separator and joining again gives back the original string |
| `Strings.SplitJoin` | transcriber/engine.py:57 | splitting the join of a non-empty, separator-free list gives back the list |
| `Strings.FormatPadded` | transcriber/engine.py:64 | defines `f"{n:02d}"` for any integer: a '-' for a negative value, then the digits zero-filled so that sign and digits are at least the width; its properties are `Strings.ParseFormatPadded` and `Strings.FormatPaddedWidth` |
| `Strings.ParseDecimalOfDecimal` | transcriber/engine.py:64 | the decimal numeral of a natural number reads back to that number |
| `Strings.DecimalLength` | transcriber/engine.py:64 | the numeral has one digit exactly below 10 and at most two exactly below 100 |
| `Strings.ParseFormatPadded` | transcriber/engine.py:64 | `int(f"{n:0Wd}") == n` for every integer `n`, negative ones included, and every width |
| `Strings.FormatPaddedWidth` | transcriber/engine.py:64 | a non-negative field is all digits, exactly the width wide while its numeral fits, and otherwise the bare numeral with no leading zero |
| `Timestamp.FloorDiv` | transcriber/engine.py:61-62 | Python's float `x // d` for a positive divisor: the whole `q` with `q*d <= x < (q+1)*d`, so it rounds toward minus infinity for negative `x` |
| `Timestamp.FloorMod` | transcriber/engine.py:62-63 | Python's float `x % d` for a positive divisor: a remainder in `[0, d)`, negative `x` included, that differs from `x` by `(x // d) * d` |
| `Timestamp.Int` | transcriber/engine.py:61-63 | Python's `int(x)` on a float: truncation toward zero, a result of the sign of `x` within one of it on the side nearer zero |
| `Timestamp.Decompose` | transcriber/engine.py:61-63 | computes `int(s // 3600)`, `int((s % 3600) // 60)` and `int(s % 60)` with Python's floor division, floor modulo and truncation on exact reals; its properties are `Timestamp.DecomposeByFloor` and `Timestamp.DecomposeSpec` |
| `Timestamp.DecomposeByFloor` | transcriber/engine.py:61-63 | the float floor division, modulo and `int()` steps give `f div 3600`, `(f mod 3600) div 60` and `f mod 60` of the whole seconds `f = floor(s)` |
| `Timestamp.DecomposeSpec` | transcriber/engine.py:61-63 | for every input, minutes and seconds lie in 0..59 and `hours*3600 + minutes*60 + seconds == floor(s)` |
| `Timestamp.FormatTimestamp` | transcriber/engine.py:59-64 | `format_timestamp(seconds)`: the three fields of `Timestamp.Decompose`, each printed with `02d` and joined by ':'; its properties are `Timestamp.TimestampShape`, `Timestamp.TimestampRoundTrip` and the concrete cases below |
| `Timestamp.TwoDigitField` | transcriber/engine.py:62-64 | a field in 0..59 prints as exactly two digits that read back to it |
| `Timestamp.TimestampShape` | transcriber/engine.py:59-64 | the timestamp is the hours field, ':', two minute digits, ':', two second digits; for non-negative input the hours are all digits, exactly two below 100 hours, and wider with no leading zero from 100 hours on |
| `Timestamp.TimestampRoundTrip` | transcriber/engine.py:59-64 | parsing the printed `H..H:MM:SS` gives back `floor(s)` for every input |
| `Timestamp.TimestampIgnoresFraction` | transcriber/engine.py:61-64 | two inputs with the same whole seconds print the same timestamp |
| `Timestamp.FormatZero` | transcriber/engine.py:59-64 | `format_timestamp(0) == "00:00:00"` |
| `Timestamp.FormatOneHourOneMinuteOneSecond` | transcriber/engine.py:59-64 | `format_timestamp(3661) == "01:01:01"` |
| `Timestamp.FormatHundredHours` | transcriber/engine.py:59-64 | `format_timestamp(360000) == "100:00:00"`: the hours field widens at 100 |
| `Timestamp.FormatNegativeHalfSecond` | transcriber/engine.py:59-64 | `format_timestamp(-0.5) == "-1:59:59"`, Python's floor arithmetic on a negative input |
| `Transcript.Line` | transcriber/engine.py:53-55 | one line of the transcript: `"[" + format_timestamp(start) + "] " + text.strip()`; its properties are `Transcript.LineRoundTrip` and `Transcript.LinesAt` |
| `Transcript.Render` | transcriber/engine.py:51-57 | the text `transcribe_wav` returns for a segment list: the lines of the segments, in order, joined with "\n"; `Transcript.FormatSegments` computes it and the `Render*` lemmas state its properties |
| `Transcript.FormatSegments` | transcriber/engine.py:51-57 | the loop that appends one line per segment and then joins with "\n" returns exactly the rendering of the segment list |
| `Transcript.LinesAt` | transcriber/engine.py:51-56 | there are exactly as many lines as segments, and the k-th line is `"[" + format_timestamp(start) + "] " + strip(text)` of the k-th segment |
| `Transcript.RenderEmpty` | transcriber/engine.py:51-57 | an empty segment list renders as the empty string |
| `Transcript.RenderSingle` | transcriber/engine.py:51-57 | one segment renders as its own line, with no trailing newline |
| `Transcript.RenderHi` | transcriber/engine.py:51-57 | the segment `{start: 0, end: 1, text: " hi "}` renders as `"[00:00:00] hi"` |
| `Transcript.RenderAppend` | transcriber/engine.py:51-57 | for two non-empty segment lists, the rendering of `a + b` is the rendering of `a`, a newline, and the rendering of `b`, so segment order is kept and nothing is re-sorted |
| `Transcript.RenderIgnoresEnd` | transcriber/engine.py:52-55 | two segment lists that agree on every start and text render the same, so `end` never affects the output |
| `Transcript.LineRoundTrip` | transcriber/engine.py:53-55 | every line parses back to the segment's whole start seconds and its stripped text, and that text has no whitespace at either end |
| `Transcript.TranscriptRoundTrip` | transcriber/engine.py:51-57 | splitting a non-empty transcript on "\n" gives its lines, one per segment in order, when no stripped text holds a newline; each line parses back to its segment's start second and stripped text |
| `Engine.ModelLibrary.LoadModel` | transcriber/engine.py:18 | each `load_model` call is counted and yields a model of the requested size that no earlier call produced |
| `Engine.WhisperEngine.constructor` | transcriber/engine.py:11-13 | a new engine records its model size and holds no model |
| `Engine.WhisperEngine.Load` | transcriber/engine.py:15-19 | the first call loads one model of the engine's size and keeps it; later calls return the same model and do not call `load_model`; at most one load per engine; the size is a constant |
| `Engine.WhisperEngine.Default` | transcriber/engine.py:11-13 | an engine built with no argument has model size `"medium"` and holds no model |
| `Engine.WhisperEngine.TranscribeWav` | transcriber/engine.py:21-57 | loads through the cache: on a first call the cached model is the one `load_model` just produced for the engine's size (one library call), on a later call the cached model and the library are unchanged; the returned text is the rendering of the segments that inference gives for that model, the whole path and the fixed translate options |
| `Engine.TranslateOptionsSpec` | transcriber/engine.py:34-45 | the one option set every transcribe call gets: task "translate", word timestamps, best_of and beam_size 5, patience 1.0, the six temperatures 0.0, 0.2, ..., 1.0, compression-ratio threshold 2.4, conditioning on previous text, no fp16, not verbose |
| `Engine.LoadTwice` | transcriber/engine.py:15-19 | a fresh engine asked twice for its model calls `load_model` once and returns the same model both times |

## Left out

- IEEE floating point: seconds are exact reals. Rounding inside Python's float `//` and `%`, NaN and infinities (where `int()` raises) are not modelled.
- Whisper model loading and inference (`transcriber/engine.py:18`, `transcriber/engine.py:48`) are foreign library calls. The model is an opaque value. Inference is an arbitrary function of the model, the path and the options.
- The temperature ladder, `patience` and `compression_ratio_threshold` are pass-through configuration. They are recorded in `Engine.TranslateOptions` but have no effect on the model.
- `Engine.ModelLibrary.LoadModel` never fails. When `whisper.load_model` raises (`transcriber/engine.py:18`), Python leaves `_model` as `None` and the next `load()` calls `load_model` again, so "at most one load per engine" holds in Python only for successful loads. The exception path is not modelled.
- `Engine.WhisperEngine.TranscribeWav`: an exception from `model.transcribe` (`transcriber/engine.py:48`) is not modelled; the model is still cached in that case.
- Inference, the type `Engine.Inference`, is a deterministic function of the model, the path and the options. The temperature fallback ladder (`transcriber/engine.py:42`) samples at temperatures above 0, so in Python two calls on the same path may return different segments. The model does not capture that.
- The path argument is a string. `str(wav_path)` on a `pathlib.Path` is not modelled.
- `Transcript.TranscriptRoundTrip`: it is stated only for transcripts with at least one segment whose stripped texts hold no newline. `"\n".join` of an empty list and of `[""]` are both `""`, and a newline inside a text cannot be told apart from a line break.
- transcriber/audio.py: `extract_wav` runs ffmpeg as a subprocess, and `_ffmpeg_path` probes the filesystem and `PATH`.
- transcriber/cli.py: argument parsing, console output, the temporary directory and the output-file write are I/O. The default output path comes from `pathlib.with_suffix`.
- gui.py: tkinter layout, file dialogs and a `subprocess.run` of the bundled binary are all I/O.
- scripts/fetch_model.py: downloads and copies the model file, which is filesystem I/O only.
