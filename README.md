# WhatsApp chat transcriber: a Dafny model of the chat reconstruction

The repository takes a WhatsApp chat export (a ZIP holding `_chat.txt` and the attached
files) and writes a new chat text. In that text, every line that refers to an `.opus` voice
message is followed by an extra line holding the Whisper transcription of that message. This
project models the part of `main.py` that does the reconstruction. Its two phases are:

1. **Building the transcription map** (`main.py:25-31`). The loop runs over the extracted
   `.opus` files. For each one it calls the speech-to-text engine on the file's path, and
   stores the text, stripped of surrounding whitespace, under the file's bare name.
   Nothing catches an exception from the engine, so one failing file ends the whole run.
2. **Merging** (`main.py:37-50`). The loop runs over the chat's lines, each still carrying its
   line terminator. A line counts as a reference when it contains both `"<attached:"` and
   `".opus"`, in any order. For such a line the file name is cut out as
   `line[line.find("<attached: ") + 11 : line.find(".opus") + 5]`. Every line is copied
   unchanged. When the name is a key of the map, the line is followed by
   `"    (Transcrição: " + text + ")\n"`.

Modules:

- `Wrappers` (`wrappers.dfy`): `Option` and `Result`.
- `PyStr` (`py_str.dfy`): the Python string operations used by the code. These are `in`,
  `str.find`, slicing with Python's clamped bounds, and `str.strip()` with Python's
  whitespace set (`str.isspace`).
- `Transcription` (`transcription.dfy`): the map-building loop, as the method
  `TranscribeAll`. Its specification is the comprehension `TranscriptionsOf`.
- `Expansion` (`expansion.dfy`): line-by-line expansion, where each line is replaced in
  place by a few lines. The merge is one instance of it.
- `ChatMerge` (`chat_merge.dfy`): name extraction, the merge loop as the method
  `Integrate`, and its specification `Reconstructed`. It also holds the lemmas on line
  count, order, position and pass-through, and `Erase`, the inverse that drops the
  annotations again.
- `Pipeline` (`pipeline.dfy`): the two phases chained together, plus the worked scenario.

How things are modelled:

- The Whisper call is the parameter `transcribe: string -> Option<string>`. `None` stands for
  a call that raises. It receives `"whatsapp_chat/" + name`, which is what `str(audio_file)`
  gives. The map key is the bare `name`.
- The discovered files are an input sequence in the order the loop visits them. The chat is an
  input sequence of lines. The output is a sequence of lines.
- `Pos(lines, m, k) = k + CountAnnotated(lines[..k], m)` is where input line `k` lands in
  the output.

Quirks of the code that the model keeps:

- The presence test looks for `"<attached:"`, but the offset is taken from
  `"<attached: "`, with a space. Without the space, `find` gives -1 and the name starts at
  index 10 (`NameBounds`).
- When the first `".opus"` comes before the anchor, the end falls before the start and the
  name is empty (`ExtractNameEmpty`).
- The name ends with `".opus"` only when it is at least five characters long. If the start
  falls inside the first `".opus"` (for example in `"abcdefg.opus<attached:x"`), the name is
  a shorter tail of `".opus"` (`ExtractNameSpan`).
- Only the first anchor and the first extension of a line are looked at.

Where the design description and the code disagree, the model follows the code:

- The design describes per-file failure isolation, a failure sentinel stored in the map, and a
  counter of insertions. The code has none of these. A transcription error propagates and
  ends the run, so `TranscribeAll` and `ReconstructChat` return `Failure(path)`. The map a
  successful run builds has no sentinel values.
- The design says the extension is found "later in the same line" than the marker. The code
  tests the two substrings independently.
- The design's example shows the label `Transcription`. The code writes `Transcrição`.

## Model

| member | source | states |
|---|---|---|
| PyStr.Find | main.py:41-42 | `str.find`: -1 exactly when `sub` occurs nowhere in the line; otherwise an index where it occurs, with no occurrence before it |
| PyStr.Contains | main.py:39 | the `in` test is true exactly when the substring occurs at some index |
| PyStr.Slice | main.py:43 | Python slicing never fails. In-range bounds give exactly `s[start..end]`, a reversed range or an over-long start gives the empty string, and the result is always a contiguous piece of `s` |
| PyStr.Strip | main.py:31 | `strip()` gives a string with no whitespace at either end, and the input is whitespace, then that string, then whitespace |
| PyStr.StripUnique | main.py:31 | that split is unique: stripping `a + r + b` gives `r` when `a` and `b` are whitespace and `r` is trimmed |
| PyStr.StripIdempotent | main.py:31 | stripping a stripped text changes nothing |
| Transcription.TranscribeAll | main.py:26-31 | ends with a map exactly when no transcription raises. The map is the comprehension `{name: strip(T(path(name)))}` over the files and its keys are exactly the file names. Otherwise it gives the path of the first file whose call raised, after all earlier files succeeded |
| Transcription.TranscriptionsEntries | main.py:28-31 | for distinct names, one entry per discovered file, each keyed by the file name, each value the stripped transcription, and every value trimmed |
| Transcription.TranscriptionsOrderFree | main.py:28 | the visiting order (the `sorted`) changes neither whether the run succeeds nor the map it builds |
| Transcription.DistinctCard | main.py:28-31 | distinct names give as many keys as files |
| ChatMerge.Integrate | main.py:37-50 | the appended list is the reconstruction of the input. Its length is the input length plus the number of annotated lines, and removing the annotations gives the input back |
| ChatMerge.ReconstructedSnoc | main.py:38-50 | each loop step appends exactly what the current line contributes |
| ChatMerge.ReconstructedLength | main.py:39-48 | output length = input length + number of lines that pass the test and whose name is a key |
| ChatMerge.EraseReconstructed | main.py:38-50 | dropping the annotation after each annotated line gives back the input lines, unchanged and in order |
| ChatMerge.ReconstructedSlice | main.py:46-50 | between the landing places of lines `k` and `k + 1` stands exactly line `k`'s contribution |
| ChatMerge.ReconstructedAt | main.py:46-50 | input line `k` stands unchanged at `Pos(k)`. An annotated line is directly followed by `"    (Transcrição: " + m[name] + ")\n"`, and the next input line comes right after. A line that is not annotated contributes only itself |
| ChatMerge.ReconstructedCover | main.py:46-50 | every output line is an input line or the annotation directly after an annotated input line |
| ChatMerge.PosIncreasing | main.py:38-50 | input lines keep their relative order in the output |
| ChatMerge.CountAnnotatedZero | main.py:47 | no annotations are counted exactly when no line is annotated |
| ChatMerge.ReconstructedIdentity | main.py:39-50 | the output equals the input exactly when no line's extracted name is a key. This holds in particular for the empty map |
| ChatMerge.NoAnnotationPassThrough | main.py:49-50 | with no annotated line the output is the input |
| ChatMerge.NameBounds | main.py:41-42 | the start is 10 when `"<attached: "` is missing and otherwise just after its first occurrence. The end is 4 when `".opus"` is missing and otherwise the end of its first occurrence |
| ChatMerge.ExtractNameEmpty | main.py:41-43 | the name is empty when the line has no `".opus"`, when the end falls before the start, and when the first `".opus"` precedes the first anchor |
| ChatMerge.ExtractNameSpan | main.py:41-43 | otherwise the name is `line[start..end]` and stays in bounds. It ends with `".opus"` when at least five long, and is a shorter tail of `".opus"` when the start falls inside it |
| ChatMerge.ExtractNameBetween | main.py:41-43 | with the anchor first at `q` and the extension first at `p >= q + 11`, the line passes the test and the name is `line[q + 11..p + 5]` |
| ChatMerge.ExtractNameWellFormed | main.py:39-43 | for `pre + "<attached: " + base + ".opus" + post`, with no earlier anchor or extension, the test passes and the name is `base + ".opus"` |
| Pipeline.ReconstructChat | main.py:25-50 | a run produces output exactly when every transcription succeeds, and the output is the reconstruction against the comprehension map. Otherwise it gives the path whose transcription raised |
| Pipeline.AnnotatedFromFiles | main.py:31 | after a successful run, a line is annotated exactly when it passes the test and its extracted name is one of the files. The annotation then carries that file's stripped transcription |
| Pipeline.ExampleScenario | main.py:39-48 | `[10:00] Alice: <attached: 00001.opus>` yields name `00001.opus`. With `{"00001.opus": "hello there"}` it is followed by `    (Transcrição: hello there)`, and with the empty map it passes through alone |

## Left out

- ZIP extraction and the `os.path.exists` skip (main.py:17-20): filesystem I/O.
- CUDA detection, `whisper.load_model` and the engine itself (main.py:12-15, 22-23, 30):
  foreign library calls. The engine is the parameter `transcribe`. Its `language="pt"` hint
  and the model size affect only the text it returns, and the `result["text"]` lookup is
  folded into it.
- `audio_folder.glob("*.opus")` and `sorted` (main.py:28): directory listing. The files are
  an input, in visiting order. `TranscriptionsOrderFree` shows that the order does not matter
  for the map. The order only decides which failing file is reported first.
- Reading `_chat.txt` with `readlines` (main.py:33-35): file I/O. The lines are an input, each
  with its terminator. Universal-newline translation is not modelled.
- Writing the output with `writelines` (main.py:52-53): file I/O. The output is the list of
  lines. When the last chat line has no terminator and is annotated, the written file joins
  the annotation onto that line. The model shows the list, not the joined text.
- The `print` calls (main.py:13, 15, 22, 29, 55): console output only.
- Errors other than a failing transcription: a corrupt ZIP, a missing `_chat.txt`, an
  unwritable output file. Each is an I/O exception that ends the run.
- `utils/monitor.py` and `utils/gpu.py`: monitoring tools built on `nvidia-smi`, `psutil`
  and an endless refresh loop. Their only pure piece, `progress_bar`, uses float division and
  `%.1f` formatting, and has no data link to the chat reconstruction.
