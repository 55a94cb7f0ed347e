# Dictation sidecars — a verified Dafny model

The dictation app relies on three small local HTTP services ("sidecars"):

- **fast ASR** (`sidecars/fast_asr/server.py`) keeps a table of streaming
  recognition sessions. `/v1/fast_asr/start` opens a session. `/push` feeds
  it base64-encoded float32 audio and returns the running transcript.
  `/end` closes the session and returns the final transcript.
- **ASR mlx** (`sidecars/asr_mlx/server.py`) transcribes a whole recording.
  At start-up, `_ensure_py39_compat` patches the installed
  `mlx_audio/dsp.py` so that it still imports on Python 3.9. `transcribe`
  turns the model's result into a reply text.
- **LLM stub** (`sidecars/llm_stub/server.py`) answers `/v1/llm/generate`
  from fixed templates.

The model keeps the logic of the handlers and drops the web framework and
the ML libraries.

- `common.dfy` (module `Common`): the Python string operations the handlers
  use. These are `startswith`, `in`, `str.strip` and `sep.join`.
- `fast_asr.dfy` (module `FastAsr`): the session dictionary is a class
  `SessionTable` with a `map` field. `Start`, `Push` and `End` are its
  methods. Each method is proved equal to a pure function of the old table
  (`StartSpec`, `PushSpec`, `EndSpec`). The properties of the protocol are
  proved about those functions. The recognizer is abstract: a stream type
  and its operations given as function values. The decoding loop
  `while is_ready: decode_stream` is a method proved against `Drain`.
- `asr_mlx.dfy` (module `AsrMlx`): the patch routine works on a list of
  lines. It covers the docstring scan loop, the inserts, the "already
  patched" marker, and the loop over candidate directories. Files are a map
  from path to text. The `transcribe` text normalisation is a function of
  how the model call ended.
- `llm_stub.dfy` (module `LlmStub`): `generate` is a total function. Its
  inverse, `RecoverText`, shows that no template loses the request text.

Facts about the code that the model keeps:
- The fast ASR endpoints are served under `/v1/fast_asr/...`.
- `latency_ms` is always an integer, never null. It is computed from the
  wall clock, so it is negative if the clock steps back during a push.
- A push payload whose byte length is not a multiple of four makes
  `np.frombuffer` raise. Nothing catches that exception, so the server
  answers 500, and the model replies `HttpError(500)` (`PushPartialSampleFails`).
- The check `samples.size == 0` (sidecars/fast_asr/server.py:102) can never
  succeed after the earlier `if not data` check. The model proves that it
  is dead (`assert samples != []` in `SessionTable.Push`).

## Model

| member | source | states |
|---|---|---|
| `FastAsr.ExtractText` | sidecars/fast_asr/server.py:70-73 | A plain string result is returned unchanged. Otherwise the result's `text` attribute is returned. A missing attribute or `None` gives "". |
| `FastAsr.ExtractTextEmpty` | sidecars/fast_asr/server.py:70-73 | The extracted text is non-empty exactly when the result carries a non-empty string. |
| `FastAsr.FromBuffer` | sidecars/fast_asr/server.py:101 | `np.frombuffer(..., float32)` succeeds exactly when the byte length is a multiple of 4. On success, the samples' bytes are the input bytes. |
| `FastAsr.FromBufferSampleBytes` | sidecars/fast_asr/server.py:101 | Cutting the bytes of any sample sequence back into samples gives that same sequence. |
| `FastAsr.Drain` | sidecars/fast_asr/server.py:108-109 | After decoding while the stream is ready, the stream is no longer ready. Its outstanding work has not grown. A stream that was not ready is left alone. |
| `FastAsr.DecodeWhileReady` | sidecars/fast_asr/server.py:108-109 | The `while recognizer.is_ready(stream)` loop stops. It ends at exactly the stream `Drain` describes. |
| `FastAsr.StartSpec` | sidecars/fast_asr/server.py:77-81 | The new id maps to a freshly created stream. Every other entry is unchanged. The table grows by one when the id was fresh. |
| `FastAsr.PushSpec` | sidecars/fast_asr/server.py:84-112 | The set of session ids never changes, and only the named stream can change. An unknown id gives 404. An empty `samples_b64` gives `("", 0)`. Undecodable base64 gives 400. Every error leaves the table unchanged. A table change always comes with the measured latency. |
| `FastAsr.PushAdvancesStream` | sidecars/fast_asr/server.py:101-112 | A push with whole samples feeds them to the named stream, which is then decoded until not ready. The reply carries that stream's extracted text and the measured latency. |
| `FastAsr.PushEmptyDecodedPayload` | sidecars/fast_asr/server.py:98-99 | A payload that decodes to zero bytes gives `("", 0)` and leaves the table untouched. |
| `FastAsr.PushPartialSampleFails` | sidecars/fast_asr/server.py:101 | A payload that decodes to a non-empty buffer whose length is not a multiple of 4 makes `np.frombuffer` raise. The server answers 500 and the table is unchanged. |
| `FastAsr.EndSpec` | sidecars/fast_asr/server.py:116-126 | `end` always removes the id from the table. It fails with 404, leaving the table unchanged, exactly when the id was unknown. The text of a successful `end` is stated in `EndFlushesStream`. |
| `FastAsr.EndFlushesStream` | sidecars/fast_asr/server.py:121-126 | `end` on a known id marks the stream's input finished, decodes it until it is not ready, and answers that stream's extracted text. |
| `FastAsr.EndThenPushOrEndFails` | sidecars/fast_asr/server.py:116-119 | After `end`, a `push` or a second `end` with the same id answers 404 and does not touch the table. |
| `FastAsr.StartThenEndRestores` | sidecars/fast_asr/server.py:77-81 | Starting a session under a fresh id and then ending it succeeds and restores the table as it was. |
| `FastAsr.SessionTable.constructor` | sidecars/fast_asr/server.py:39 | The server starts with an empty session table. |
| `FastAsr.SessionTable.Start` | sidecars/fast_asr/server.py:76-81 | Returns the generated id. The new table is `StartSpec` of the old one. |
| `FastAsr.SessionTable.Push` | sidecars/fast_asr/server.py:84-112 | The handler's validation steps, early returns and decoding loop produce the reply and new table that `PushSpec` gives. |
| `FastAsr.SessionTable.End` | sidecars/fast_asr/server.py:115-126 | Pops the entry, flushes it and decodes it. The reply and the new table are those of `EndSpec`. |
| `Common.StartsWith` | sidecars/asr_mlx/server.py:37 | `s.startswith(prefix)` holds exactly when `prefix` fits in `s` and equals its first characters. |
| `Common.Contains` | sidecars/asr_mlx/server.py:34 | `needle in haystack`: true when `needle` is a prefix, and never when `needle` is longer than `haystack`. |
| `Common.ContainsOccurs` | sidecars/asr_mlx/server.py:34 | `needle in haystack` holds exactly when `needle` starts at some offset of `haystack`. |
| `Common.JoinWith` | sidecars/asr_mlx/server.py:46 | `sep.join(parts)` is "" for no parts and otherwise begins with the first part. |
| `Common.Strip` | sidecars/asr_mlx/server.py:81 | `str.strip()` returns the slice of the input between its leading and trailing whitespace. Everything removed is whitespace, and the result has no whitespace at either end. |
| `Common.StripEmptyIffAllSpace` | sidecars/asr_mlx/server.py:82 | A text strips to "" exactly when it is all whitespace, so a blank primary text is one that is all whitespace. |
| `AsrMlx.SplitLines` | sidecars/asr_mlx/server.py:36 | `splitlines` gives lines that contain no line break. The text is empty exactly when it has no lines. Joining the lines with "\n", plus the final "\n" when the text had one, gives the text back, so no content is lost. |
| `AsrMlx.FileText` | sidecars/asr_mlx/server.py:46 | The written text is the lines joined by "\n", and it always ends in "\n". |
| `AsrMlx.SplitFileText` | sidecars/asr_mlx/server.py:46 | Splitting the written text `"\n".join(parts) + "\n"` gives back the non-empty list `parts`. |
| `AsrMlx.OpensDocstring` | sidecars/asr_mlx/server.py:37 | `parts and parts[0].startswith('"""')`: false for an empty file, and when true line 0 begins with `"""`. |
| `AsrMlx.NextDocQuote` | sidecars/asr_mlx/server.py:38-40 | The scan stops at the first later line starting with `"""`, or at the end of the list. No line it passes starts with `"""`. |
| `AsrMlx.InsertionPoint` | sidecars/asr_mlx/server.py:37-45 | The insert index is 0 without a leading docstring. Otherwise it is right after the first later line starting with `"""`, or the end of the list when there is no such line. |
| `AsrMlx.InsertedLines` | sidecars/asr_mlx/server.py:42-45 | The inserted lines end with the import. They are a blank line and the import exactly when the file opens with a docstring, and the import alone otherwise. |
| `AsrMlx.InsertLines` | sidecars/asr_mlx/server.py:42-45 | Inserting lines at an index puts exactly those lines there. Taking them out again restores the original list. |
| `AsrMlx.PatchedLines` | sidecars/asr_mlx/server.py:37-45 | The patched list is the original list with one or two lines inserted at the insertion index. Taking them out restores the original in order. |
| `AsrMlx.PatchLines` | sidecars/asr_mlx/server.py:37-45 | The source's `while end < len(parts)` loop and its two `insert` calls produce `PatchedLines`. |
| `AsrMlx.PatchWithoutDocstring` | sidecars/asr_mlx/server.py:44-45 | When the first line does not start with `"""` (an empty file included), the import is line 0 and all original lines follow in order. |
| `AsrMlx.PatchAfterDocstring` | sidecars/asr_mlx/server.py:37-43 | With a leading `"""` line, a blank line and the import follow the first later line starting with `"""`. If there is none, they are appended at the end. |
| `AsrMlx.OneLineDocstringMisplacesImport` | sidecars/asr_mlx/server.py:37-43 | For a one-line module docstring followed by code, the source appends the import after the code. The corrected patch puts it right after line 0. |
| `AsrMlx.FixedInsertionPoint` | sidecars/asr_mlx/server.py:37-45 | Corrected insertion index: 0 without a leading docstring, and never past the end of the list. |
| `AsrMlx.PatchedLinesFixed` | sidecars/asr_mlx/server.py:37-45 | Corrected patch: the same inserted lines as the source's (the import alone, or a blank line and the import after a docstring), placed at the corrected index. Removing them restores the original. |
| `AsrMlx.FixedImportFollowsDocstring` | sidecars/asr_mlx/server.py:37-43 | Corrected patch: the blank line and the import directly follow the first line that closes the module docstring. No earlier line closes it. |
| `AsrMlx.CompatText` | sidecars/asr_mlx/server.py:33-46 | The text left in `dsp.py`, with the import placed as the code places it, always contains the marker. A text that already contained it is unchanged. |
| `AsrMlx.CompatTextIdempotent` | sidecars/asr_mlx/server.py:34-35 | Patching a patched file changes nothing. |
| `AsrMlx.CompatTextLines` | sidecars/asr_mlx/server.py:36-46 | The written file reads back as exactly the list that lines 37-45 produce (`PatchedLines`). |
| `AsrMlx.CompatTextFixed` | sidecars/asr_mlx/server.py:33-46 | Corrected file content: it always contains the marker, and a text that already contained it is unchanged. |
| `AsrMlx.CompatTextFixedLines` | sidecars/asr_mlx/server.py:36-46 | The corrected file reads back as `PatchedLinesFixed` of the original lines. |
| `AsrMlx.OneLineDocstringFileMisplacesImport` | sidecars/asr_mlx/server.py:33-46 | For the file `"""DSP helpers."""` then `import numpy as np`, the code writes the blank line and the import after the code line. The corrected content has them right after the docstring. |
| `AsrMlx.AtLeast310` | sidecars/asr_mlx/server.py:16 | `sys.version_info >= (3, 10)` in tuple order: every major version above 3 passes, every one below fails, and on 3 the minor version must be at least 10. |
| `AsrMlx.Candidates` | sidecars/asr_mlx/server.py:22-25 | The candidate list is the global site-packages directories, in order, when `site` provides them (none otherwise), followed by the user site-packages directory. |
| `AsrMlx.DspPath` | sidecars/asr_mlx/server.py:30 | The path is the candidate directory followed by `/mlx_audio/dsp.py`. |
| `AsrMlx.DspPathInjective` | sidecars/asr_mlx/server.py:30 | Different candidate directories give different `dsp.py` paths. |
| `AsrMlx.HasDsp` | sidecars/asr_mlx/server.py:28-31 | A candidate is examined only when it is non-empty and its `dsp.py` exists in the file system. |
| `AsrMlx.FirstDsp` | sidecars/asr_mlx/server.py:27-32 | The examined candidate is the first non-empty one whose `mlx_audio/dsp.py` exists. Every candidate before it is skipped. |
| `AsrMlx.PatchTarget` | sidecars/asr_mlx/server.py:16-32 | At most one existing file is targeted, and none on Python 3.10 or newer. A target is the `dsp.py` of a candidate that has one, and no earlier candidate has one. Before 3.10 there is no target only when no candidate has a `dsp.py`. |
| `AsrMlx.EnsureCompatSpec` | sidecars/asr_mlx/server.py:15-49 | No file is created or removed. Only the target file may change, and it then holds `CompatText` of its old content. |
| `AsrMlx.NewPythonUnchanged` | sidecars/asr_mlx/server.py:16-17 | On Python 3.10 or newer the routine leaves every file as it was. |
| `AsrMlx.EnsureCompatIdempotent` | sidecars/asr_mlx/server.py:27-47 | Running the start-up routine a second time changes nothing more. |
| `AsrMlx.PatchDsp` | sidecars/asr_mlx/server.py:33-46 | Reading the found file, returning when it has the marker, and otherwise splitting, patching and writing it leave the file system with just that file rewritten to the patched lines. |
| `AsrMlx.EnsurePy39Compat` | sidecars/asr_mlx/server.py:15-49 | The candidate loop, with its skips, its marker early return and its single write followed by `return`, computes `EnsureCompatSpec`. |
| `Common.AttrText` | sidecars/asr_mlx/server.py:81 | `getattr(res, "text", "") or ""` gives the attribute when it is a string and "" otherwise. |
| `AsrMlx.SegmentText` | sidecars/asr_mlx/server.py:84 | A dict segment with a string `"text"` entry gives that string stripped. A dict without the entry gives "". A `None` entry or a segment that is not a dict raises. |
| `AsrMlx.SegmentTexts` | sidecars/asr_mlx/server.py:84 | The generator gives all segment texts, in order, or raises when any one of them raises. |
| `AsrMlx.JoinSegments` | sidecars/asr_mlx/server.py:83-86 | The segments are joined with " " and stripped again. A raise while joining gives "". |
| `AsrMlx.Transcribe` | sidecars/asr_mlx/server.py:74-87 | The reply text is always stripped. A non-blank primary text wins. A blank one without segments gives "". A blank one with a non-empty segment list gives the stripped space-join of the segment texts, or "" when reading a segment raises. A `ValueError` gives "" exactly when its message contains "Input is too short", and otherwise escapes as a server error. |
| `AsrMlx.SegmentsJoinedWithSingleSpaces` | sidecars/asr_mlx/server.py:82-84 | With a blank primary text and non-empty segment texts, the reply is exactly those texts joined by single spaces. |
| `LlmStub.Generate` | sidecars/llm_stub/server.py:17-25 | `polish` prefixes "（润色）". `action` wraps the text in the background/TODO template. Any other mode echoes the text. Modes are compared by exact equality, and there is no error path. |
| `LlmStub.RecoverText` | sidecars/llm_stub/server.py:19-24 | An output of a given mode that has the mode's template shape gives back the text inside the template. |
| `LlmStub.RecoverGenerate` | sidecars/llm_stub/server.py:19-24 | Every output of `generate` gives back its request text: no template loses information. |
| `LlmStub.GenerateInjective` | sidecars/llm_stub/server.py:17-25 | Within one mode, different texts never give the same output. |

## Findings

| source | as written | input that shows it | evidently intended | confidence | as-written member | corrected member |
|---|---|---|---|---|---|---|
| sidecars/asr_mlx/server.py:37-43 | After a leading `"""` line, the scan looks for the next line that *starts* with `"""`. With none, the blank line and the import go to the end of the file. | `dsp.py` = `"""DSP helpers."""` then `import numpy as np`. Line 0 already closes the docstring, yet the import is appended after `import numpy as np`. Python rejects a `__future__` import there. | Insert after the line that closes the docstring: line 0 when a second `"""` follows the opening one, otherwise the first later line containing `"""`. Proved in `FixedImportFollowsDocstring`. | medium, not executed | `AsrMlx.OneLineDocstringFileMisplacesImport` | `AsrMlx.CompatTextFixed` |

The routine itself (`CompatText`, `EnsureCompatSpec`, `EnsurePy39Compat`)
is modelled as written. The line-level form of the discrepancy is
`OneLineDocstringMisplacesImport`. The corrected placement is
`PatchedLinesFixed`, with its property proved in
`FixedImportFollowsDocstring`; `CompatTextFixed` writes it to the file.

## Left out

- HTTP plumbing: FastAPI routing, the pydantic request and reply classes, `uvicorn.run` and `/health`. Each handler is a function or method that returns a reply or a status code.
- Concurrency: the `threading.Lock` around decoding. The model is sequential.
- Clock: the latency of a push is a parameter (`latencyMs`, an `int`), which is what `time.time()` measured.
- Floating point: samples are kept as their four raw bytes. `sample_rate` is passed through to the recognizer's accept operation.
- The recognizer (sherpa-onnx) is abstract: a stream type `S` and the operations `create_stream`, `accept_waveform`, `input_finished`, `is_ready`, `decode_stream` and `get_result` as function values.
- FastAsr.Drain: requires `Decodes`, the premise that decoding a ready stream reduces a `backlog` measure. Without it the source's decoding loop might never end. The same premise is carried by `DecodeWhileReady`, `PushSpec`, `EndSpec` and the session table.
- Base64: `base64.b64decode` is an abstract partial function (`None` where Python raises). The leniency rules of Python's decoder are not re-derived.
- uuid: the id that `uuid.uuid4().hex` produces is a parameter of `Start`. `Start` does not require it to be fresh, because the source would overwrite a colliding entry. `StartSpec` states the outcome either way.
- `transcribe`: reading the upload, the temporary file and its removal, `load_model`, and the model call itself. The outcome of the call (result, `ValueError` with its message, or another exception) is an input. Both branches of the filename check choose ".wav", so the check has no effect.
- Common.AttrText, FastAsr.ExtractText, AsrMlx.Transcribe: a `text` attribute or segment `"text"` entry of a type other than `str` or `None` is not modelled. Python would return such a truthy value unchanged (or fail on `.strip()`). The model covers missing, `None` and string values.
- AsrMlx.CompatTextFixed: the corrected placement is modelled for one file's text. The candidate search around it is the same as the code's, so it has no separate routine.
- `_ensure_py39_compat`: the filesystem is a map from path to decoded text. Read and write failures, and the `except Exception: pass` that swallows them, are not modelled. `site` discovery is an input (`SiteInfo`). `Path(base) / "mlx_audio" / "dsp.py"` is string concatenation, with no path normalisation.
- `splitlines` splits on "\n" only. Python also splits on "\r", "\r\n" and other separators.
- Module start-up: environment-variable configuration, model paths and the `print` calls.
- `str.isspace`: the model uses a fixed list of whitespace code points (ASCII whitespace, U+001C to U+001F, U+0085, U+00A0, U+1680, U+2000 to U+200A, U+2028, U+2029, U+202F, U+205F and U+3000).
