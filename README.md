# SPiN keyword tables and speech-recogniser transcripts

This project models the data-handling core of `google_asr_sin.py`. That
script sends the recordings of a speech-in-noise (SPiN/QuickSIN) hearing
test to a cloud speech recogniser, flattens the responses into timed words,
and holds the test's answer key. The model covers three parts.

- **The answer key** (`Keywords`). `ingest_spin_keyword_lists` reads lines
  such as `L11 S 3  their eyelids droop/drop want sleep` into a dictionary.
  - The key is the pair (list number, sentence number).
  - The value is one slot per keyword. A slot lists the accepted spellings,
    which `word_alternatives` splits on `/`.
  - Each line is stripped and lower-cased. Blank lines are skipped.
  - The two numbers are read with `int()` from `line[1:3]` and
    `line[5:7]` (characters 1–2 and 5–6).
  - The words from `line[7:]` on are split on single spaces, and empty
    tokens are dropped.
  - A line without five slots gets a warning but is still stored. A later
    line with the same key replaces the earlier one.
  - When `int()` rejects a column, the whole ingestion stops with that error.
- **Flattening a recognition response** (`Transcript`). `parse_transcript`
  walks the result segments of a response.
  - It skips a segment whose alternatives are missing or empty.
  - For every other segment it emits each word of the first alternative,
    lower-cased, with its start and end times.
  - It then adds a sentinel word `.` at the current value of `end_time`.
    That variable outlives the inner loop. So a kept segment with no words
    gets its sentinel at the end time of the last word of the most recent
    earlier segment that had words.
  - If no earlier segment had any word, `end_time` was never assigned, and
    the function raises. The model returns `EndTimeUnbound` in that case.
- **Recognising a batch of files** (`Batch`). `recognize_all_spin` sends
  every path that does not contain `Calibration` to the recogniser.
  - It stores each response under the path's base name, so a later file
    with the same name in another directory replaces an earlier one.
  - An error raised by the recogniser aborts the batch.

`Text` holds the parts of Python's string semantics this code relies on:

- `strip` over the full `str.isspace` set;
- `lower` on ASCII letters;
- `split` and `join` on one character;
- slicing that clamps its bounds;
- `int()` on short decimal fields.

`Wrappers` holds `Option` and `Result`.

Each loop of the three modelled functions is a method proved equal to a
specification function: `IngestSpinKeywordLists`, `ParseTranscript` and
`RecognizeAllSpin`. Each function is then characterised by lemmas.
`parse_time` and the recogniser are parameters of the model.

## Model

| member | source | states |
|---|---|---|
| Keywords.WordAlternatives | google_asr_sin.py:367-371 | one spelling more than the token has `/`; joining the spellings with `/` gives the token back; no spelling contains `/`; a token without `/` is its own single spelling |
| Text.Split | google_asr_sin.py:370 | `str.split` on one character gives one part more than there are separators; no part contains the separator; parts only hold characters of the input |
| Text.JoinSplit | google_asr_sin.py:370 | joining the parts of a split with the same separator gives the input back |
| Text.SplitJoin | google_asr_sin.py:370 | splitting a join of separator-free parts gives the parts back |
| Text.Strip | google_asr_sin.py:380 | the stripped line is empty exactly when the line is all whitespace |
| Text.StripTrims | google_asr_sin.py:380 | strip keeps a contiguous run of the line whose ends are not whitespace, with only whitespace removed around it |
| Text.ToLower | google_asr_sin.py:380 | lower-casing keeps the length, maps each character pointwise and leaves no capital letter |
| Text.ToLowerOfLowered | google_asr_sin.py:380 | lower-casing is idempotent on text with no capital |
| Text.DropEmpty | google_asr_sin.py:385 | the comprehension keeps exactly the non-empty tokens |
| Text.DropEmptyAppend | google_asr_sin.py:385 | filtering a concatenation is the concatenation of the filtered parts, so order and repeats are kept |
| Text.DropEmptySingleton | google_asr_sin.py:385 | one token is dropped exactly when it is empty |
| Text.SplitSpacedJoin | google_asr_sin.py:384-385 | splitting words separated by runs of one or more spaces on single spaces and dropping the empty pieces gives the words back, in order |
| Text.Slice | google_asr_sin.py:382-383 | Python's `s[i:j]`: its length is `min(j, len(s)) - i` when positive and 0 otherwise, its characters are those of `s` from `i` on, and it is the exact slice when the bounds fit |
| Text.SliceFrom | google_asr_sin.py:384 | Python's `s[i:]`: the exact suffix when `i` fits, empty otherwise |
| Text.ParseInt | google_asr_sin.py:382-383 | `int()` rejects a field of blanks and a field holding one of U+001C..U+001F |
| Text.ParseIntField | google_asr_sin.py:382-383 | `int()` reads back every number below 100 written in a two-column field, padded either side |
| Text.ParseIntShortRange | google_asr_sin.py:382-383 | any number `int()` accepts from a field of at most two columns lies in -9..99 |
| Keywords.KeyWords | google_asr_sin.py:384-385 | the tokens from column 7 on are non-empty, contain no space, and come from the line |
| Keywords.KeyList | google_asr_sin.py:386 | one slot per token, each the token's alternatives |
| Keywords.ParseLine | google_asr_sin.py:380-386 | a line is skipped exactly when it is all whitespace; a stored key lies in -9..99 on both halves |
| Keywords.ParseLineSlots | google_asr_sin.py:380-386 | every stored slot is non-empty, and every spelling is lower case without space or `/` |
| Keywords.KeyListOfTokens | google_asr_sin.py:386 | rejoining the slots of lower-case, space-free tokens gives the tokens back; every slot is non-empty and every spelling is lower case without space or `/` |
| Keywords.InfoSeparatorRejected | google_asr_sin.py:382 | a list column holding a character in U+001C..U+001F makes `int()` raise on that column |
| Keywords.KeyWordsOfFormatted | google_asr_sin.py:384-385 | the tokens after a seven-column header and any run of spaces are the space-separated words, in order, however many spaces separate them |
| Keywords.ParseTableLine | google_asr_sin.py:380-386 | a line laid out as the table lays it out (header, spaces, words separated by runs of one or more spaces) parses to its own key and the lower-cased words' alternatives, in order |
| Keywords.TableLineWithDoubleSpace | google_asr_sin.py:361 | the table line `L11 S 2  offered proof  form large chart` parses to key (11, 2) and its five single-spelling slots |
| Keywords.Step | google_asr_sin.py:381-390 | a blank line leaves the table alone; the step raises exactly on a malformed line, with its column; an entry stores its slots under its key, keeps every other key, and adds a warning exactly when the slot count is not five |
| Keywords.IngestSpinKeywordLists | google_asr_sin.py:374-391 | the loop computes `Ingest` of the lines: the dictionary and warnings, or the first `int()` error |
| Keywords.IngestSucceedsIff | google_asr_sin.py:382-383 | ingestion succeeds exactly when no line has a number column `int()` rejects |
| Keywords.IngestFailsAtFirstMalformed | google_asr_sin.py:382-383 | a failure carries the rejected column of the first malformed line; every earlier line is blank or stored |
| Keywords.BuildFailsAtFirstMalformed | google_asr_sin.py:379-383 | the folded failure is the first malformed outcome |
| Keywords.IngestKeys | google_asr_sin.py:381-390 | a key is in the dictionary exactly when some non-blank line parsed to it |
| Keywords.IngestLastWins | google_asr_sin.py:390 | a key holds the slots of the last line stored under it |
| Keywords.IngestWarnings | google_asr_sin.py:387-389 | a key is warned about exactly when some line stored under it had a slot count other than five |
| Keywords.IngestSkipsBlank | google_asr_sin.py:381 | a blank line anywhere changes nothing |
| Keywords.IngestWellFormed | google_asr_sin.py:380-390 | every stored key is in range, every slot is non-empty, and every spelling is lower case without space or `/` |
| Keywords.BuildSucceedsIff | google_asr_sin.py:379-390 | folding the line outcomes succeeds exactly when none is malformed |
| Keywords.BuildKeys | google_asr_sin.py:390 | the folded keys are exactly those of the entry outcomes |
| Keywords.BuildLastWins | google_asr_sin.py:390 | the folded dictionary keeps the last entry per key |
| Keywords.BuildWarnings | google_asr_sin.py:387-389 | a warning is recorded exactly for entries without five slots |
| Keywords.BuildSkipsBlank | google_asr_sin.py:381 | a blank outcome changes nothing in the fold |
| Keywords.BuildEntriesFrom | google_asr_sin.py:390 | every stored value is the slots of some entry with that key |
| Transcript.BestWords | google_asr_sin.py:199-208 | a segment is kept exactly when its alternatives are present and non-empty, and then its words are those of the first alternative |
| Transcript.EmitAll | google_asr_sin.py:208-213 | one flattened word per recognised word, each lower-cased with its parsed times |
| Transcript.ParseTranscript | google_asr_sin.py:195-216 | the nested loops compute `Flatten` of the segments |
| Transcript.LastEndNone | google_asr_sin.py:211-214 | `end_time` is unbound exactly when no segment so far had words |
| Transcript.FlattenFailsIff | google_asr_sin.py:214 | flattening raises exactly when some kept segment has no words and no earlier segment had any |
| Transcript.FlattenLength | google_asr_sin.py:208-214 | the output has, per kept segment, its words plus one sentinel |
| Transcript.FlattenSkips | google_asr_sin.py:199-207 | a segment without alternatives contributes nothing, wherever it stands |
| Transcript.LastEndSkips | google_asr_sin.py:199-211 | a segment without alternatives leaves `end_time` unchanged, wherever it stands |
| Transcript.FlattenIsConcatenation | google_asr_sin.py:195-216 | when every kept segment has words, the output is each segment's words followed by a sentinel at its last word's end time, concatenated in segment order |
| Transcript.ConcatenatedSnoc | google_asr_sin.py:199-214 | the front-to-back reading of the output extends at the back one segment at a time |
| Batch.Contains | google_asr_sin.py:258 | the empty text occurs in every string, and a string only contains text no longer than itself |
| Batch.IsCalibration | google_asr_sin.py:258 | a calibration path is at least as long as the marker |
| Batch.CalibrationHasMarker | google_asr_sin.py:258 | a calibration path is some text, the marker, then some more text |
| Batch.MarkerMakesCalibration | google_asr_sin.py:258 | any path with the marker in a directory or file name is a calibration path |
| Batch.Basename | google_asr_sin.py:260 | the base name contains no `/` |
| Batch.BasenameIsLastComponent | google_asr_sin.py:260 | the base name is a suffix of the path, either all of it or preceded by `/` |
| Batch.BasenameOfJoined | google_asr_sin.py:260 | the base name of `dir/name` is `name` |
| Batch.BasenameOfPlain | google_asr_sin.py:260 | a path without `/` is its own base name |
| Batch.RecognizeAllSpin | google_asr_sin.py:250-272 | the loop computes `RecognizeAll` of the paths |
| Batch.RecognizeAllSucceedsIff | google_asr_sin.py:263 | the batch succeeds exactly when the recogniser succeeds on every non-calibration path |
| Batch.RecognizeAllFailsAtFirst | google_asr_sin.py:263 | a failed batch reports the error of the first non-calibration path on which the recogniser failed |
| Batch.RecognizeAllKeys | google_asr_sin.py:260-271 | the keys are exactly the base names of the non-calibration paths |
| Batch.RecognizeAllLastWins | google_asr_sin.py:271 | a key holds the response to the last non-calibration path with that base name |
| Batch.CalibrationIgnored | google_asr_sin.py:258-259 | a calibration path anywhere changes nothing |

## Left out

- The `RecognitionEngine` class, audio and file I/O, and the cloud
  service are not modelled. The recogniser is a pure function parameter
  `string -> Result<R, E>`, so the model assumes it answers the same path
  the same way.
- `parse_time` (lines 190-193) is a parameter. The duration type, floating
  point and `total_seconds()` are not modelled.
- The transcript text field of an alternative is carried in the data type
  but not otherwise used, as in the source.
- The debug printing in `recognize_all_spin` is left out, as are
  `print_all_sentences`, `generate_ffmpeg_cmds` and the other printing
  helpers. The printed warning of the ingestion becomes the returned
  `warnings` list of keys.
- The constant `key_word_list` text and the module-level dictionary built
  from it (line 393) are not encoded. `ParseTableLine` covers every line
  laid out as header, spaces and words separated by runs of spaces, which
  includes line 361 with its double space (`TableLineWithDoubleSpace`).
- The file has no scoring or plotting code (`matplotlib.pyplot` is
  imported but not used). The punctuation flags that `CreateRecognizer`
  derives from the model name (lines 82-90) are not modelled.
- Python dictionaries keep insertion order, and an overwritten key keeps
  its first position. The model's `map`s do not record the iteration order
  of `all_keyword_dict` (line 390) or `all_results` (line 271); nothing in
  the modelled code reads that order.
- Text.ToLower: lower-cases only ASCII letters, because Python's Unicode
  case mapping is not modelled.
- Text.ParseInt: accepts only ASCII digits, and no `_` separators, because
  Python's `int()` also takes Unicode digits and underscores between
  digits. An underscore between two digits cannot fit in a field of two
  characters. The whitespace it skips is the `strip()` set without
  U+001C..U+001F, which make it fail; the two sets agree otherwise.
- Batch.Basename: follows POSIX `os.path.basename`; the Windows `\`
  separator and drive letters are not modelled.
- A segment whose `alternatives` cannot be read at all is the `None` case
  of `SegmentResult`. The model does not separate the exceptions the bare
  `except:` catches.
