# TXT to JSON converter — verified model of `text_to_json`

The converter reads a plain-text file, one item per line, and writes a JSON
array with one object `{"name": ...}` per line. This project models that
conversion in Dafny and proves what it produces:

- **Lines** (`lines.dfy`): how iterating over a text-mode file cuts the text
  into lines. Each line keeps its `\n`. A last line without a terminator is
  still produced. No empty line follows a trailing `\n`.
- **Cleaning** (`cleaning.dfy`): the clean-up of each line. Every
  mis-decoded apostrophe `â€™` (U+00E2 U+20AC U+2122) is replaced by `'`
  (`str.replace`). Then the whitespace at both ends is removed (`str.strip()`,
  with Python's full `str.isspace` set).
- **JsonText** (`json_text.dfy`): the JSON string escaping that
  `json.dumps(..., ensure_ascii=False)` applies (section 7 of RFC 8259, with
  Python's choices). There is also an independent reader for JSON string
  bodies, used to prove the escaping can be read back.
- **TxtToJson** (`txt_to_json.dfy`): the records, the exact output layout
  and the two loops of the program. `LoadRecords` appends one record per line.
  `Convert` writes `[`, tab-indented records with index-dependent commas,
  and `]`. Both are proved equal to specification functions (`Load`,
  `Serialize`), and the properties are proved about those functions.
- **Wrappers** (`wrappers.dfy`): the `Option` type.

The input is modelled as the decoded text after newline translation. The
output is modelled as the text passed to `write`.

The record encoding uses `json.dumps`' default separators, so
`{"name": "X"}` has a space after the colon. Blank and whitespace-only lines
are kept, as `{"name": ""}`.

## Model

| member | source | states |
|---|---|---|
| Lines.SplitLines | TXTtoJSON.py:11 | the lines `for line in f` yields; characterised by `JoinSplitLines`, `SplitLinesWellFormed` and `SplitLinesJoin` below (no contract of its own) |
| Lines.FirstLineLength | TXTtoJSON.py:11 | the first line ends at the first `\n` (inclusive), or at the end of the text |
| Lines.JoinSplitLines | TXTtoJSON.py:10-11 | concatenating the lines gives back the whole input: nothing is lost or added |
| Lines.SplitLinesWellFormed | TXTtoJSON.py:11 | every line is non-empty, has no `\n` before its end, and all but the last end in `\n` |
| Lines.SplitLinesJoin | TXTtoJSON.py:11 | any sequence of well-formed lines is exactly what splitting its concatenation yields (uniqueness of the split) |
| Lines.LineCount | TXTtoJSON.py:10-11 | number of lines = number of `\n`, plus one for a non-empty unterminated last line |
| Cleaning.IsSpace | TXTtoJSON.py:13 | Python's `str.isspace` set; neither `'` nor any character of `â€™` is whitespace, so stripping never removes them |
| Cleaning.Strip | TXTtoJSON.py:13 | `str.strip()`: the result is the input minus whitespace runs at both ends, with no whitespace left at either end |
| Cleaning.StripUnique | TXTtoJSON.py:13 | any split of the text into whitespace, a stripped middle and whitespace has `Strip` as its middle |
| Cleaning.StripIdempotent | TXTtoJSON.py:13 | stripping twice equals stripping once |
| Cleaning.StripAppendSpace | TXTtoJSON.py:13 | trailing whitespace (such as the line terminator) does not change the stripped text |
| Cleaning.ReplaceAll | TXTtoJSON.py:12 | `str.replace`, left to right and non-overlapping; replacing by text no longer than the pattern never lengthens the line |
| Cleaning.ReplaceAllAbsent | TXTtoJSON.py:12 | `str.replace` leaves a text without the pattern unchanged |
| Cleaning.ReplacedHasNoPattern | TXTtoJSON.py:12 | after replacing by a character outside the pattern, no occurrence of the pattern is left |
| Cleaning.ReplaceAllAppend | TXTtoJSON.py:12 | a final character outside the pattern passes through replacement unchanged |
| Cleaning.Clean | TXTtoJSON.py:12-13 | every cleaned name is stripped and contains no `â€™` |
| Cleaning.CleanFixed | TXTtoJSON.py:12-13 | a stripped name without `â€™` is its own cleaned form |
| Cleaning.CleanIdempotent | TXTtoJSON.py:12-13 | cleaning is idempotent |
| Cleaning.CleanIgnoresTerminator | TXTtoJSON.py:11-13 | the line's `\n` terminator does not affect the cleaned name |
| Cleaning.CleanHasNoLineBreak | TXTtoJSON.py:11-13 | a line whose only `\n` is its terminator is cleaned to a name without `\n` |
| Cleaning.CleanTerminated | TXTtoJSON.py:11-13 | a clean name written as a line of its own is cleaned back to itself |
| JsonText.HexDigit | TXTtoJSON.py:18 | the digit is `0`-`9` or lower-case `a`-`f`, and reads back as its value |
| JsonText.EscapeChar | TXTtoJSON.py:18 | each character's escape has no raw control character, and a character is written as itself exactly when it is not a control character, `"` or `\` |
| JsonText.EscapeJsonString | TXTtoJSON.py:18 | the body of the string literal `json.dumps` writes; never shorter than the name, and characterised by `EscapeHasNoControl`, `EscapePlain` and `UnescapeEscape` |
| JsonText.EscapeHasNoControl | TXTtoJSON.py:18 | the escaped name holds no raw control character, so no line break |
| JsonText.EscapePlain | TXTtoJSON.py:18 | a name with nothing to escape, non-ASCII included, is written literally |
| JsonText.UnescapeEscapeChar | TXTtoJSON.py:18 | reading back the escape of one character gives that character, followed by whatever the rest reads back as |
| JsonText.UnescapeEscape | TXTtoJSON.py:18 | reading the escaped name back with the JSON string grammar gives exactly the name |
| TxtToJson.EncodeRecord | TXTtoJSON.py:18 | `json.dumps({"name": ...}, ensure_ascii=False)`; its text is stated by `EncodeRecordLayout` (no contract of its own) |
| TxtToJson.EncodeRecordLayout | TXTtoJSON.py:18 | a record encodes as `{"name": "` + escaped name + `"}` (default separators, key unescaped) |
| TxtToJson.RecordLine | TXTtoJSON.py:18-22 | one written record line; its shape is stated by `RecordLineLayout` and `RecordLineIsLine` (no contract of its own) |
| TxtToJson.RecordLineLayout | TXTtoJSON.py:18-22 | a record line is the tab and opening, the escaped name, and `"}` followed by `,\n`, or `\n` for the last |
| TxtToJson.RecordLineIsLine | TXTtoJSON.py:18-22 | a record line has its only line break at its end |
| TxtToJson.Load | TXTtoJSON.py:7-13 | the records the loading loop builds; `LoadRecords` is proved equal to it, and `RecordCount`, `LoadedNamesClean`, `BlankLineKept` and `ReloadNames` state its properties (no contract of its own) |
| TxtToJson.LoadRecords | TXTtoJSON.py:7-13 | the loop appends one record per line, in order, each named by the replaced-then-stripped line |
| TxtToJson.Serialize | TXTtoJSON.py:15-23 | the document the writing loop produces; `Convert` is proved equal to it, and `SerializeLines`, `OutputLayout`, `NewlineCount`, `SeparatorCount` and `ReadSerialize` state its properties (no contract of its own) |
| TxtToJson.Convert | TXTtoJSON.py:15-23 | the writing loop, with the comma chosen by index, produces exactly the specified document |
| TxtToJson.Export | TXTtoJSON.py:5-23 | the whole conversion's output; `TextToJson` is proved equal to it, and `ExportRoundTrip` and `ReloadExported` state its properties (no contract of its own) |
| TxtToJson.TextToJson | TXTtoJSON.py:5-23 | the whole conversion produces the document for the loaded records |
| TxtToJson.SerializeLines | TXTtoJSON.py:16-23 | the output splits into `[`, one line per record, and `]` |
| TxtToJson.JoinOutputLines | TXTtoJSON.py:16-23 | the document is exactly `[`, the record lines in order, and `]`, written one after another |
| TxtToJson.OutputLayout | TXTtoJSON.py:16-23 | zero records give exactly `[\n]\n`; otherwise the first line is `[`, the last is `]`, and record j is a tab plus its encoding with a comma iff j is not last |
| TxtToJson.NewlineCount | TXTtoJSON.py:16-23 | the output holds exactly n + 2 line breaks for n records |
| TxtToJson.SeparatorCount | TXTtoJSON.py:19-22 | exactly n - 1 lines end in a comma separator (none for an empty array): no trailing comma |
| TxtToJson.ParseRecordLineRoundTrip | TXTtoJSON.py:18-22 | unescaping the text between `{"name": "` and `"}` on a record line gives back the name |
| TxtToJson.ReadSerialize | TXTtoJSON.py:15-23 | reading the output back gives exactly the records written, in order |
| TxtToJson.RecordCount | TXTtoJSON.py:10-13 | the number of records is the number of `\n` in the input, plus one for an unterminated last line |
| TxtToJson.LoadedNamesClean | TXTtoJSON.py:12-13 | every emitted name is stripped, has no `â€™` and no line break |
| TxtToJson.BlankLineKept | TXTtoJSON.py:11-13 | a blank or whitespace-only line is kept, as an empty name |
| TxtToJson.ExportRoundTrip | TXTtoJSON.py:5-23 | the output reads back as one record per input line, in input order, each the cleaned line |
| TxtToJson.ReloadNames | TXTtoJSON.py:10-13 | a file of clean names, one per line, loads back as the same records |
| TxtToJson.ReloadExported | TXTtoJSON.py:5-23 | writing the exported names one per line and converting again reproduces the same records |

## Left out

- The tkinter window, entries, browse dialogs, Convert button and main loop (TXTtoJSON.py:34-75): presentation only.
- The success and error message boxes and the exception handlers (TXTtoJSON.py:25-30): user-interface side effects. A missing or unreadable input file and a failing output write are not modelled.
- Opening, reading and writing files: the input is the decoded text and the output is the written string.
- UTF-8 decoding of the input (TXTtoJSON.py:10) and the platform-default encoding of the output (TXTtoJSON.py:15): byte-level encodings are outside the model.
- Universal-newline translation of `\r` and `\r\n` on input: the input is taken after translation, so only `\n` ends a line.
- Newline translation on output (TXTtoJSON.py:15): on Windows each `\n` written becomes `\r\n` in the file. `TxtToJson.Serialize` is the text passed to `write`.
- Cleaning.IsSpace: follows the whitespace set of current Python releases. Changes in later Unicode versions are not tracked.
- JsonText.UnescapeJsonString: rejects `\u` escapes of UTF-16 surrogates instead of joining surrogate pairs. The encoder never writes them, so the round trip is not affected.
- A general JSON library: only string escaping and the single-key object encoding used by this program are modelled.
