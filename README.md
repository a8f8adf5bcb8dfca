# Base64Converter, modelled in Dafny

Base64Converter is a small .NET console program. It turns a file into Base64
text and turns Base64 text back into a file. It can be driven by
command-line flags (`--help`, `--file-to-base64 <in> [--out <out>]
[--no-print]`, `--base64-to-file <in> <out>`) or, when it is started without
arguments, by an interactive menu.

This project models the program's own logic and proves properties of it:

- the argument dispatcher and its option loop;
- the path sanitiser that trims a pasted path and removes one pair of
  surrounding quotes;
- the multi-line paste reader;
- what each conversion operation does with each answer from the file system
  and the Base64 codec: what it prints, what it writes, and how it reports
  each failure.

The file system and the codec (`Convert.ToBase64String`,
`Convert.FromBase64String`) are parameters. The model does not say what
they answer. It says what the program does with each answer.

Files:

- `basics.dfy`: `Option`, the `byte` type.
- `text.dfy`: `Char.IsWhiteSpace`, `String.Trim`, and `ReadTrimmedPath` as
  `SanitizePath`.
- `console_input.dfy`: the console as a sequence of lines, where `None` is
  a null line and every read past the end gives null. It holds
  `ReadMultiLineBase64` as a method with its loop.
- `command_line.dfy`: the start-up check. It holds `HandleCommandLineAsync`
  as a method with its option loop, proved equal to the function
  `Dispatch`. A tokenizer states independently what the loop computes.
  `Render` gives a canonical argument list for each help or conversion
  command, and
  `Dispatch` parses it back to that command.
- `conversions.dfy`: the four conversion operations and one turn of the
  menu, both as written and with the decoder's file read reported instead
  of escaping. Each returns the list of its effects in order.

## Model

| member | source | states |
|---|---|---|
| Text.Trim | Base64Converter/Program.cs:320 | the result of `Trim()` has no white space at either end and is no longer than its input |
| Text.TrimCutsOnlyWhiteSpace | Base64Converter/Program.cs:320 | `Trim()` returns a contiguous piece of its input, and everything cut off before and after it is white space |
| Text.TrimOfPadded | Base64Converter/Program.cs:320 | white space padded around a trimmed string is removed exactly: `Trim(a + p + b) == p`, so the result of Trim is unique |
| Text.TrimFixesTrimmed | Base64Converter/Program.cs:326 | Trim leaves a string unchanged if and only if the string has no white space at either end |
| Text.TrimIdempotent | Base64Converter/Program.cs:326 | trimming twice gives the same result as trimming once |
| Text.TrimEmptyIffWhiteSpace | Base64Converter/Program.cs:305-310 | Trim gives the empty string if and only if its input is white space only, so such a pasted line adds nothing |
| Text.SanitizePath | Base64Converter/Program.cs:316-327 | the sanitised path has no white space at either end, a null line gives `""`, and the result is never longer than the line |
| Text.SanitizeStripsQuotes | Base64Converter/Program.cs:320-326 | a line that is white space, `"`, some text m, `"`, white space becomes `Trim(m)`: one quote pair is removed and the inside is trimmed again |
| Text.SanitizeKeepsUnquoted | Base64Converter/Program.cs:320-326 | a trimmed path that is not wrapped in a quote pair, a lone `"` included, comes back unchanged apart from the padding |
| Text.SanitizeStableUnlessQuoted | Base64Converter/Program.cs:316-327 | sanitising a sanitised path again changes it if and only if the first result is itself wrapped in quotes |
| Text.SanitizeNotIdempotent | Base64Converter/Program.cs:316-327 | `""x""` becomes `"x"` on the first pass and `x` on the second |
| Text.SanitizeQuotedWindowsPath | Base64Converter/Program.cs:316-327 | `  "C:\spaced path\file.bin"  ` becomes `C:\spaced path\file.bin` |
| ConsoleInput.Payload | Base64Converter/Program.cs:302-308 | the pasted lines are exactly the input lines before the first null or empty line, and that line is the terminator; a white-space-only line does not end the paste |
| ConsoleInput.ReadMultiLineBase64 | Base64Converter/Program.cs:297-314 | the loop returns the trimmed pasted lines concatenated with no separator, and it reads exactly those lines plus the terminator |
| ConsoleInput.ConcatTrimmedAppend | Base64Converter/Program.cs:310-313 | the text of two runs of lines is the text of the first run followed by the text of the second |
| ConsoleInput.ConcatTrimmedCons | Base64Converter/Program.cs:310 | each line adds exactly its trimmed self, in order |
| ConsoleInput.WhiteSpaceLineAddsNothing | Base64Converter/Program.cs:305-310 | inserting a white-space-only line anywhere in a paste leaves the text unchanged |
| ConsoleInput.PayloadIgnoresLaterLines | Base64Converter/Program.cs:302-308 | lines after the terminator do not affect the pasted text; any lines may follow it |
| ConsoleInput.PasteHelloExample | Base64Converter/Program.cs:297-314 | pasting `SGVs`, `bG8=` and an empty line gives `SGVsbG8=` |
| CommandLine.Dispatch | Base64Converter/Program.cs:54-108 | help if and only if the first argument is `--help`, `-h` or `/?`; `--file-to-base64` converts if and only if there is an input path, which is `args[1]`; `--base64-to-file` converts if and only if there are at least three arguments, using `args[1]` and `args[2]`; the options of `--file-to-base64` are what the option loop computes from `args[2..]` starting from printing on and no output path; a usage error names its reason (missing input path for `--file-to-base64`, the `--base64-to-file` usage for `--base64-to-file`, an unknown option otherwise), and every usage error shows the help text except the one for `--base64-to-file` |
| CommandLine.HandleCommandLine | Base64Converter/Program.cs:54-109 | every branch reports the arguments as handled, and the option loop (skip-ahead index, last `--out` kept, `--no-print` clears the flag) computes exactly the command `Dispatch` describes |
| CommandLine.ApplyOptions | Base64Converter/Program.cs:76-87 | the option loop, read front to back, changes the output path only to the word right after some `--out` in the options, and changes the print flag only from on to off, and only when a `--no-print` word occurs |
| CommandLine.Start | Base64Converter/Program.cs:5-12 | the interactive menu is reached if and only if there are no arguments; otherwise the command chosen by `Dispatch` runs and the program ends |
| CommandLine.Tokenize | Base64Converter/Program.cs:76-87 | the option words split into tokens (`--out` with its value, `--no-print`, a trailing `--out`, a skipped word), with no word lost or read twice |
| CommandLine.TokenizeUnparse | Base64Converter/Program.cs:76-87 | the other direction of the round trip: any well-formed token list is read back unchanged from its words |
| CommandLine.ApplyOptionsMeaning | Base64Converter/Program.cs:73-87 | the output path is the value of the last complete `--out`, or stays as it was if there is none; printing stays on if and only if it was on and no `--no-print` is read as a flag; a word consumed as an `--out` value is never a flag |
| CommandLine.ApplyOptionsAppend | Base64Converter/Program.cs:76-87 | after a complete stretch of words, the loop carries on from the settings it has reached |
| CommandLine.NoPrintTurnsPrintingOff | Base64Converter/Program.cs:83-86 | a `--no-print` read as a flag anywhere turns printing off, whatever follows |
| CommandLine.OptionsAbsent | Base64Converter/Program.cs:73-74 | printing defaults to on when no `--no-print` word occurs, and the output path stays unset when no `--out` word occurs |
| CommandLine.LastOutWins | Base64Converter/Program.cs:78-82 | an `--out` and its value, read as a flag with no `--out` word after it, set the output path to that value, whatever the value is |
| CommandLine.TrailingOutIgnored | Base64Converter/Program.cs:78 | an `--out` with no value after it changes nothing |
| CommandLine.UnknownWordSkipped | Base64Converter/Program.cs:76-87 | a word that is neither `--out` nor `--no-print`, read as a flag, is skipped wherever it stands |
| CommandLine.DispatchRender | Base64Converter/Program.cs:64-101 | every help or conversion command is parsed back from its canonical argument list, whatever its paths contain |
| Conversions.WriteText | Base64Converter/Program.cs:256-260 | a text write gives a saved file if and only if the write succeeds, and otherwise a failure report with the exception's message |
| Conversions.FileToBase64Cli | Base64Converter/Program.cs:236-267 | a missing input gives only "not found"; a read that throws gives only the generic report with its message; for a readable input the effects are the printed Base64 (first, exactly when the print flag is set) and then the outcome of writing it to the output path (exactly when that path is not null or white space), so a failed write is reported with its message; the encoding is printed if and only if the input is readable and the flag is set, and saved if and only if the input is readable, the path is usable and the write succeeds; the printed and saved text is the Base64 of the input's bytes |
| Conversions.DecodeAndSave | Base64Converter/Program.cs:217-231 | text the codec rejects gives the distinct "invalid Base64" report and no write; bytes are saved, to the given path and as decoded, if and only if decoding succeeds and the write succeeds; a decoded text whose write fails gives the generic report with the write's message; there is no other outcome |
| Conversions.Base64FileToFileCli | Base64Converter/Program.cs:269-293 | there is exactly one outcome; a missing input gives "not found"; a read that throws gives the generic report with its message; a file that is read has its text trimmed and then decoded and saved as `DecodeAndSave` states, so "invalid Base64" happens if and only if the trimmed text is rejected, and saved bytes are its decoding, written to the output path |
| Conversions.RunCommand | Base64Converter/Program.cs:56-107 | help only shows the help text; a usage error reports its reason, then shows the help text if and only if the dispatcher asked for it, and does nothing else; the two conversion commands run `FileToBase64Cli` and `Base64FileToFileCli` with the dispatched paths and options; nothing crashes |
| Conversions.WriteWithoutPrinting | Base64Converter/Program.cs:73-89 | `--file-to-base64 a --out b --no-print` writes the Base64 of `a` to `b` and prints nothing |
| Conversions.MissingInputWritesNothing | Base64Converter/Program.cs:238-242 | `--file-to-base64` with a missing input reports only "not found" and writes nothing, whatever options follow |
| Conversions.FileToBase64Interactive | Base64Converter/Program.cs:129-178 | a missing file reports "not found" and reads no further line; a read that throws gives the generic report with its message and reads no further line; for a readable file, answer 1 prints its Base64, answer 2 writes it to the path on the next line with the outcome `WriteText` states, and any other answer reports an unknown option; so it is printed if and only if the file is readable and the answer is 1, and never both printed and saved |
| Conversions.AcquireBase64 | Base64Converter/Program.cs:186-210 | answer 1 gives the trimmed pasted lines joined together and resumes after the terminator; answer 2 reads a path, then gives "not found" for a missing file, a read failure with its message for a read that throws, and the file's text otherwise; any other answer abandons the operation after one line; a failed read happens only in that one case |
| Conversions.Base64ToFileInteractiveAsWritten | Base64Converter/Program.cs:180-232 | as written, the operation crashes if and only if reading the Base64 file throws; it then crashes with that read's message as its only effect, before the output path is read or anything is decoded or written; in every other case it does exactly what the corrected operation does |
| Conversions.Base64ToFileInteractive | Base64Converter/Program.cs:180-232 | acquired text is trimmed, then the output path is read (one line) and the text is decoded and saved as `DecodeAndSave` states; an abandoned source reports its fault ("not found" or unknown option) and reads nothing more; a read that throws is reported with its message; "invalid Base64" happens if and only if acquired text is rejected by the codec; it never crashes, prints or saves text |
| Conversions.UnreadableBase64FileCrashes | Base64Converter/Program.cs:196-205 | for an existing Base64 file whose read throws, the code as written crashes and its menu turn ends the process, while the corrected operation reports the failure and its menu turn continues |
| Conversions.PasteAndDecode | Base64Converter/Program.cs:190-221 | answering 1, pasting `SGVs`, `bG8=`, an empty line and then an output path decodes `SGVsbG8=` into that file and reads five lines |
| Conversions.MenuTurn | Base64Converter/Program.cs:15-41 | one turn of the menu loop with the corrected decoder: the menu ends if and only if the answer is `0`; answer 1 runs the interactive encoder and answer 2 the corrected decoder on the following lines, then reads the "Press Enter" line; any other answer, a null line at the end of input included, only reports an unknown option and reads the "Press Enter" line; the turn never crashes |
| Conversions.MenuTurnAsWritten | Base64Converter/Program.cs:15-41 | one turn of the menu loop as written: it ends the process if and only if the answer is 2 and the decoder's file read throws, its only effect is then the crash with the read's message, so nothing is written and "Press Enter" is not read; in every other case it is the same turn as `MenuTurn` |

## Left out

- The Base64 codec's internals. `Convert.ToBase64String` and
  `Convert.FromBase64String` are library calls. They are the `encode` and
  `decode` fields of `Codec`, and nothing is assumed about what they answer:
  no round trip, and no tolerance of white space inside the text. `encode`
  is a total function, so the model assumes encoding never fails;
  `Convert.ToBase64String` can throw `OutOfMemoryException` for an input
  whose Base64 text would exceed the maximum string length, which the code
  catches and reports generically.
- File contents and encodings. Reads and writes are the answers in
  `FileSystem`. The model records the text or bytes handed to a write. It
  does not model the byte encoding of text files: `Encoding.UTF8` makes
  `WriteAllTextAsync` write a UTF-8 byte-order mark before the Base64 text,
  and the model stops at the text.
- What a failed write leaves on disk. A failed write is only its report.
- Console colours (`WriteWithColor` saves and restores the foreground
  colour), `Console.Clear`, the menu and help text, and the exact wording
  of every message. Effects name the kind of message, not its text.
- The infinite menu loop. `MenuTurn` and `MenuTurnAsWritten` are one turn. At the end of input
  every `ReadLine` returns null, so the real loop keeps reporting an
  unknown option forever. That is not modelled.
- `async`/`await`. Each call is modelled as completing before the next
  statement.
- Process exit codes. The program sets none.
- Text.SanitizePath: checks the first and last character for `"`. The
  source uses `StartsWith("\"")` and `EndsWith("\"")`, which in .NET compare
  by culture and may skip characters that culture rules ignore.
- Text.IsWhiteSpace: is the fixed list of characters for which
  `Char.IsWhiteSpace` is true. Later Unicode versions could change that
  list.
- White space inside a pasted line: `Program.cs:310` trims each line and
  does not remove white space inside it, and neither does the model; only
  the codec may ignore it.
- Exceptions from `Console.ReadLine` and `File.Exists` are not modelled.
  `File.Exists` never throws.

## Findings

| source | as written | input that shows it | evidently intended | confidence | as-written member | corrected member |
|---|---|---|---|---|---|---|
| Base64Converter/Program.cs:204 | `File.ReadAllTextAsync` in the "read Base64 from file" branch is outside the `try` block, so its exception escapes the operation and the top-level loop, and the process ends | menu answer `2`, source answer `2`, then the path of a file that exists but cannot be read (locked by another process, or no read permission) | the failure is reported like every other failure of the operation, and the menu continues | high; not executed | Conversions.Base64ToFileInteractiveAsWritten and Conversions.MenuTurnAsWritten (shown by Conversions.UnreadableBase64FileCrashes) | Conversions.Base64ToFileInteractive |
