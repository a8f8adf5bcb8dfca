/**
 * The four conversion operations of Program.cs and the interactive menu
 * step, as decisions over their inputs. The file system and the Base64
 * codec are parameters: what they answer is given, and the model says what
 * the program does with each answer. What an operation does is a list of
 * effects in the order they happen.
 */
module Conversions {
  import opened Basics
  import opened Text
  import opened ConsoleInput
  import opened CommandLine

  /** The outcome of a call that may throw. */
  datatype Io<T> = Done(value: T) | Threw(message: string)

  /** The file-system calls the program makes: `File.Exists`,
      `ReadAllBytesAsync`, `ReadAllTextAsync` and the two writes, whose
      answer is `None` on success or the exception's message. */
  datatype FileSystem = FileSystem(
    fileExists: string -> bool,
    readBytes: string -> Io<seq<byte>>,
    readText: string -> Io<string>,
    writeText: (string, string) -> Option<string>,
    writeBytes: (string, seq<byte>) -> Option<string>)

  /** `Convert.ToBase64String` and `Convert.FromBase64String`; a decode
      result of `None` is a `FormatException`. */
  datatype Codec = Codec(encode: seq<byte> -> string, decode: string -> Option<seq<byte>>)

  /** The kinds of failure the program reports. */
  datatype Fault =
    | NotFound                       // the input file does not exist
    | InvalidBase64                  // the codec rejected the text
    | OperationFailed(message: string) // any other exception, with its message
    | UnknownChoice                  // a menu answer that is not offered
    | Usage(reason: UsageReason)     // a malformed command line

  datatype Effect =
    | ShowHelp                                  // the usage text
    | PrintBase64(text: string)                 // Base64 framed by title lines
    | SaveText(path: string, text: string)      // a text file written
    | SaveBytes(path: string, data: seq<byte>)  // a binary file written
    | Report(fault: Fault)                      // an error message
    | Crash(message: string)                    // an exception escaped: the process ends

  predicate Prints(effects: seq<Effect>) {
    exists k :: 0 <= k < |effects| && effects[k].PrintBase64?
  }

  predicate SavesText(effects: seq<Effect>) {
    exists k :: 0 <= k < |effects| && effects[k].SaveText?
  }

  predicate SavesBytes(effects: seq<Effect>) {
    exists k :: 0 <= k < |effects| && effects[k].SaveBytes?
  }

  predicate Crashes(effects: seq<Effect>) {
    exists k :: 0 <= k < |effects| && effects[k].Crash?
  }

  predicate Readable(fs: FileSystem, path: string) {
    fs.fileExists(path) && fs.readBytes(path).Done?
  }

  /** The Base64 text of a readable file. */
  function EncodedFile(fs: FileSystem, codec: Codec, path: string): string
    requires fs.readBytes(path).Done?
  {
    codec.encode(fs.readBytes(path).value)
  }

  /** `WriteAllTextAsync` inside a try block. */
  function WriteText(fs: FileSystem, path: string, text: string): (e: Effect)
    ensures e.SaveText? <==> fs.writeText(path, text).None?
    ensures e.SaveText? ==> e == SaveText(path, text)
    ensures !e.SaveText? ==> e == Report(OperationFailed(fs.writeText(path, text).value))
  {
    match fs.writeText(path, text)
    case None => SaveText(path, text)
    case Some(m) => Report(OperationFailed(m))
  }

  // ----- file to Base64, command line -----

  /** `ConvertFileToBase64CliAsync`: a missing input stops everything; the
      console copy and the file copy are decided independently, one by the
      print flag, the other by the output path. */
  function FileToBase64Cli(fs: FileSystem, codec: Codec, inputFile: string,
                           outputFile: Option<string>, printToConsole: bool): (effects: seq<Effect>)
    ensures !fs.fileExists(inputFile) ==> effects == [Report(NotFound)]
    ensures Prints(effects) <==> Readable(fs, inputFile) && printToConsole
    ensures SavesText(effects) <==>
      && Readable(fs, inputFile)
      && !IsNullOrWhiteSpace(outputFile)
      && fs.writeText(outputFile.value, EncodedFile(fs, codec, inputFile)).None?
    ensures forall e :: e in effects && (e.PrintBase64? || e.SaveText?) ==>
      Readable(fs, inputFile) && e.text == EncodedFile(fs, codec, inputFile)
    ensures forall e :: e in effects && e.SaveText? ==> outputFile == Some(e.path)
    ensures fs.fileExists(inputFile) && fs.readBytes(inputFile).Threw? ==>
      effects == [Report(OperationFailed(fs.readBytes(inputFile).message))]
    ensures Readable(fs, inputFile) ==>
      var base64 := EncodedFile(fs, codec, inputFile);
      var printed := if printToConsole then 1 else 0;
      && |effects| == printed + (if IsNullOrWhiteSpace(outputFile) then 0 else 1)
      && (printToConsole ==> effects[0] == PrintBase64(base64))
      && (!IsNullOrWhiteSpace(outputFile) ==> effects[printed] == WriteText(fs, outputFile.value, base64))
    ensures
      (&& Readable(fs, inputFile)
       && !IsNullOrWhiteSpace(outputFile)
       && fs.writeText(outputFile.value, EncodedFile(fs, codec, inputFile)).Some?) ==>
      Report(OperationFailed(fs.writeText(outputFile.value, EncodedFile(fs, codec, inputFile)).value)) in effects
    ensures !SavesBytes(effects) && !Crashes(effects)
  {
    if !fs.fileExists(inputFile) then [Report(NotFound)]
    else match fs.readBytes(inputFile)
      case Threw(m) => [Report(OperationFailed(m))]
      case Done(bytes) =>
        var base64 := codec.encode(bytes);
        var shown := if printToConsole then [PrintBase64(base64)] else [];
        var saved := if IsNullOrWhiteSpace(outputFile) then [] else [WriteText(fs, outputFile.value, base64)];
        assert shown != [] ==> (shown + saved)[0] == shown[0];
        assert saved != [] ==> (shown + saved)[|shown|] == saved[0];
        shown + saved
  }

  // ----- Base64 to file, shared by both decoders -----

  /** `FromBase64String` then `WriteAllBytesAsync` inside a try block with a
      `FormatException` handler before the general one: decoding happens
      first, so rejected text is reported as such and nothing is written. */
  function DecodeAndSave(fs: FileSystem, codec: Codec, base64: string, outputPath: string): (e: Effect)
    ensures e == Report(InvalidBase64) <==> codec.decode(base64).None?
    ensures e.SaveBytes? <==>
      codec.decode(base64).Some? && fs.writeBytes(outputPath, codec.decode(base64).value).None?
    ensures e.SaveBytes? ==> e.path == outputPath && codec.decode(base64) == Some(e.data)
    ensures codec.decode(base64).Some? && fs.writeBytes(outputPath, codec.decode(base64).value).Some? ==>
      e == Report(OperationFailed(fs.writeBytes(outputPath, codec.decode(base64).value).value))
    ensures e.Report? && e.fault.OperationFailed? ==>
      codec.decode(base64).Some?
      && fs.writeBytes(outputPath, codec.decode(base64).value) == Some(e.fault.message)
    ensures e.SaveBytes? || e.Report?
  {
    match codec.decode(base64)
    case None => Report(InvalidBase64)
    case Some(bytes) =>
      match fs.writeBytes(outputPath, bytes)
      case None => SaveBytes(outputPath, bytes)
      case Some(m) => Report(OperationFailed(m))
  }

  // ----- Base64 to file, command line -----

  /** `ConvertBase64FileToFileCliAsync`: existence is checked before any
      read, and the file's text is trimmed before it is decoded. */
  function Base64FileToFileCli(fs: FileSystem, codec: Codec, inputFile: string, outputFile: string): (effects: seq<Effect>)
    ensures |effects| == 1
    ensures !fs.fileExists(inputFile) ==> effects == [Report(NotFound)]
    ensures effects == [Report(InvalidBase64)] <==>
      && fs.fileExists(inputFile)
      && fs.readText(inputFile).Done?
      && codec.decode(Trim(fs.readText(inputFile).value)).None?
    ensures effects[0].SaveBytes? ==>
      && fs.fileExists(inputFile)
      && fs.readText(inputFile).Done?
      && effects[0] == SaveBytes(outputFile, codec.decode(Trim(fs.readText(inputFile).value)).value)
    ensures fs.fileExists(inputFile) && fs.readText(inputFile).Threw? ==>
      effects == [Report(OperationFailed(fs.readText(inputFile).message))]
    ensures fs.fileExists(inputFile) && fs.readText(inputFile).Done? ==>
      effects == [DecodeAndSave(fs, codec, Trim(fs.readText(inputFile).value), outputFile)]
    ensures !SavesText(effects) && !Prints(effects) && !Crashes(effects)
  {
    if !fs.fileExists(inputFile) then [Report(NotFound)]
    else match fs.readText(inputFile)
      case Threw(m) => [Report(OperationFailed(m))]
      case Done(text) => [DecodeAndSave(fs, codec, Trim(text), outputFile)]
  }

  /** What a command line does once `HandleCommandLineAsync` has chosen. */
  function RunCommand(fs: FileSystem, codec: Codec, c: Command): (effects: seq<Effect>)
    ensures c.Help? ==> effects == [ShowHelp]
    ensures c.UsageError? ==>
      && |effects| > 0
      && effects[0] == Report(Usage(c.reason))
      && (ShowHelp in effects <==> c.withHelp)
      && |effects| == (if c.withHelp then 2 else 1)
    ensures c.Help? || c.UsageError? ==>
      !Prints(effects) && !SavesText(effects) && !SavesBytes(effects)
    ensures c.FileToBase64? ==> effects == FileToBase64Cli(fs, codec, c.input, c.outFile, c.printToConsole)
    ensures c.Base64ToFile? ==> effects == Base64FileToFileCli(fs, codec, c.input, c.output)
    ensures !Crashes(effects)
  {
    match c
    case Help => [ShowHelp]
    case UsageError(reason, withHelp) => [Report(Usage(reason))] + (if withHelp then [ShowHelp] else [])
    case FileToBase64(input, outFile, printToConsole) => FileToBase64Cli(fs, codec, input, outFile, printToConsole)
    case Base64ToFile(input, output) => Base64FileToFileCli(fs, codec, input, output)
  }

  /** `--file-to-base64 a --out b --no-print` writes the Base64 of `a` to `b`
      and prints nothing. */
  lemma WriteWithoutPrinting(fs: FileSystem, codec: Codec, input: string, output: string)
    requires Readable(fs, input) && !AllWhiteSpace(output)
    requires fs.writeText(output, EncodedFile(fs, codec, input)).None?
    ensures var args := ["--file-to-base64", input, "--out", output, "--no-print"];
      RunCommand(fs, codec, Dispatch(args)) == [SaveText(output, EncodedFile(fs, codec, input))]
  {
    var args := ["--file-to-base64", input, "--out", output, "--no-print"];
    assert args[2..] == ["--out", output, "--no-print"];
    assert ["--out", output, "--no-print"][2..] == ["--no-print"];
    assert ["--no-print"][1..] == [];
    assert ApplyOptions(["--no-print"], Settings(Some(output), true)) == Settings(Some(output), false);
    assert ApplyOptions(args[2..], Defaults) == Settings(Some(output), false);
  }

  /** A missing input file writes nothing, whatever the options say. */
  lemma MissingInputWritesNothing(fs: FileSystem, codec: Codec, args: seq<string>)
    requires |args| >= 2 && args[0] == "--file-to-base64" && !fs.fileExists(args[1])
    ensures RunCommand(fs, codec, Dispatch(args)) == [Report(NotFound)]
  {
  }

  // ----- the interactive operations -----

  /** The effects of an interactive operation and the position of the next
      console line it leaves unread. */
  datatype Step = Step(effects: seq<Effect>, next: nat)

  /** `ConvertFileToBase64InteractiveAsync`, its console lines read from
      position `at`: the path, then (once the file is encoded) the output
      choice, then for choice 2 the output path. Console and file output
      exclude each other here. */
  function FileToBase64Interactive(fs: FileSystem, codec: Codec, input: seq<Option<string>>, at: nat): (s: Step)
    ensures |s.effects| == 1 && at < s.next <= at + 3
    ensures var path := SanitizePath(LineAt(input, at));
      && (!fs.fileExists(path) ==> s == Step([Report(NotFound)], at + 1))
      && (fs.fileExists(path) && fs.readBytes(path).Threw? ==>
            s == Step([Report(OperationFailed(fs.readBytes(path).message))], at + 1))
      && (Readable(fs, path) && LineAt(input, at + 1) == Some("1") ==>
            s == Step([PrintBase64(EncodedFile(fs, codec, path))], at + 2))
      && (Readable(fs, path) && LineAt(input, at + 1) == Some("2") ==>
            s == Step([WriteText(fs, SanitizePath(LineAt(input, at + 2)), EncodedFile(fs, codec, path))], at + 3))
      && (Readable(fs, path) && LineAt(input, at + 1) != Some("1") && LineAt(input, at + 1) != Some("2") ==>
            s == Step([Report(UnknownChoice)], at + 2))
      && (Prints(s.effects) <==> Readable(fs, path) && LineAt(input, at + 1) == Some("1"))
      && (SavesText(s.effects) ==> Readable(fs, path) && LineAt(input, at + 1) == Some("2"))
      && (forall e :: e in s.effects && (e.PrintBase64? || e.SaveText?) ==>
            Readable(fs, path) && e.text == EncodedFile(fs, codec, path))
    ensures !(Prints(s.effects) && SavesText(s.effects))
    ensures !SavesBytes(s.effects) && !Crashes(s.effects)
  {
    var path := SanitizePath(LineAt(input, at));
    if !fs.fileExists(path) then Step([Report(NotFound)], at + 1)
    else match fs.readBytes(path)
      case Threw(m) => Step([Report(OperationFailed(m))], at + 1)
      case Done(bytes) =>
        var base64 := codec.encode(bytes);
        var choice := LineAt(input, at + 1);
        if choice == Some("1") then
          var shown := [PrintBase64(base64)];
          assert shown[0].PrintBase64?;
          Step(shown, at + 2)
        else if choice == Some("2") then
          var outPath := SanitizePath(LineAt(input, at + 2));
          Step([WriteText(fs, outPath, base64)], at + 3)
        else Step([Report(UnknownChoice)], at + 2)
  }

  /** Where the Base64 text of the interactive decoder comes from. */
  datatype Source =
    | Base64Text(text: string, next: nat)       // pasted or read from a file
    | Abandoned(fault: Fault, next: nat)        // reported; nothing more happens
    | ReadFailed(message: string, next: nat)    // ReadAllTextAsync threw

  /** The input-source choice of `ConvertBase64ToFileInteractiveAsync`: 1
      pastes lines up to an empty one, 2 reads a file whose path is asked
      for; any other answer abandons the operation. */
  function AcquireBase64(fs: FileSystem, input: seq<Option<string>>, at: nat): (src: Source)
    ensures src.next > at
    ensures src.Abandoned? ==> src.fault == NotFound || src.fault == UnknownChoice
    ensures LineAt(input, at) != Some("1") && LineAt(input, at) != Some("2") ==>
      src == Abandoned(UnknownChoice, at + 1)
    ensures LineAt(input, at) == Some("1") ==>
      var pasted := Payload(Drop(input, at + 1));
      src == Base64Text(ConcatTrimmed(pasted), at + |pasted| + 2)
    ensures LineAt(input, at) == Some("2") ==>
      var path := SanitizePath(LineAt(input, at + 1));
      && (!fs.fileExists(path) ==> src == Abandoned(NotFound, at + 2))
      && (fs.fileExists(path) && fs.readText(path).Threw? ==>
            src == ReadFailed(fs.readText(path).message, at + 2))
      && (fs.fileExists(path) && fs.readText(path).Done? ==>
            src == Base64Text(fs.readText(path).value, at + 2))
    ensures src.ReadFailed? ==>
      LineAt(input, at) == Some("2") && fs.readText(SanitizePath(LineAt(input, at + 1))).Threw?
  {
    var choice := LineAt(input, at);
    if choice == Some("1") then
      var pasted := Payload(Drop(input, at + 1));
      Base64Text(ConcatTrimmed(pasted), at + 1 + |pasted| + 1)
    else if choice == Some("2") then
      var path := SanitizePath(LineAt(input, at + 1));
      if !fs.fileExists(path) then Abandoned(NotFound, at + 2)
      else match fs.readText(path)
        case Threw(m) => ReadFailed(m, at + 2)
        case Done(text) => Base64Text(text, at + 2)
    else Abandoned(UnknownChoice, at + 1)
  }

  /** `ConvertBase64ToFileInteractiveAsync` with the read failure reported
      like every other failure of the operation. Once text is acquired it is
      trimmed, and the output path is read before anything is decoded. */
  function Base64ToFileInteractive(fs: FileSystem, codec: Codec, input: seq<Option<string>>, at: nat): (s: Step)
    ensures s.next > at && |s.effects| == 1
    ensures !Crashes(s.effects) && !Prints(s.effects) && !SavesText(s.effects)
    ensures LineAt(input, at) != Some("1") && LineAt(input, at) != Some("2") ==>
      s == Step([Report(UnknownChoice)], at + 1)
    ensures match AcquireBase64(fs, input, at)
      case Base64Text(text, next) =>
        s == Step([DecodeAndSave(fs, codec, Trim(text), SanitizePath(LineAt(input, next)))], next + 1)
      case Abandoned(fault, next) => s == Step([Report(fault)], next)
      case ReadFailed(m, next) => s == Step([Report(OperationFailed(m))], next)
    ensures s.effects == [Report(InvalidBase64)] <==>
      var src := AcquireBase64(fs, input, at);
      src.Base64Text? && codec.decode(Trim(src.text)).None?
    ensures SavesBytes(s.effects) ==> match AcquireBase64(fs, input, at)
      case Base64Text(text, next) =>
        && codec.decode(Trim(text)).Some?
        && s.effects == [SaveBytes(SanitizePath(LineAt(input, next)), codec.decode(Trim(text)).value)]
      case _ => false
  {
    match AcquireBase64(fs, input, at)
    case Base64Text(text, next) =>
      Step([DecodeAndSave(fs, codec, Trim(text), SanitizePath(LineAt(input, next)))], next + 1)
    case Abandoned(fault, next) => Step([Report(fault)], next)
    case ReadFailed(m, next) => Step([Report(OperationFailed(m))], next)
  }

  /** `ConvertBase64ToFileInteractiveAsync` as written: the read of the
      Base64 file is outside the try block, so its exception escapes. In
      every other case it does what the corrected operation does. */
  function Base64ToFileInteractiveAsWritten(fs: FileSystem, codec: Codec, input: seq<Option<string>>, at: nat): (s: Step)
    ensures s.next > at && |s.effects| == 1
    ensures Crashes(s.effects) <==> AcquireBase64(fs, input, at).ReadFailed?
    ensures var src := AcquireBase64(fs, input, at);
      src.ReadFailed? ==> s == Step([Crash(src.message)], src.next)
    ensures !AcquireBase64(fs, input, at).ReadFailed? ==> s == Base64ToFileInteractive(fs, codec, input, at)
  {
    match AcquireBase64(fs, input, at)
    case Base64Text(text, next) =>
      Step([DecodeAndSave(fs, codec, Trim(text), SanitizePath(LineAt(input, next)))], next + 1)
    case Abandoned(fault, next) => Step([Report(fault)], next)
    case ReadFailed(m, next) =>
      var crashed := [Crash(m)];
      assert crashed[0].Crash?;
      Step(crashed, next)
  }

  /** Pasting `SGVs`, `bG8=` and an empty line, then naming the output file,
      decodes `SGVsbG8=` into that file. */
  lemma PasteAndDecode(fs: FileSystem, codec: Codec, a: string, b: string, outPath: string, bytes: seq<byte>)
    requires a == "SGVs" && b == "bG8="
    requires Trimmed(outPath) && !WrappedInQuotes(outPath)
    requires codec.decode(a + b) == Some(bytes) && fs.writeBytes(outPath, bytes).None?
    ensures var input := [Some("1"), Some(a), Some(b), Some(""), Some(outPath)];
      Base64ToFileInteractive(fs, codec, input, 0) == Step([SaveBytes(outPath, bytes)], 5)
  {
    var input := [Some("1"), Some(a), Some(b), Some(""), Some(outPath)];
    var pasted := Drop(input, 1);
    assert pasted[..3] == [Some(a), Some(b), Some("")];
    PasteHelloExample(pasted[..3], a, b);
    PayloadIgnoresLaterLines(pasted[..3], [Some(outPath)]);
    assert pasted[..3][..3] + [Some(outPath)] == pasted;
    assert Trimmed(a + b);
    TrimFixesTrimmed(a + b);
    assert [] + outPath + [] == outPath;
    SanitizeKeepsUnquoted([], outPath, []);
  }

  // ----- the interactive menu -----

  datatype MenuOutcome =
    | Exit                                      // answer 0: the program returns
    | Continue(effects: seq<Effect>, next: nat) // the loop goes round again
    | Terminated(effects: seq<Effect>)          // an exception escaped the loop

  /** One turn of the interactive loop with the corrected decoder, its
      console lines read from `at`: the choice, the operation's own lines,
      then the line that answers "Press Enter to continue". */
  function MenuTurn(fs: FileSystem, codec: Codec, input: seq<Option<string>>, at: nat): (m: MenuOutcome)
    ensures m.Exit? <==> LineAt(input, at) == Some("0")
    ensures !m.Terminated?
    ensures m.Continue? ==> m.next >= at + 2 && !Crashes(m.effects)
    ensures LineAt(input, at) == Some("1") ==>
      var s := FileToBase64Interactive(fs, codec, input, at + 1);
      m == Continue(s.effects, s.next + 1)
    ensures LineAt(input, at) == Some("2") ==>
      var s := Base64ToFileInteractive(fs, codec, input, at + 1);
      m == Continue(s.effects, s.next + 1)
    ensures LineAt(input, at) !in {Some("0"), Some("1"), Some("2")} ==>
      m == Continue([Report(UnknownChoice)], at + 2)
  {
    var choice := LineAt(input, at);
    if choice == Some("1") then
      var s := FileToBase64Interactive(fs, codec, input, at + 1);
      Continue(s.effects, s.next + 1)
    else if choice == Some("2") then
      var s := Base64ToFileInteractive(fs, codec, input, at + 1);
      Continue(s.effects, s.next + 1)
    else if choice == Some("0") then Exit
    else Continue([Report(UnknownChoice)], at + 2)
  }

  /** One turn of the interactive loop as written: nothing around the call
      of the decoder catches the exception of its file read, so the process
      ends there, before "Press Enter to continue" is read. */
  function MenuTurnAsWritten(fs: FileSystem, codec: Codec, input: seq<Option<string>>, at: nat): (m: MenuOutcome)
    ensures m.Terminated? <==>
      LineAt(input, at) == Some("2") && AcquireBase64(fs, input, at + 1).ReadFailed?
    ensures m.Terminated? ==> Crashes(m.effects)
    ensures m.Terminated? ==>
      var src := AcquireBase64(fs, input, at + 1);
      m.effects == Base64ToFileInteractiveAsWritten(fs, codec, input, at + 1).effects == [Crash(src.message)]
    ensures !m.Terminated? ==> m == MenuTurn(fs, codec, input, at)
  {
    var choice := LineAt(input, at);
    if choice == Some("1") then
      var s := FileToBase64Interactive(fs, codec, input, at + 1);
      Continue(s.effects, s.next + 1)
    else if choice == Some("2") then
      var s := Base64ToFileInteractiveAsWritten(fs, codec, input, at + 1);
      if Crashes(s.effects) then Terminated(s.effects) else Continue(s.effects, s.next + 1)
    else if choice == Some("0") then Exit
    else Continue([Report(UnknownChoice)], at + 2)
  }

  /** A Base64 file that exists but cannot be read ends the program in the
      code as written, and is reported in the corrected program, whose menu
      then carries on. */
  lemma UnreadableBase64FileCrashes(fs: FileSystem, codec: Codec, path: string)
    requires Trimmed(path) && !WrappedInQuotes(path)
    requires fs.fileExists(path) && fs.readText(path).Threw?
    ensures var input := [Some("2"), Some(path)];
      && Base64ToFileInteractiveAsWritten(fs, codec, input, 0).effects == [Crash(fs.readText(path).message)]
      && Base64ToFileInteractive(fs, codec, input, 0).effects == [Report(OperationFailed(fs.readText(path).message))]
    ensures var input := [Some("2"), Some("2"), Some(path)];
      && MenuTurnAsWritten(fs, codec, input, 0) == Terminated([Crash(fs.readText(path).message)])
      && MenuTurn(fs, codec, input, 0) == Continue([Report(OperationFailed(fs.readText(path).message))], 4)
  {
    assert [] + path + [] == path;
    SanitizeKeepsUnquoted([], path, []);
  }
}
