/**
 * The command-line entry of Program.cs: the top-level check for arguments
 * and `HandleCommandLineAsync`, which picks a command from the first
 * argument and, for `--file-to-base64`, scans the options that follow the
 * input path.
 */
module CommandLine {
  import opened Basics

  /** Which usage error was reported. */
  datatype UsageReason =
    | MissingInputPath    // `--file-to-base64` without an input path
    | Base64ToFileUsage   // `--base64-to-file` without both paths
    | UnknownOption       // an unrecognised first argument

  /** What `HandleCommandLineAsync` decides to do. */
  datatype Command =
    | Help
    | FileToBase64(input: string, outFile: Option<string>, printToConsole: bool)
    | Base64ToFile(input: string, output: string)
    | UsageError(reason: UsageReason, withHelp: bool)

  /** How the process continues after looking at its arguments. */
  datatype Mode = Interactive | RunCommand(command: Command)

  predicate IsHelpFlag(arg: string) {
    arg == "--help" || arg == "-h" || arg == "/?"
  }

  /** The two variables the option loop updates. */
  datatype Settings = Settings(outFile: Option<string>, printToConsole: bool)

  const Defaults := Settings(None, true)

  /** The option loop, read front to back: `--out` followed by a value sets
      the output path and skips the value, `--no-print` clears the print
      flag, and every other word (a trailing `--out` included) is passed over. */
  function ApplyOptions(words: seq<string>, s: Settings): (r: Settings)
    ensures r.outFile != s.outFile ==>
      exists k :: 0 <= k < |words| - 1 && words[k] == "--out" && r.outFile == Some(words[k + 1])
    ensures r.printToConsole != s.printToConsole ==> s.printToConsole && "--no-print" in words
  {
    if words == [] then s
    else if words[0] == "--out" && |words| >= 2 then
      ApplyOptions(words[2..], s.(outFile := Some(words[1])))
    else if words[0] == "--no-print" then
      ApplyOptions(words[1..], s.(printToConsole := false))
    else
      ApplyOptions(words[1..], s)
  }

  /** The command that `HandleCommandLineAsync` runs for a non-empty
      argument list. */
  function Dispatch(args: seq<string>): (c: Command)
    requires |args| > 0
    ensures c == Help <==> IsHelpFlag(args[0])
    ensures c.FileToBase64? <==> args[0] == "--file-to-base64" && |args| >= 2
    ensures c.FileToBase64? ==> c.input == args[1]
    ensures c.FileToBase64? ==> Settings(c.outFile, c.printToConsole) == ApplyOptions(args[2..], Defaults)
    ensures c.Base64ToFile? <==> args[0] == "--base64-to-file" && |args| >= 3
    ensures c.Base64ToFile? ==> c == Base64ToFile(args[1], args[2])
    ensures c.UsageError? ==> (c.withHelp <==> args[0] != "--base64-to-file")
    ensures c.UsageError? ==>
      c.reason == (if args[0] == "--file-to-base64" then MissingInputPath
                   else if args[0] == "--base64-to-file" then Base64ToFileUsage
                   else UnknownOption)
  {
    if IsHelpFlag(args[0]) then Help
    else if args[0] == "--file-to-base64" then
      if |args| < 2 then UsageError(MissingInputPath, true)
      else
        var s := ApplyOptions(args[2..], Defaults);
        FileToBase64(args[1], s.outFile, s.printToConsole)
    else if args[0] == "--base64-to-file" then
      if |args| < 3 then UsageError(Base64ToFileUsage, false)
      else Base64ToFile(args[1], args[2])
    else UsageError(UnknownOption, true)
  }

  /** `HandleCommandLineAsync`: every branch reports the arguments as handled. */
  method HandleCommandLine(args: seq<string>) returns (handled: bool, command: Command)
    requires |args| > 0
    ensures handled
    ensures command == Dispatch(args)
  {
    handled := true;
    if IsHelpFlag(args[0]) {
      command := Help;
    } else if args[0] == "--file-to-base64" {
      if |args| < 2 {
        command := UsageError(MissingInputPath, true);
        return;
      }
      var inputFile := args[1];
      var outFile: Option<string> := None;
      var printToConsole := true;
      var i := 2;
      while i < |args|
        invariant 2 <= i <= |args|
        invariant ApplyOptions(args[i..], Settings(outFile, printToConsole)) == ApplyOptions(args[2..], Defaults)
      {
        assert args[i..][0] == args[i];
        if args[i] == "--out" && i + 1 < |args| {
          assert args[i..][1] == args[i + 1] && args[i..][2..] == args[i + 2..];
          outFile := Some(args[i + 1]);
          i := i + 1;
        } else if args[i] == "--no-print" {
          assert args[i..][1..] == args[i + 1..];
          printToConsole := false;
        } else {
          assert args[i..][1..] == args[i + 1..];
        }
        i := i + 1;
      }
      command := FileToBase64(inputFile, outFile, printToConsole);
    } else if args[0] == "--base64-to-file" {
      if |args| < 3 {
        command := UsageError(Base64ToFileUsage, false);
        return;
      }
      command := Base64ToFile(args[1], args[2]);
    } else {
      command := UsageError(UnknownOption, true);
    }
  }

  /** The top of the program: with arguments it handles them and returns,
      otherwise it falls through to the interactive menu. */
  method Start(args: seq<string>) returns (mode: Mode)
    ensures mode.Interactive? <==> args == []
    ensures mode.RunCommand? ==> mode.command == Dispatch(args)
  {
    if |args| > 0 {
      var handled, command := HandleCommandLine(args);
      if handled {
        return RunCommand(command);
      }
    }
    return Interactive;
  }

  // ----- the option words, read as tokens -----

  /** One option as the loop sees it: an `--out` with the value it consumes,
      `--no-print`, an `--out` left without a value at the very end, or a
      word the loop passes over. */
  datatype Token = OutPath(path: string) | NoPrint | DanglingOut | Ignored(word: string)

  function Spelling(t: Token): seq<string> {
    match t
    case OutPath(p) => ["--out", p]
    case NoPrint => ["--no-print"]
    case DanglingOut => ["--out"]
    case Ignored(w) => [w]
  }

  function Unparse(ts: seq<Token>): seq<string> {
    if ts == [] then [] else Spelling(ts[0]) + Unparse(ts[1..])
  }

  /** Token sequences that the option words can produce: an ignored word is
      never a flag, and a dangling `--out` can only come last. */
  predicate WellFormed(ts: seq<Token>) {
    forall k :: 0 <= k < |ts| ==>
      && (ts[k].Ignored? ==> ts[k].word != "--out" && ts[k].word != "--no-print")
      && (ts[k].DanglingOut? ==> k == |ts| - 1)
  }

  /** Splits the option words into tokens; no word is lost or read twice. */
  function Tokenize(words: seq<string>): (ts: seq<Token>)
    ensures WellFormed(ts)
    ensures Unparse(ts) == words
  {
    if words == [] then []
    else if words[0] == "--out" then
      if |words| >= 2 then
        assert words == ["--out", words[1]] + words[2..];
        [OutPath(words[1])] + Tokenize(words[2..])
      else [DanglingOut]
    else if words[0] == "--no-print" then
      assert words == ["--no-print"] + words[1..];
      [NoPrint] + Tokenize(words[1..])
    else
      assert words == [words[0]] + words[1..];
      [Ignored(words[0])] + Tokenize(words[1..])
  }

  /** Reading tokens back from their words gives the same tokens. */
  lemma {:induction false} TokenizeUnparse(ts: seq<Token>)
    requires WellFormed(ts)
    ensures Tokenize(Unparse(ts)) == ts
  {
    if ts != [] {
      var words := Unparse(ts);
      assert words == Spelling(ts[0]) + Unparse(ts[1..]);
      assert WellFormed(ts[1..]) by {
        forall k | 0 <= k < |ts[1..]| ensures ts[1..][k] == ts[k + 1] { }
      }
      match ts[0]
      case OutPath(p) =>
        assert words[2..] == Unparse(ts[1..]);
        TokenizeUnparse(ts[1..]);
      case NoPrint =>
        assert words[1..] == Unparse(ts[1..]);
        TokenizeUnparse(ts[1..]);
      case DanglingOut =>
        assert |ts| == 1;
        assert words == ["--out"];
      case Ignored(w) =>
        assert words[1..] == Unparse(ts[1..]);
        TokenizeUnparse(ts[1..]);
    }
  }

  /** The value of the last `--out` that has one. */
  function LastOutPath(ts: seq<Token>): Option<string> {
    if ts == [] then None
    else if ts[|ts| - 1].OutPath? then Some(ts[|ts| - 1].path)
    else LastOutPath(ts[..|ts| - 1])
  }

  lemma {:induction false} LastOutPathPrepend(t: Token, ts: seq<Token>)
    ensures LastOutPath([t] + ts) ==
      if LastOutPath(ts).Some? then LastOutPath(ts)
      else if t.OutPath? then Some(t.path) else None
    decreases |ts|
  {
    if ts != [] {
      assert ([t] + ts)[..|ts|] == [t] + ts[..|ts| - 1];
      LastOutPathPrepend(t, ts[..|ts| - 1]);
    }
  }

  /** What the option loop computes, stated over the tokens: the last
      `--out` value wins, and printing stays on only if no `--no-print`
      token occurs. Words consumed as `--out` values are never flags. */
  lemma {:induction false} ApplyOptionsMeaning(words: seq<string>, s: Settings)
    ensures var ts := Tokenize(words);
      ApplyOptions(words, s) == Settings(
        if LastOutPath(ts).Some? then LastOutPath(ts) else s.outFile,
        s.printToConsole && NoPrint !in ts)
  {
    if words != [] {
      var ts := Tokenize(words);
      if words[0] == "--out" && |words| >= 2 {
        ApplyOptionsMeaning(words[2..], s.(outFile := Some(words[1])));
        LastOutPathPrepend(OutPath(words[1]), Tokenize(words[2..]));
      } else if words[0] == "--out" {
        assert ts == [DanglingOut];
        assert [DanglingOut][..0] == [];
      } else if words[0] == "--no-print" {
        ApplyOptionsMeaning(words[1..], s.(printToConsole := false));
        LastOutPathPrepend(NoPrint, Tokenize(words[1..]));
      } else {
        ApplyOptionsMeaning(words[1..], s);
        LastOutPathPrepend(Ignored(words[0]), Tokenize(words[1..]));
      }
    }
  }

  /** The words do not end in an `--out` still waiting for its value. */
  predicate Complete(words: seq<string>) {
    DanglingOut !in Tokenize(words)
  }

  /** Options are read left to right: after a complete stretch of words the
      loop simply carries on with what follows. */
  lemma {:induction false} ApplyOptionsAppend(words: seq<string>, more: seq<string>, s: Settings)
    requires Complete(words)
    ensures ApplyOptions(words + more, s) == ApplyOptions(more, ApplyOptions(words, s))
  {
    if words == [] {
      assert words + more == more;
    } else if words[0] == "--out" && |words| >= 2 {
      assert (words + more)[2..] == words[2..] + more;
      ApplyOptionsAppend(words[2..], more, s.(outFile := Some(words[1])));
    } else if words[0] == "--out" {
      assert false;
    } else {
      assert (words + more)[1..] == words[1..] + more;
      ApplyOptionsAppend(words[1..], more, if words[0] == "--no-print" then s.(printToConsole := false) else s);
    }
  }

  /** A `--no-print` read as a flag anywhere turns printing off for good. */
  lemma NoPrintTurnsPrintingOff(before: seq<string>, after: seq<string>, s: Settings)
    requires Complete(before)
    ensures !ApplyOptions(before + ["--no-print"] + after, s).printToConsole
  {
    assert before + ["--no-print"] + after == before + (["--no-print"] + after);
    ApplyOptionsAppend(before, ["--no-print"] + after, s);
    assert (["--no-print"] + after)[1..] == after;
    ApplyOptionsMeaning(after, ApplyOptions(before, s).(printToConsole := false));
  }

  /** Without a `--no-print` word printing stays as it was, and without an
      `--out` word so does the output path. */
  lemma OptionsAbsent(words: seq<string>, s: Settings)
    ensures "--no-print" !in words ==> ApplyOptions(words, s).printToConsole == s.printToConsole
    ensures "--out" !in words ==> ApplyOptions(words, s).outFile == s.outFile
  {
    ApplyOptionsMeaning(words, s);
    var ts := Tokenize(words);
    if NoPrint in ts {
      UnparseSpells(ts, NoPrint);
    }
    if LastOutPath(ts).Some? {
      var t := LastOutPathFound(ts);
      UnparseSpells(ts, t);
    }
  }

  /** Each token's first word occurs among the words. */
  lemma {:induction false} UnparseSpells(ts: seq<Token>, t: Token)
    requires t in ts
    ensures Spelling(t)[0] in Unparse(ts)
  {
    if ts[0] != t {
      UnparseSpells(ts[1..], t);
    }
  }

  lemma {:induction false} LastOutPathFound(ts: seq<Token>) returns (t: Token)
    requires LastOutPath(ts).Some?
    ensures t in ts && t == OutPath(LastOutPath(ts).value)
  {
    if ts[|ts| - 1].OutPath? {
      t := ts[|ts| - 1];
    } else {
      t := LastOutPathFound(ts[..|ts| - 1]);
    }
  }

  /** The last complete `--out` wins: a later `--out` value replaces an
      earlier one, and its value is taken literally even when it looks like
      a flag. */
  lemma LastOutWins(before: seq<string>, value: string, after: seq<string>, s: Settings)
    requires Complete(before) && "--out" !in after
    ensures ApplyOptions(before + ["--out", value] + after, s).outFile == Some(value)
  {
    assert before + ["--out", value] + after == before + (["--out", value] + after);
    ApplyOptionsAppend(before, ["--out", value] + after, s);
    assert (["--out", value] + after)[2..] == after;
    OptionsAbsent(after, ApplyOptions(before, s).(outFile := Some(value)));
  }

  /** A trailing `--out` without a value is ignored. */
  lemma TrailingOutIgnored(words: seq<string>, s: Settings)
    requires Complete(words)
    ensures ApplyOptions(words + ["--out"], s) == ApplyOptions(words, s)
  {
    ApplyOptionsAppend(words, ["--out"], s);
  }

  /** A word that is not a flag is skipped wherever it stands. */
  lemma UnknownWordSkipped(before: seq<string>, word: string, after: seq<string>, s: Settings)
    requires Complete(before) && word != "--out" && word != "--no-print"
    ensures ApplyOptions(before + [word] + after, s) == ApplyOptions(before + after, s)
  {
    assert before + [word] + after == before + ([word] + after);
    ApplyOptionsAppend(before, [word] + after, s);
    ApplyOptionsAppend(before, after, s);
    assert ([word] + after)[1..] == after;
  }

  // ----- a canonical command line for each command -----

  /** The argument list that asks for a command, options in the order the
      help text shows them. */
  function Render(c: Command): seq<string>
    requires !c.UsageError?
  {
    match c
    case Help => ["--help"]
    case FileToBase64(input, outFile, printToConsole) =>
      ["--file-to-base64", input]
      + (if outFile.Some? then ["--out", outFile.value] else [])
      + (if printToConsole then [] else ["--no-print"])
    case Base64ToFile(input, output) => ["--base64-to-file", input, output]
  }

  /** Every command the program can run is reached from its canonical
      argument list, whatever its paths look like. */
  lemma DispatchRender(c: Command)
    requires !c.UsageError?
    ensures Dispatch(Render(c)) == c
  {
    if c.FileToBase64? {
      var args := Render(c);
      var outWords := if c.outFile.Some? then ["--out", c.outFile.value] else [];
      var printWords := if c.printToConsole then [] else ["--no-print"];
      assert args[2..] == outWords + printWords;
      var afterOut := if c.outFile.Some? then Settings(c.outFile, true) else Defaults;
      assert ApplyOptions(outWords + printWords, Defaults) == ApplyOptions(printWords, afterOut) by {
        if c.outFile.Some? {
          assert (outWords + printWords)[2..] == printWords;
        } else {
          assert outWords + printWords == printWords;
        }
      }
      if !c.printToConsole {
        assert printWords[1..] == [];
      }
      assert ApplyOptions(printWords, afterOut) == Settings(c.outFile, c.printToConsole);
      assert args[0] == "--file-to-base64" && args[1] == c.input;
    }
  }
}
