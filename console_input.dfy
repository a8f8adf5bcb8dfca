/**
 * Console input as the program consumes it, and `ReadMultiLineBase64`.
 *
 * The console is the sequence of lines `Console.ReadLine` would return,
 * `None` standing for its null result; once the sequence is exhausted every
 * further read gives `None`.
 */
module ConsoleInput {
  import opened Basics
  import opened Text

  /** The result of the read at position `i`. */
  function LineAt(input: seq<Option<string>>, i: nat): Option<string> {
    if i < |input| then input[i] else None
  }

  /** What is left of the input after `n` reads. */
  function Drop(input: seq<Option<string>>, n: nat): (rest: seq<Option<string>>)
    ensures forall i: nat :: LineAt(rest, i) == LineAt(input, n + i)
  {
    if n <= |input| then input[n..] else []
  }

  /** The pasted lines: everything before the first null or empty line.
      A white-space-only line is not a terminator. */
  function Payload(input: seq<Option<string>>): (body: seq<string>)
    ensures |body| <= |input|
    ensures forall k :: 0 <= k < |body| ==> input[k] == Some(body[k]) && body[k] != ""
    ensures |body| < |input| ==> IsNullOrEmpty(input[|body|])
  {
    if input == [] || IsNullOrEmpty(input[0]) then []
    else [input[0].value] + Payload(input[1..])
  }

  /** The pasted lines, each trimmed, joined with no separator. */
  function ConcatTrimmed(lines: seq<string>): string {
    if lines == [] then ""
    else ConcatTrimmed(lines[..|lines| - 1]) + Trim(lines[|lines| - 1])
  }

  /** `ReadMultiLineBase64`: reads lines until a null or empty one, appending
      each trimmed line to a buffer; `linesRead` counts the `ReadLine` calls,
      the terminating one included. */
  method ReadMultiLineBase64(input: seq<Option<string>>) returns (text: string, linesRead: nat)
    ensures text == ConcatTrimmed(Payload(input))
    ensures linesRead == |Payload(input)| + 1
    ensures IsNullOrEmpty(LineAt(input, linesRead - 1))
  {
    var sb := "";
    linesRead := 0;
    while true
      invariant linesRead <= |Payload(input)|
      invariant sb == ConcatTrimmed(Payload(input)[..linesRead])
      decreases |input| - linesRead
    {
      var line := LineAt(input, linesRead);
      linesRead := linesRead + 1;
      if IsNullOrEmpty(line) {
        break;
      }
      assert Payload(input)[..linesRead][..linesRead - 1] == Payload(input)[..linesRead - 1];
      sb := sb + Trim(line.value);
    }
    assert Payload(input)[..linesRead - 1] == Payload(input);
    text := sb;
  }

  lemma {:induction false} ConcatTrimmedAppend(a: seq<string>, b: seq<string>)
    ensures ConcatTrimmed(a + b) == ConcatTrimmed(a) + ConcatTrimmed(b)
    decreases |b|
  {
    if b == [] {
      assert a + b == a;
    } else {
      var b', last := b[..|b| - 1], b[|b| - 1];
      assert (a + b)[..|a + b| - 1] == a + b';
      assert (a + b)[|a + b| - 1] == last;
      ConcatTrimmedAppend(a, b');
      calc {
        ConcatTrimmed(a + b);
        ConcatTrimmed(a + b') + Trim(last);
        (ConcatTrimmed(a) + ConcatTrimmed(b')) + Trim(last);
        ConcatTrimmed(a) + (ConcatTrimmed(b') + Trim(last));
        ConcatTrimmed(a) + ConcatTrimmed(b);
      }
    }
  }

  /** Each line contributes exactly its trimmed self, in order. */
  lemma ConcatTrimmedCons(line: string, rest: seq<string>)
    ensures ConcatTrimmed([line] + rest) == Trim(line) + ConcatTrimmed(rest)
  {
    ConcatTrimmedAppend([line], rest);
    assert [line][..0] == [];
  }

  /** A white-space-only line does not end the paste and adds nothing to it. */
  lemma WhiteSpaceLineAddsNothing(before: seq<string>, line: string, after: seq<string>)
    requires AllWhiteSpace(line)
    ensures ConcatTrimmed(before + [line] + after) == ConcatTrimmed(before + after)
  {
    ConcatTrimmedAppend(before + [line], after);
    ConcatTrimmedAppend(before, [line]);
    ConcatTrimmedAppend(before, after);
    TrimEmptyIffWhiteSpace(line);
    assert [line][..0] == [];
  }

  /** Lines after the terminator are never looked at: replacing them changes
      nothing. */
  lemma {:induction false} PayloadIgnoresLaterLines(input: seq<Option<string>>, later: seq<Option<string>>)
    requires |Payload(input)| < |input|
    ensures Payload(input[..|Payload(input)| + 1] + later) == Payload(input)
  {
    var n := |Payload(input)|;
    var cut := input[..n + 1] + later;
    if n == 0 {
      assert cut[0] == input[0];
    } else {
      assert cut[0] == input[0];
      assert cut[1..] == input[1..][..n] + later;
      PayloadIgnoresLaterLines(input[1..], later);
    }
  }

  /** Pasting `SGVs`, `bG8=` and an empty line yields `SGVsbG8=`. */
  lemma PasteHelloExample(input: seq<Option<string>>, a: string, b: string)
    requires a == "SGVs" && b == "bG8=" && input == [Some(a), Some(b), Some("")]
    ensures Payload(input) == [a, b]
    ensures ConcatTrimmed(Payload(input)) == a + b
  {
    assert input[1..][1..] == [Some("")];
    assert Payload(input[1..][1..]) == [];
    assert Payload(input[1..]) == [b];
    assert Trimmed(a) && Trimmed(b);
    TrimFixesTrimmed(a);
    TrimFixesTrimmed(b);
    ConcatTrimmedCons(a, [b]);
    ConcatTrimmedCons(b, []);
  }
}
