/** The output-accumulation loop of executeCommand: the text a shell command prints arrives as
    the sequence of chunks that getline() returns, and is folded into one result string. */
module Common {

  /** A chunk as getline() delivers it: at least one character, a newline only as its last
      character, and no NUL (std::string::append of a C string would stop at one). */
  predicate IsGetlineChunk(c: string)
  {
    |c| >= 1 && '\0' !in c && forall i :: 0 <= i < |c| - 1 ==> c[i] != '\n'
  }

  predicate AllGetlineChunks(chunks: seq<string>)
  {
    forall i :: 0 <= i < |chunks| ==> IsGetlineChunk(chunks[i])
  }

  /** One loop iteration: append the chunk, and if the text now ends in a newline, drop it and,
      when linefeedToSpace is set, append a space instead. */
  function Step(acc: string, chunk: string, linefeedToSpace: bool): string
  {
    var a := acc + chunk;
    if |a| > 0 && a[|a| - 1] == '\n' then a[..|a| - 1] + (if linefeedToSpace then " " else "")
    else a
  }

  /** The text after the loop has consumed `chunks`. */
  function Accumulated(chunks: seq<string>, linefeedToSpace: bool): string
  {
    if |chunks| == 0 then ""
    else Step(Accumulated(chunks[..|chunks| - 1], linefeedToSpace), chunks[|chunks| - 1], linefeedToSpace)
  }

  /** The returned text: the accumulated text with one trailing space dropped when
      linefeedToSpace is set. */
  function CommandOutput(chunks: seq<string>, linefeedToSpace: bool): string
  {
    var r := Accumulated(chunks, linefeedToSpace);
    if linefeedToSpace && |r| > 0 && r[|r| - 1] == ' ' then r[..|r| - 1] else r
  }

  /** executeCommand(cmd, linefeedToSpace) after popen() succeeded, with `chunks` the lines the
      command printed. */
  method ExecuteCommand(chunks: seq<string>, linefeedToSpace: bool) returns (retStr: string)
    requires AllGetlineChunks(chunks)
    ensures retStr == CommandOutput(chunks, linefeedToSpace)
  {
    retStr := "";
    var i := 0;
    while i < |chunks|
      invariant 0 <= i <= |chunks|
      invariant retStr == Accumulated(chunks[..i], linefeedToSpace)
    {
      assert chunks[..i + 1][..i] == chunks[..i];
      retStr := retStr + chunks[i];
      if retStr[|retStr| - 1] == '\n' {
        retStr := retStr[..|retStr| - 1];
        if linefeedToSpace {
          retStr := retStr + " ";
        }
      }
      i := i + 1;
    }
    assert chunks[..i] == chunks;
    if linefeedToSpace && |retStr| > 0 && retStr[|retStr| - 1] == ' ' {
      retStr := retStr[..|retStr| - 1];
    }
  }

  /** What one chunk contributes: the chunk with its final newline removed, followed by a
      space in its place when linefeedToSpace is set. */
  function Piece(c: string, linefeedToSpace: bool): string
  {
    if |c| > 0 && c[|c| - 1] == '\n' then c[..|c| - 1] + (if linefeedToSpace then " " else "")
    else c
  }

  function ConcatPieces(chunks: seq<string>, linefeedToSpace: bool): string
  {
    if |chunks| == 0 then "" else ConcatPieces(chunks[..|chunks| - 1], linefeedToSpace) + Piece(chunks[|chunks| - 1], linefeedToSpace)
  }

  /** The accumulated text is the concatenation of the chunks, each with its newline replaced
      by a space (linefeedToSpace) or removed (otherwise). */
  lemma {:induction false} AccumulatedIsConcatenation(chunks: seq<string>, linefeedToSpace: bool)
    requires AllGetlineChunks(chunks)
    ensures Accumulated(chunks, linefeedToSpace) == ConcatPieces(chunks, linefeedToSpace)
    decreases |chunks|
  {
    if |chunks| > 0 {
      var init, c := chunks[..|chunks| - 1], chunks[|chunks| - 1];
      assert AllGetlineChunks(init) by {
        forall i | 0 <= i < |init| ensures IsGetlineChunk(init[i]) {
          assert init[i] == chunks[i];
        }
      }
      AccumulatedIsConcatenation(init, linefeedToSpace);
      StepIsAppend(Accumulated(init, linefeedToSpace), c, linefeedToSpace);
    }
  }

  /** One iteration appends the chunk's piece. */
  lemma {:induction false} StepIsAppend(acc: string, c: string, linefeedToSpace: bool)
    requires |c| >= 1
    ensures Step(acc, c, linefeedToSpace) == acc + Piece(c, linefeedToSpace)
  {
    var a := acc + c;
    assert a[|a| - 1] == c[|c| - 1];
    if c[|c| - 1] == '\n' {
      assert a[..|a| - 1] == acc + c[..|c| - 1];
    }
  }

  /** Without linefeedToSpace the output is the chunks concatenated, each chunk's single
      trailing newline removed. */
  lemma {:induction false} WithoutLinefeedToSpace(chunks: seq<string>)
    requires AllGetlineChunks(chunks)
    ensures CommandOutput(chunks, false) == ConcatPieces(chunks, false)
  {
    AccumulatedIsConcatenation(chunks, false);
  }

  /** With linefeedToSpace the output is the space-joined concatenation with exactly one
      trailing space removed, whether that space stood for the last newline or was printed by
      the command itself. */
  lemma {:induction false} WithLinefeedToSpace(chunks: seq<string>)
    requires AllGetlineChunks(chunks)
    ensures var p := ConcatPieces(chunks, true);
      CommandOutput(chunks, true) == if |p| > 0 && p[|p| - 1] == ' ' then p[..|p| - 1] else p
  {
    AccumulatedIsConcatenation(chunks, true);
  }

  /** A command that prints nothing gives the empty string. */
  lemma {:induction false} NoChunks(linefeedToSpace: bool)
    ensures CommandOutput([], linefeedToSpace) == ""
  {
  }

  /** The concatenated pieces never contain a newline. */
  lemma {:induction false} ConcatPiecesHasNoNewline(chunks: seq<string>, linefeedToSpace: bool)
    requires AllGetlineChunks(chunks)
    ensures '\n' !in ConcatPieces(chunks, linefeedToSpace)
    decreases |chunks|
  {
    if |chunks| > 0 {
      var init, c := chunks[..|chunks| - 1], chunks[|chunks| - 1];
      assert AllGetlineChunks(init) by {
        forall i | 0 <= i < |init| ensures IsGetlineChunk(init[i]) {
          assert init[i] == chunks[i];
        }
      }
      ConcatPiecesHasNoNewline(init, linefeedToSpace);
      var p := Piece(c, linefeedToSpace);
      assert '\n' !in p by {
        if c[|c| - 1] == '\n' {
          var body := c[..|c| - 1];
          assert forall i :: 0 <= i < |body| ==> body[i] == c[i];
        } else {
          assert forall i :: 0 <= i < |c| ==> c[i] != '\n';
        }
      }
    }
  }

  /** The result never contains a newline. */
  lemma {:induction false} OutputHasNoNewline(chunks: seq<string>, linefeedToSpace: bool)
    requires AllGetlineChunks(chunks)
    ensures '\n' !in CommandOutput(chunks, linefeedToSpace)
  {
    AccumulatedIsConcatenation(chunks, linefeedToSpace);
    ConcatPiecesHasNoNewline(chunks, linefeedToSpace);
    var r := Accumulated(chunks, linefeedToSpace);
    if linefeedToSpace && |r| > 0 && r[|r| - 1] == ' ' {
      assert forall i :: 0 <= i < |r| - 1 ==> r[..|r| - 1][i] == r[i];
    }
  }

  /** A space printed by the command itself at the very end is also removed. */
  lemma {:induction false} TrailingSpaceOfOutputRemoved()
    ensures CommandOutput(["a "], true) == "a"
  {
    assert Accumulated(["a "], true) == Step("", "a ", true);
  }
}
