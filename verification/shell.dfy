/**
 * The read-eval loop of main (main.cpp) as a plan: each input line is
 * recorded in the history, split into `;` statements, and each statement
 * becomes a pipeline, the exit of the loop, a cd in the shell process, or a
 * command run in forked children. The children's variables never reach the
 * shell, but the directories they create or remove do: the environment says
 * which directories exist once the n-th statement of the session has run.
 */
module MainLoop {
  import opened Wrappers
  import opened Strings
  import opened Lexer
  import Pipeline
  import Dispatch
  import ChangeDir
  import History

  /** The shell process's state across lines. */
  datatype Shell = Shell(
    baseDir: string,             // the working directory at start-up
    fs: ChangeDir.FileSystem,    // the directories that exist, as the last statement left them
    dirs: ChangeDir.CdState,     // the working directory and shell.cpp's previousDir
    history: seq<string>,
    foregroundPid: int,
    ran: nat)                    // the statements run so far in the session

  /**
   * The environment: world(n) is the set of directories once the n-th
   * statement of the session (counting from 0) has finished, whatever its
   * child processes or any other process did to them.
   */
  type World = nat -> ChangeDir.FileSystem

  /** What one statement does. */
  datatype Step =
    | RunPipeline(plan: Pipeline.Plan)
    | ExitShell
    | InParent(action: Dispatch.Action, cd: Option<ChangeDir.CdResult>)  // the statement starts with cd
    | InChild(action: Dispatch.Action)

  /** A statement whose work is done by child processes. */
  predicate RunsChildren(step: Option<Step>) {
    step.Some? && (step.value.RunPipeline? || step.value.InChild?)
  }

  /** How processing goes on after a statement or line: the next one, the loop ends, or undefined behaviour. */
  datatype Outcome = Continue | Stop | Undefined

  datatype StatementResult = StatementResult(shell: Shell, step: Option<Step>, outcome: Outcome)

  datatype LineResult = LineResult(shell: Shell, steps: seq<Step>, outcome: Outcome)

  /** getCurrentDirectory: the working directory, or "" when getcwd fails. */
  function CurrentDirectory(sh: Shell): string {
    if sh.dirs.cwd in sh.fs.dirs then sh.dirs.cwd else ""
  }

  /** The tokens of every pipe piece, in order. */
  function TokenizeEach(pieces: seq<string>): (r: seq<seq<string>>)
    ensures |r| == |pieces|
    ensures forall i :: 0 <= i < |pieces| ==> r[i] == Tokenize(pieces[i])
  {
    if pieces == [] then [] else [Tokenize(pieces[0])] + TokenizeEach(pieces[1..])
  }

  /**
   * One `;` statement. lineDir is the directory read at the start of the
   * line, which executeCommand receives as currentDir. The statement is the
   * session's statement number sh.ran.
   */
  function RunStatement(sh: Shell, command: string, lineDir: string, world: World): (r: StatementResult)
    ensures r.shell.history == sh.history && r.shell.baseDir == sh.baseDir && r.shell.ran == sh.ran + 1
    ensures r.shell.fs == if RunsChildren(r.step) then world(sh.ran) else sh.fs
    ensures r.outcome == Undefined <==> r.step.None?
  {
    var next := sh.(ran := sh.ran + 1);
    var pieces := TokenizeByPipe(command);
    if |pieces| > 1 then
      StatementResult(next.(fs := world(sh.ran)), Some(RunPipeline(Pipeline.PlanPipeline(TokenizeEach(pieces)))), Continue)
    else
      var tokens := Tokenize(command);
      if tokens == [] then StatementResult(next, None, Undefined)
      else if tokens[0] == "exit" then StatementResult(next, Some(ExitShell), Stop)
      else
        var action := Dispatch.Decide(tokens, command, sh.baseDir, lineDir);
        if tokens[0] == "cd" then
          match action
          case Cd(target) =>
            var result := ChangeDir.ChangeDirectory(sh.fs, sh.dirs, target);
            StatementResult(next.(dirs := result.state), Some(InParent(action, Some(result))), Continue)
          case _ => StatementResult(next, Some(InParent(action, None)), Continue)
        else StatementResult(next.(foregroundPid := -1, fs := world(sh.ran)), Some(InChild(action)), Continue)
  }

  /** The statements of one line, left to right, until one stops the loop or is undefined. */
  function RunStatements(sh: Shell, stmts: seq<string>, lineDir: string, world: World): (r: LineResult)
    ensures r.shell.history == sh.history && r.shell.baseDir == sh.baseDir
    ensures |r.steps| <= |stmts|
    ensures r.outcome == Continue ==> |r.steps| == |stmts|
    decreases |stmts|
  {
    if stmts == [] then LineResult(sh, [], Continue)
    else
      var first := RunStatement(sh, stmts[0], lineDir, world);
      var done := if first.step.Some? then [first.step.value] else [];
      if first.outcome != Continue then LineResult(first.shell, done, first.outcome)
      else
        var rest := RunStatements(first.shell, stmts[1..], lineDir, world);
        LineResult(rest.shell, done + rest.steps, rest.outcome)
  }

  /** One input line: recorded in the history first, then its statements. */
  function RunLine(sh: Shell, line: string, world: World): (r: LineResult)
    ensures r.shell.history == History.AddCommand(sh.history, line)
  {
    var lineDir := CurrentDirectory(sh);
    var recorded := sh.(history := History.AddCommand(sh.history, line));
    RunStatements(recorded, TokenizeBySemicolon(line), lineDir, world)
  }

  /** The statement loop for an arbitrary statement semantics f, the same shape as RunStatements. */
  function RunEach(f: (Shell, string) -> StatementResult, sh: Shell, stmts: seq<string>): LineResult
    decreases |stmts|
  {
    if stmts == [] then LineResult(sh, [], Continue)
    else
      var first := f(sh, stmts[0]);
      var done := if first.step.Some? then [first.step.value] else [];
      if first.outcome != Continue then LineResult(first.shell, done, first.outcome)
      else
        var rest := RunEach(f, first.shell, stmts[1..]);
        LineResult(rest.shell, done + rest.steps, rest.outcome)
  }

  /** RunStatements is the loop with RunStatement as its semantics. */
  lemma {:induction false} RunStatementsIsRunEach(sh: Shell, stmts: seq<string>, lineDir: string, world: World)
    ensures RunStatements(sh, stmts, lineDir, world) == RunEach((s, c) => RunStatement(s, c, lineDir, world), sh, stmts)
    decreases |stmts|
  {
    if stmts != [] {
      var first := RunStatement(sh, stmts[0], lineDir, world);
      if first.outcome == Continue {
        RunStatementsIsRunEach(first.shell, stmts[1..], lineDir, world);
      }
    }
  }

  /** The append law for any statement semantics. */
  lemma {:induction false} RunEachAppend(f: (Shell, string) -> StatementResult, sh: Shell, a: seq<string>, b: seq<string>)
    ensures var ra := RunEach(f, sh, a);
      RunEach(f, sh, a + b) ==
        if ra.outcome != Continue then ra
        else
          var rb := RunEach(f, ra.shell, b);
          LineResult(rb.shell, ra.steps + rb.steps, rb.outcome)
    decreases |a|
  {
    if a == [] {
      assert a + b == b;
    } else {
      AppendHeadTail(a, b);
      var first := f(sh, a[0]);
      if first.outcome == Continue {
        RunEachAppend(f, first.shell, a[1..], b);
        var done := if first.step.Some? then [first.step.value] else [];
        var ra := RunEach(f, first.shell, a[1..]);
        if ra.outcome == Continue {
          var rb := RunEach(f, ra.shell, b);
          assert done + (ra.steps + rb.steps) == (done + ra.steps) + rb.steps;
        }
      }
    }
  }

  /** Running a + b is running a, then, if it went on, b from where a left the shell. */
  lemma RunStatementsAppend(sh: Shell, a: seq<string>, b: seq<string>, lineDir: string, world: World)
    ensures var ra := RunStatements(sh, a, lineDir, world);
      RunStatements(sh, a + b, lineDir, world) ==
        if ra.outcome != Continue then ra
        else
          var rb := RunStatements(ra.shell, b, lineDir, world);
          LineResult(rb.shell, ra.steps + rb.steps, rb.outcome)
  {
    var f := (s, c) => RunStatement(s, c, lineDir, world);
    RunStatementsIsRunEach(sh, a, lineDir, world);
    RunStatementsIsRunEach(sh, a + b, lineDir, world);
    RunStatementsIsRunEach(RunStatements(sh, a, lineDir, world).shell, b, lineDir, world);
    RunEachAppend(f, sh, a, b);
  }

  /** A single statement whose first word is exit. */
  predicate IsExit(command: string) {
    |TokenizeByPipe(command)| <= 1 && Tokenize(command) != [] && Tokenize(command)[0] == "exit"
  }

  /** An exit statement ends the line and the loop: nothing after it runs. */
  lemma ExitStopsLine(sh: Shell, before: seq<string>, command: string, after: seq<string>, lineDir: string, world: World)
    requires IsExit(command)
    requires RunStatements(sh, before, lineDir, world).outcome == Continue
    ensures var rb := RunStatements(sh, before, lineDir, world);
      RunStatements(sh, before + [command] + after, lineDir, world)
        == LineResult(rb.shell.(ran := rb.shell.ran + 1), rb.steps + [ExitShell], Stop)
  {
    var rb := RunStatements(sh, before, lineDir, world);
    AppendAssoc(before, [command], after);
    RunStatementsAppend(sh, before, [command] + after, lineDir, world);
    ExitFirst(rb.shell, command, after, lineDir, world);
  }

  /** A line whose first statement is exit stops there. */
  lemma ExitFirst(sh: Shell, command: string, after: seq<string>, lineDir: string, world: World)
    requires IsExit(command)
    ensures RunStatements(sh, [command] + after, lineDir, world) == LineResult(sh.(ran := sh.ran + 1), [ExitShell], Stop)
  {
    assert ([command] + after)[0] == command;
  }

  /**
   * A statement with more than one `|` piece is a pipeline, whatever its
   * words; the shell keeps its state and sees the directories its stages left.
   */
  lemma PipelineBypassesBuiltins(sh: Shell, command: string, lineDir: string, world: World)
    requires |TokenizeByPipe(command)| > 1
    ensures var r := RunStatement(sh, command, lineDir, world);
      && r.shell == sh.(fs := world(sh.ran), ran := sh.ran + 1)
      && r.outcome == Continue && r.step.Some? && r.step.value.RunPipeline?
  {
  }

  /**
   * Only a single statement starting with cd runs in the shell process, and
   * only its cd can move the working directory; every other command runs in
   * a child and leaves the shell as it was, with no foreground process and
   * the directories the child left.
   */
  lemma OnlyCdChangesDirectory(sh: Shell, command: string, lineDir: string, world: World)
    requires |TokenizeByPipe(command)| <= 1
    requires Tokenize(command) != [] && Tokenize(command)[0] != "exit"
    ensures var r := RunStatement(sh, command, lineDir, world);
      var tokens := Tokenize(command);
      && r.outcome == Continue
      && (tokens[0] != "cd" ==>
            r.step.Some? && r.step.value.InChild? && r.shell == sh.(foregroundPid := -1, fs := world(sh.ran), ran := sh.ran + 1))
      && (tokens[0] == "cd" ==>
            r.step.Some? && r.step.value.InParent? && r.shell.foregroundPid == sh.foregroundPid && r.shell.fs == sh.fs)
      && (r.shell.dirs != sh.dirs ==>
            tokens[0] == "cd" && r.step.value.cd.Some? && r.step.value.cd.value.ok && r.shell.dirs == r.step.value.cd.value.state)
  {
  }

  /**
   * The statements after a child-run one start from the directories that
   * child left: a directory it created is there for a later cd on the same line.
   */
  lemma LaterStatementsSeeChildEffects(sh: Shell, command: string, rest: seq<string>, lineDir: string, world: World)
    requires |TokenizeByPipe(command)| <= 1
    requires Tokenize(command) != [] && Tokenize(command)[0] != "exit" && Tokenize(command)[0] != "cd"
    ensures var first := RunStatement(sh, command, lineDir, world);
      var r := RunStatements(sh.(foregroundPid := -1, fs := world(sh.ran), ran := sh.ran + 1), rest, lineDir, world);
      RunStatements(sh, [command] + rest, lineDir, world) == LineResult(r.shell, [first.step.value] + r.steps, r.outcome)
  {
    var s := [command] + rest;
    assert s[0] == command && s[1..] == rest;
    OnlyCdChangesDirectory(sh, command, lineDir, world);
  }

  /** A statement with no words indexes an empty token vector: undefined behaviour, and nothing after it is modelled. */
  lemma EmptyStatementUndefined(sh: Shell, line: string, world: World)
    requires line != [] && AllSpaces(line)
    ensures RunLine(sh, line, world).outcome == Undefined && RunLine(sh, line, world).steps == []
  {
    assert ';' !in line by {
      forall k | 0 <= k < |line| ensures line[k] != ';' {
        assert line[k] == ' ';
      }
    }
    assert TokenizeBySemicolon(line) == [Trim(line)];
    assert Trim(line) == [];
    assert Pieces([], '|') == [];
    assert Words([], IsBlank) == [];
  }

  /** An empty line is recorded and does nothing else. */
  lemma EmptyLine(sh: Shell, world: World)
    ensures RunLine(sh, "", world) == LineResult(sh.(history := History.AddCommand(sh.history, "")), [], Continue)
  {
  }

  /** The line's directory is read once: a later statement still sees the directory the line started in. */
  lemma DirectoryReadOncePerLine(sh: Shell, command: string, after: seq<string>, world: World)
    requires RunStatement(sh, command, CurrentDirectory(sh), world).outcome == Continue
    ensures var first := RunStatement(sh, command, CurrentDirectory(sh), world);
      var all := RunStatements(sh, [command] + after, CurrentDirectory(sh), world);
      all == (var rest := RunStatements(first.shell, after, CurrentDirectory(sh), world);
              LineResult(rest.shell, [first.step.value] + rest.steps, rest.outcome))
  {
    var s := [command] + after;
    assert s[0] == command && s[1..] == after;
  }

  // ------------------------------------------------------------- the session

  /**
   * The lines getline delivers before end of input: every `\n`-terminated
   * line. A final line without `\n` sets eof and main leaves the loop
   * without running it.
   */
  function CompleteLines(text: string): (r: seq<string>)
    ensures forall k :: 0 <= k < |r| ==> '\n' !in r[k]
    ensures text != [] && Last(text) == '\n' ==> Concat(seq(|r|, k requires 0 <= k < |r| => r[k] + "\n")) == text
  {
    if text == [] then []
    else
      var p := Pieces(text, '\n');
      if Last(text) == '\n' then
        PiecesInverse(text, '\n');
        TerminatedLines(p);
        p
      else DropLast(p)
  }

  lemma {:induction false} TerminatedLines(p: seq<string>)
    ensures Concat(seq(|p|, k requires 0 <= k < |p| => p[k] + "\n")) == Intercalate(p, "\n") + (if p == [] then "" else "\n")
    decreases |p|
  {
    if p != [] {
      var q := DropLast(p);
      TerminatedLines(q);
      var t := seq(|p|, k requires 0 <= k < |p| => p[k] + "\n");
      assert DropLast(t) == seq(|q|, k requires 0 <= k < |q| => q[k] + "\n");
    }
  }

  /** The pieces of text followed by an unterminated tail are those of text and the tail. */
  lemma {:induction false} PiecesAppendTail(t: string, x: string, d: char)
    requires t != [] && Last(t) == d
    requires x != [] && d !in x
    ensures Pieces(t + x, d) == Pieces(t, d) + [x]
    decreases |t|
  {
    assert t[|t| - 1] == d;
    var i := IndexOf(t, d).value;
    var s := t + x;
    assert s[..i] == t[..i];
    IndexOfAt(s, d, i);
    var head := t[..i];
    var rest := t[i + 1..];
    assert s[i + 1..] == rest + x;
    assert Pieces(s, d) == [head] + Pieces(rest + x, d);
    assert Pieces(t, d) == [head] + Pieces(rest, d);
    if rest == [] {
      assert rest + x == x;
    } else {
      assert Last(rest) == Last(t);
      PiecesAppendTail(rest, x, d);
      assert [head] + (Pieces(rest, d) + [x]) == ([head] + Pieces(rest, d)) + [x];
    }
  }

  /** Text after the last newline never runs, whatever it says. */
  lemma UnterminatedTailIgnored(text: string, tail: string)
    requires text == [] || Last(text) == '\n'
    requires '\n' !in tail
    ensures CompleteLines(text + tail) == CompleteLines(text)
  {
    if tail != [] {
      if text == [] {
        assert text + tail == tail;
      } else {
        PiecesAppendTail(text, tail, '\n');
        assert Last(text + tail) == Last(tail);
        assert Last(tail) != '\n' by {
          assert Last(tail) == tail[|tail| - 1];
        }
      }
    } else {
      assert text + tail == text;
    }
  }

  /** How a session ends: end of input, an exit statement, or undefined behaviour. */
  datatype SessionEnd = EndOfInput | ExitCommand | UndefinedBehaviour

  datatype SessionResult = SessionResult(shell: Shell, steps: seq<Step>, end: SessionEnd)

  /** The loop of main over the complete lines, until end of input or a line that stops it. */
  function RunLines(sh: Shell, lines: seq<string>, world: World): (r: SessionResult)
    ensures r.shell.baseDir == sh.baseDir
    decreases |lines|
  {
    if lines == [] then SessionResult(sh, [], EndOfInput)
    else
      var r := RunLine(sh, lines[0], world);
      match r.outcome
      case Stop => SessionResult(r.shell, r.steps, ExitCommand)
      case Undefined => SessionResult(r.shell, r.steps, UndefinedBehaviour)
      case Continue =>
        var rest := RunLines(r.shell, lines[1..], world);
        SessionResult(rest.shell, r.steps + rest.steps, rest.end)
  }

  /** The loop over lines for an arbitrary line semantics g, the same shape as RunLines. */
  function RunLinesWith(g: (Shell, string) -> LineResult, sh: Shell, lines: seq<string>): SessionResult
    decreases |lines|
  {
    if lines == [] then SessionResult(sh, [], EndOfInput)
    else
      var r := g(sh, lines[0]);
      match r.outcome
      case Stop => SessionResult(r.shell, r.steps, ExitCommand)
      case Undefined => SessionResult(r.shell, r.steps, UndefinedBehaviour)
      case Continue =>
        var rest := RunLinesWith(g, r.shell, lines[1..]);
        SessionResult(rest.shell, r.steps + rest.steps, rest.end)
  }

  /** RunLines is the loop with RunLine as its line semantics. */
  lemma {:induction false} RunLinesIsWith(sh: Shell, lines: seq<string>, world: World)
    ensures RunLines(sh, lines, world) == RunLinesWith((s, l) => RunLine(s, l, world), sh, lines)
    decreases |lines|
  {
    if lines != [] {
      var r := RunLine(sh, lines[0], world);
      if r.outcome == Continue {
        RunLinesIsWith(r.shell, lines[1..], world);
      }
    }
  }

  /** A line semantics that records each line: the loop over lines records all of them when it reaches the end. */
  lemma {:induction false} RunLinesWithRecordsAll(g: (Shell, string) -> LineResult, sh: Shell, lines: seq<string>)
    requires forall s, l :: g(s, l).shell.history == History.AddCommand(s.history, l)
    ensures var r := RunLinesWith(g, sh, lines);
      r.end == EndOfInput ==> r.shell.history == History.AddAll(sh.history, lines)
    decreases |lines|
  {
    if lines != [] {
      var r := g(sh, lines[0]);
      if r.outcome == Continue {
        RunLinesWithRecordsAll(g, r.shell, lines[1..]);
        History.AddAllCons(sh.history, lines[0], lines[1..]);
        HeadTail(lines);
      }
    }
  }

  /** The loop over a + b is the loop over a, then the loop over b from where a ended, unless a line of a stopped it. */
  lemma {:induction false} RunLinesWithAppend(g: (Shell, string) -> LineResult, sh: Shell, a: seq<string>, b: seq<string>)
    ensures var ra := RunLinesWith(g, sh, a);
      RunLinesWith(g, sh, a + b) ==
        if ra.end != EndOfInput then ra
        else
          var rb := RunLinesWith(g, ra.shell, b);
          SessionResult(rb.shell, ra.steps + rb.steps, rb.end)
    decreases |a|
  {
    if a == [] {
      assert a + b == b;
    } else {
      AppendHeadTail(a, b);
      var r := g(sh, a[0]);
      if r.outcome == Continue {
        RunLinesWithAppend(g, r.shell, a[1..], b);
        var ra := RunLinesWith(g, r.shell, a[1..]);
        if ra.end == EndOfInput {
          AppendAssoc(r.steps, ra.steps, RunLinesWith(g, ra.shell, b).steps);
        }
      }
    }
  }

  /** Reading lines a and then b is running a, then b from the state a left, unless a ended the session. */
  lemma RunLinesAppend(sh: Shell, a: seq<string>, b: seq<string>, world: World)
    ensures var ra := RunLines(sh, a, world);
      RunLines(sh, a + b, world) ==
        if ra.end != EndOfInput then ra
        else
          var rb := RunLines(ra.shell, b, world);
          SessionResult(rb.shell, ra.steps + rb.steps, rb.end)
  {
    var g := (s, l) => RunLine(s, l, world);
    RunLinesIsWith(sh, a, world);
    RunLinesIsWith(sh, a + b, world);
    RunLinesIsWith(RunLines(sh, a, world).shell, b, world);
    RunLinesWithAppend(g, sh, a, b);
  }

  /**
   * A line whose i-th statement is exit, reached by the statements before
   * it, stops with the exit as its last step.
   */
  lemma ExitLineStops(sh: Shell, line: string, i: nat, world: World)
    requires i < |TokenizeBySemicolon(line)| && IsExit(TokenizeBySemicolon(line)[i])
    requires RunStatements(sh.(history := History.AddCommand(sh.history, line)),
      TokenizeBySemicolon(line)[..i], CurrentDirectory(sh), world).outcome == Continue
    ensures var rb := RunStatements(sh.(history := History.AddCommand(sh.history, line)),
        TokenizeBySemicolon(line)[..i], CurrentDirectory(sh), world);
      RunLine(sh, line, world) == LineResult(rb.shell.(ran := rb.shell.ran + 1), rb.steps + [ExitShell], Stop)
  {
    var recorded := sh.(history := History.AddCommand(sh.history, line));
    ExitAt(recorded, TokenizeBySemicolon(line), i, CurrentDirectory(sh), world);
  }

  /** ExitStopsLine with the exit given by its position among the statements. */
  lemma ExitAt(sh: Shell, stmts: seq<string>, i: nat, lineDir: string, world: World)
    requires i < |stmts| && IsExit(stmts[i])
    requires RunStatements(sh, stmts[..i], lineDir, world).outcome == Continue
    ensures var rb := RunStatements(sh, stmts[..i], lineDir, world);
      RunStatements(sh, stmts, lineDir, world) == LineResult(rb.shell.(ran := rb.shell.ran + 1), rb.steps + [ExitShell], Stop)
  {
    SplitAround(stmts, i);
    ExitStopsLine(sh, stmts[..i], stmts[i], stmts[i + 1..], lineDir, world);
  }

  /**
   * A line that stops ends the loop of main as well: the session ends with
   * the exit, and no later line runs or is recorded.
   */
  lemma ExitEndsSession(sh: Shell, before: seq<string>, line: string, after: seq<string>, world: World)
    requires RunLines(sh, before, world).end == EndOfInput
    requires RunLine(RunLines(sh, before, world).shell, line, world).outcome == Stop
    ensures var rb := RunLines(sh, before, world);
      var r := RunLine(rb.shell, line, world);
      RunLines(sh, before + [line] + after, world) == SessionResult(r.shell, rb.steps + r.steps, ExitCommand)
  {
    var rb := RunLines(sh, before, world);
    AppendAssoc(before, [line], after);
    RunLinesAppend(sh, before, [line] + after, world);
    assert ([line] + after)[0] == line;
  }

  /** A session that reaches end of input has recorded every line, in order. */
  lemma RunLinesRecordsAll(sh: Shell, lines: seq<string>, world: World)
    ensures var r := RunLines(sh, lines, world);
      r.end == EndOfInput ==> r.shell.history == History.AddAll(sh.history, lines)
  {
    RunLinesIsWith(sh, lines, world);
    RunLinesWithRecordsAll((s, l) => RunLine(s, l, world), sh, lines);
  }

  /**
   * The whole session over the input text: only complete lines run, and one
   * that reaches end of input leaves all of them in the history.
   */
  function RunSession(sh: Shell, text: string, world: World): (r: SessionResult)
    ensures r.shell.baseDir == sh.baseDir
    ensures r.end == EndOfInput ==> r.shell.history == History.AddAll(sh.history, CompleteLines(text))
  {
    RunLinesRecordsAll(sh, CompleteLines(text), world);
    RunLines(sh, CompleteLines(text), world)
  }
}
