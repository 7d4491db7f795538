/**
 * The wiring plan of executePipeline (shell.cpp): which stream each stage of
 * an n-stage pipeline reads and writes. The system calls (pipe, fork, dup2,
 * execvp, close, wait) are not modelled; only the plan they carry out.
 */
module Pipeline {
  import opened Strings
  import opened Lexer
  import opened Redirection

  /** Where a stage's standard input or output is connected. */
  datatype Endpoint =
    | Inherited                                  // the shell's own terminal stream
    | PipeRead(pipe: nat)                        // read end of pipe number `pipe`
    | PipeWrite(pipe: nat)                       // write end of pipe number `pipe`
    | InputFile(path: string)                    // opened O_RDONLY
    | OutputFile(path: string, mode: OutputMode) // opened O_WRONLY | O_CREAT | mode, 0644

  datatype Stage = Stage(argv: seq<string>, stdin: Endpoint, stdout: Endpoint)

  datatype Plan = Plan(pipes: nat, stages: seq<Stage>)

  /** Only the pipes that were created are referenced. */
  predicate Refers(e: Endpoint, pipes: nat) {
    (e.PipeRead? ==> e.pipe < pipes) && (e.PipeWrite? ==> e.pipe < pipes)
  }

  /**
   * In executePipeline's child, a stage's tokens are joined with spaces,
   * trimmed and parsed again for redirections.
   */
  function StageCommand(tokens: seq<string>): (r: Parsed)
    ensures forall k :: 0 <= k < |r.argv| ==> !IsOperator(r.argv[k])
    ensures IsSubsequence(r.argv, StreamWords(Trim(Join(tokens, " "))))
  {
    TokenizeWithRedirection(Trim(Join(tokens, " ")))
  }

  /**
   * Stage i of n: dup2 of the neighbouring pipe ends first, then the stage's
   * own `<` / `>` files, so a file replaces the pipe end.
   */
  function WireStage(i: nat, n: nat, cmd: Parsed): (r: Stage)
    requires i < n
    ensures r.argv == cmd.argv
    ensures Refers(r.stdin, n - 1) && Refers(r.stdout, n - 1)
    ensures r.stdin.PipeRead? ==> r.stdin.pipe + 1 == i
    ensures r.stdout.PipeWrite? ==> r.stdout.pipe == i
    ensures r.stdin.InputFile? <==> cmd.redirect.input != ""
    ensures r.stdout.OutputFile? <==> cmd.redirect.output != ""
  {
    var pipeIn := if i > 0 then PipeRead(i - 1) else Inherited;
    var pipeOut := if i < n - 1 then PipeWrite(i) else Inherited;
    var stdin := if cmd.redirect.input != "" then InputFile(cmd.redirect.input) else pipeIn;
    var stdout := if cmd.redirect.output != "" then OutputFile(cmd.redirect.output, cmd.redirect.mode) else pipeOut;
    Stage(cmd.argv, stdin, stdout)
  }

  /** The wiring of n already parsed stages: n - 1 pipes, one stage per command, left to right. */
  function Wire(cmds: seq<Parsed>): (p: Plan)
    ensures |p.stages| == |cmds|
    ensures |cmds| > 0 ==> p.pipes == |cmds| - 1
    ensures forall i :: 0 <= i < |p.stages| ==> p.stages[i].argv == cmds[i].argv
    ensures forall i :: 0 <= i < |p.stages| ==> Refers(p.stages[i].stdin, p.pipes) && Refers(p.stages[i].stdout, p.pipes)
    ensures forall i :: 0 <= i < |p.stages| && p.stages[i].stdin.PipeRead? ==> p.stages[i].stdin.pipe + 1 == i
    ensures forall i :: 0 <= i < |p.stages| && p.stages[i].stdout.PipeWrite? ==> p.stages[i].stdout.pipe == i
  {
    var n := |cmds|;
    Plan(if n > 0 then n - 1 else 0, seq(n, i requires 0 <= i < n => WireStage(i, n, cmds[i])))
  }

  /** executePipeline: every stage parsed again in its child, then wired. */
  function PlanPipeline(commands: seq<seq<string>>): (p: Plan)
    ensures |p.stages| == |commands|
    ensures forall i :: 0 <= i < |commands| ==> p.stages[i].argv == StageCommand(commands[i]).argv
  {
    Wire(seq(|commands|, i requires 0 <= i < |commands| => StageCommand(commands[i])))
  }

  /** A stage's own file redirection takes the place of the pipe end or terminal it would have used. */
  lemma FileRedirectionWins(commands: seq<seq<string>>, i: nat)
    requires i < |commands|
    ensures var cmd := StageCommand(commands[i]);
      var stage := PlanPipeline(commands).stages[i];
      && (cmd.redirect.input != "" ==> stage.stdin == InputFile(cmd.redirect.input))
      && (cmd.redirect.output != "" ==> stage.stdout == OutputFile(cmd.redirect.output, cmd.redirect.mode))
  {
  }

  /**
   * Without file redirections in the way, stage i writes pipe i and stage
   * i + 1 reads it; the first stage reads and the last stage writes the
   * shell's own streams.
   */
  lemma StagesConnected(commands: seq<seq<string>>)
    requires commands != []
    ensures var p := PlanPipeline(commands);
      var n := |commands|;
      && (StageCommand(commands[0]).redirect.input == "" ==> p.stages[0].stdin == Inherited)
      && (StageCommand(commands[n - 1]).redirect.output == "" ==> p.stages[n - 1].stdout == Inherited)
      && (forall i :: 0 <= i < n - 1 && StageCommand(commands[i]).redirect.output == "" ==> p.stages[i].stdout == PipeWrite(i))
      && (forall i :: 0 < i < n && StageCommand(commands[i]).redirect.input == "" ==> p.stages[i].stdin == PipeRead(i - 1))
  {
    var n := |commands|;
    var cmds := seq(n, i requires 0 <= i < n => StageCommand(commands[i]));
    var p := PlanPipeline(commands);
    assert p == Wire(cmds);
    forall i | 0 <= i < n
      ensures p.stages[i] == WireStage(i, n, StageCommand(commands[i]))
    {
      assert cmds[i] == StageCommand(commands[i]);
    }
  }

  /** Each pipe has at most one writer, stage k, and at most one reader, stage k + 1. */
  lemma OneWriterOneReader(commands: seq<seq<string>>, k: nat, i: nat, j: nat)
    requires i < |commands| && j < |commands|
    ensures var p := PlanPipeline(commands);
      && (p.stages[i].stdout == PipeWrite(k) && p.stages[j].stdout == PipeWrite(k) ==> i == j == k)
      && (p.stages[i].stdin == PipeRead(k) && p.stages[j].stdin == PipeRead(k) ==> i == j == k + 1)
  {
  }

  /**
   * The re-parse in executePipeline's child sees the same words as parsing the
   * pipe piece directly, up to the first NUL, where strtok stops: strtok splits
   * at fewer characters than `ss >>`, and trimming the joined text removes nothing.
   */
  lemma StageParseMatchesPiece(piece: string)
    ensures StageCommand(Tokenize(piece)) == TokenizeWithRedirection(UpToNul(piece))
    ensures '\0' !in piece ==> StageCommand(Tokenize(piece)) == TokenizeWithRedirection(piece)
  {
    var ts := Tokenize(piece);
    JoinIsIntercalate(ts, " ");
    var j := Intercalate(ts, " ");
    if ts != [] {
      IntercalateFirst(ts, " ");
      IntercalateLast(ts, " ");
      assert !IsBlank(ts[0][0]) && !IsBlank(Last(Last(ts)));
    }
    TrimOfTrimmed(j);
    WordsRefine(UpToNul(piece), IsBlank, IsSpace);
  }
}
