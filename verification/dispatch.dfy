/**
 * executeCommand (shell.cpp): which built-in, redirected or external command
 * one statement becomes. The effects of each choice (output, fork, exec) are
 * modelled elsewhere or left out; here only the decision is modelled.
 */
module Dispatch {
  import opened Wrappers
  import opened Strings
  import opened Redirection

  datatype Action =
    | NoCommand                                         // empty token list: returns false
    | WithRedirection(argv: seq<string>, redirect: Redirect)
    | Cd(target: string)
    | CdTooManyArgs                                     // "cd: too many arguments", returns false
    | Echo(input: string)                               // echoPrinting of the whole statement text
    | Pwd
    | Ls(all: bool, long: bool, targets: seq<string>)   // a header line per target iff more than one
    | Pinfo(pid: Option<string>)                        // None: the pid of the child running the statement
    | Search(dir: string, target: string)               // dir: where the line started
    | SearchMissingArgument                             // "search: missing argument", returns false
    | History(count: Option<string>)                    // None: displayHistory(history, 0)
    | Exit
    | External(argv: seq<string>, background: bool)

  /** The command words executeCommand recognises itself. */
  predicate IsBuiltin(w: string) {
    w in {"cd", "echo", "pwd", "ls", "pinfo", "search", "history", "exit"}
  }

  /** A lone `~` argument stands for the directory the shell started in. */
  function ExpandHome(p: string, baseDir: string): string {
    if p == "~" then baseDir else p
  }

  /** The ls options: flags that set `all`, flags that set `long`, the rest of the dash words ignored. */
  predicate SetsAll(a: string) { a == "-a" || a == "-la" || a == "-al" }
  predicate SetsLong(a: string) { a == "-l" || a == "-la" || a == "-al" }

  datatype LsArgs = LsArgs(all: bool, long: bool, paths: seq<string>)

  /** ls argument loop: each word is a flag, an ignored dash word, or a path (with `~` expanded). */
  function LsScan(args: seq<string>, baseDir: string): (r: LsArgs)
    requires forall i :: 0 <= i < |args| ==> args[i] != ""
    ensures r.all <==> exists i :: 0 <= i < |args| && SetsAll(args[i])
    ensures r.long <==> exists i :: 0 <= i < |args| && SetsLong(args[i])
    ensures forall p :: p in r.paths <==> exists i :: 0 <= i < |args| && args[i][0] != '-' && p == ExpandHome(args[i], baseDir)
    ensures |r.paths| <= |args|
  {
    if args == [] then LsArgs(false, false, [])
    else
      var r := LsScan(DropLast(args), baseDir);
      var a := Last(args);
      assert forall i :: 0 <= i < |args| - 1 ==> DropLast(args)[i] == args[i];
      if a == "-a" then r.(all := true)
      else if a == "-l" then r.(long := true)
      else if a == "-la" || a == "-al" then r.(all := true, long := true)
      else if a[0] != '-' then r.(paths := r.paths + [ExpandHome(a, baseDir)])
      else r
  }

  /** The scan is a homomorphism: scanning two runs of arguments combines their flags and paths in order. */
  lemma {:induction false} LsScanAppend(a: seq<string>, b: seq<string>, baseDir: string)
    requires forall i :: 0 <= i < |a| ==> a[i] != ""
    requires forall i :: 0 <= i < |b| ==> b[i] != ""
    ensures var ra := LsScan(a, baseDir);
      var rb := LsScan(b, baseDir);
      var r := LsScan(a + b, baseDir);
      r == LsArgs(ra.all || rb.all, ra.long || rb.long, ra.paths + rb.paths)
    decreases |b|
  {
    if b == [] {
      assert a + b == a;
    } else {
      assert DropLast(a + b) == a + DropLast(b);
      assert Last(a + b) == Last(b);
      LsScanAppend(a, DropLast(b), baseDir);
    }
  }

  /**
   * The ls targets: the paths given, or the directory the statement started
   * in. When exactly one path is given it is listed without a header.
   */
  function LsTargets(scan: LsArgs, currentDir: string, baseDir: string): (r: seq<string>)
    ensures |r| >= 1
    ensures |scan.paths| > 1 ==> r == scan.paths
    ensures scan.paths == [] ==> r == [ExpandHome(currentDir, baseDir)]
  {
    if |scan.paths| > 1 then scan.paths
    else
      var path := if scan.paths == [] then currentDir else scan.paths[0];
      [ExpandHome(path, baseDir)]
  }

  /**
   * The paths an ls statement lists are exactly the path arguments, in order,
   * and the starting directory when there are none; the second `~` check of
   * the single-path branch changes nothing.
   */
  lemma LsListsPaths(tokens: seq<string>, input: string, baseDir: string, currentDir: string)
    requires tokens != [] && tokens[0] == "ls"
    requires forall i :: 0 <= i < |tokens| ==> tokens[i] != ""
    requires !Redirected(TokenizeWithRedirection(input).redirect)
    ensures var a := Decide(tokens, input, baseDir, currentDir);
      var scan := LsScan(tokens[1..], baseDir);
      && a == Ls(scan.all, scan.long, a.targets)
      && (scan.paths != [] ==> a.targets == scan.paths)
      && (scan.paths == [] ==> a.targets == [ExpandHome(currentDir, baseDir)])
  {
    var scan := LsScan(tokens[1..], baseDir);
    if |scan.paths| == 1 {
      assert scan.paths[0] in scan.paths;
    }
  }

  /** The statement's tokens are what executeCommand may index without undefined behaviour. */
  predicate Indexable(tokens: seq<string>) {
    tokens != [] && tokens[0] == "ls" ==> forall i :: 0 <= i < |tokens| ==> tokens[i] != ""
  }

  /**
   * executeCommand's decision. `tokens` are the statement's blank-separated
   * words, `input` the statement text that is parsed again for redirections.
   */
  function Decide(tokens: seq<string>, input: string, baseDir: string, currentDir: string): (a: Action)
    requires Indexable(tokens)
    ensures a.NoCommand? <==> tokens == []
    ensures a.WithRedirection? <==> tokens != [] && Redirected(TokenizeWithRedirection(input).redirect)
    ensures a.External? <==> tokens != [] && !Redirected(TokenizeWithRedirection(input).redirect) && !IsBuiltin(tokens[0])
  {
    if tokens == [] then NoCommand
    else
      var parsed := TokenizeWithRedirection(input);
      if Redirected(parsed.redirect) then WithRedirection(parsed.argv, parsed.redirect)
      else if tokens[0] == "cd" then
        if |tokens| == 1 then Cd(baseDir)
        else if |tokens| == 2 then Cd(ExpandHome(tokens[1], baseDir))
        else CdTooManyArgs
      else if tokens[0] == "echo" then Echo(input)
      else if tokens[0] == "pwd" then Pwd
      else if tokens[0] == "ls" then
        var scan := LsScan(tokens[1..], baseDir);
        Ls(scan.all, scan.long, LsTargets(scan, currentDir, baseDir))
      else if tokens[0] == "pinfo" then Pinfo(if |tokens| == 2 then Some(tokens[1]) else None)
      else if tokens[0] == "search" then
        if |tokens| != 2 then SearchMissingArgument else Search(currentDir, tokens[1])
      else if tokens[0] == "history" then History(if |tokens| == 1 then None else Some(tokens[1]))
      else if tokens[0] == "exit" then Exit
      else if Last(tokens) == "&" then External(DropLast(tokens), true)
      else External(tokens, false)
  }

  /** Redirection is checked before any command name: it is chosen exactly when a file was named. */
  lemma RedirectionFirst(tokens: seq<string>, input: string, baseDir: string, currentDir: string)
    requires Indexable(tokens) && tokens != []
    ensures var a := Decide(tokens, input, baseDir, currentDir);
      var parsed := TokenizeWithRedirection(input);
      a.WithRedirection? <==> Redirected(parsed.redirect)
    ensures var a := Decide(tokens, input, baseDir, currentDir);
      a.WithRedirection? ==> a == WithRedirection(TokenizeWithRedirection(input).argv, TokenizeWithRedirection(input).redirect)
  {
  }

  /**
   * Without a redirection, the command word alone picks the branch: a
   * built-in name never runs externally and any other word always does.
   */
  lemma CommandWordDecides(tokens: seq<string>, input: string, baseDir: string, currentDir: string)
    requires Indexable(tokens) && tokens != []
    requires !Redirected(TokenizeWithRedirection(input).redirect)
    ensures var a := Decide(tokens, input, baseDir, currentDir);
      a.External? <==> !IsBuiltin(tokens[0])
    ensures var a := Decide(tokens, input, baseDir, currentDir);
      (a.Cd? || a.CdTooManyArgs?) <==> tokens[0] == "cd"
    ensures var a := Decide(tokens, input, baseDir, currentDir);
      a.Exit? <==> tokens[0] == "exit"
  {
  }

  /**
   * Only an external command loses a trailing `&`, and putting it back gives
   * the original tokens: nothing else is removed or reordered.
   */
  lemma BackgroundMarker(tokens: seq<string>, input: string, baseDir: string, currentDir: string)
    requires Indexable(tokens)
    ensures var a := Decide(tokens, input, baseDir, currentDir);
      a.External? ==> a.argv + (if a.background then ["&"] else []) == tokens
    ensures var a := Decide(tokens, input, baseDir, currentDir);
      a.External? ==> (a.background <==> Last(tokens) == "&")
  {
    var a := Decide(tokens, input, baseDir, currentDir);
    if a.External? && a.background {
      assert DropLast(tokens) + [Last(tokens)] == tokens;
    }
  }

  /**
   * cd resolution: no argument goes to the base directory, one argument is
   * the target (`~` meaning the base directory), more is an error.
   */
  lemma CdTarget(tokens: seq<string>, input: string, baseDir: string, currentDir: string)
    requires tokens != [] && tokens[0] == "cd"
    requires !Redirected(TokenizeWithRedirection(input).redirect)
    ensures var a := Decide(tokens, input, baseDir, currentDir);
      && (|tokens| == 1 ==> a == Cd(baseDir))
      && (|tokens| == 2 && tokens[1] != "~" ==> a == Cd(tokens[1]))
      && (|tokens| == 2 && tokens[1] == "~" ==> a == Cd(baseDir))
      && (|tokens| > 2 <==> a == CdTooManyArgs)
  {
  }
}
