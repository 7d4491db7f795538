/**
 * tokenizeWithRedirection (shell.cpp): the words of a command line, with the
 * operators `<`, `>` and `>>` and the file name after each one taken out.
 */
module Redirection {
  import opened Strings
  import opened Lexer

  /** O_TRUNC or O_APPEND, the mode the output file is opened with. */
  datatype OutputMode = Truncate | Append

  /** An empty file name means "no redirection" for that stream. */
  datatype Redirect = Redirect(input: string, output: string, mode: OutputMode)

  const Defaults := Redirect("", "", Truncate)

  datatype Parsed = Parsed(argv: seq<string>, redirect: Redirect)

  predicate IsOperator(w: string) {
    w == "<" || w == ">" || w == ">>"
  }

  predicate Redirected(r: Redirect) {
    r.input != "" || r.output != ""
  }

  predicate SpaceFree(ws: seq<string>) {
    forall k :: 0 <= k < |ws| ==> ' ' !in ws[k]
  }

  /** a can be obtained from b by deleting elements. */
  predicate IsSubsequence<T(==)>(a: seq<T>, b: seq<T>)
    decreases |b|
  {
    a == [] || (b != [] && ((a[0] == b[0] && IsSubsequence(a[1..], b[1..])) || IsSubsequence(a, b[1..])))
  }

  /**
   * The `while (ss >> token)` loop from the state acc onwards. An operator
   * takes the next word as its file name; when no word follows, `ss >> file`
   * fails and leaves the file name as it was, but `>>` has already chosen append.
   * The ensures below are only bounds; what each word does is stated by
   * ResolveOperatorStep and ResolvePlainStep, and the whole parse by RenderRoundTrip.
   */
  function Resolve(ws: seq<string>, acc: Parsed): (r: Parsed)
    ensures |acc.argv| <= |r.argv| <= |acc.argv| + |ws|
    ensures r.redirect.input == acc.redirect.input || r.redirect.input in ws
    ensures r.redirect.output == acc.redirect.output || r.redirect.output in ws
    decreases |ws|
  {
    if ws == [] then acc
    else if ws[0] == "<" then
      if |ws| >= 2 then Resolve(ws[2..], acc.(redirect := acc.redirect.(input := ws[1]))) else acc
    else if ws[0] == ">" then
      if |ws| >= 2 then Resolve(ws[2..], acc.(redirect := acc.redirect.(output := ws[1]))) else acc
    else if ws[0] == ">>" then
      var appending := acc.redirect.(mode := Append);
      if |ws| >= 2 then Resolve(ws[2..], acc.(redirect := appending.(output := ws[1])))
      else acc.(redirect := appending)
    else
      Resolve(ws[1..], acc.(argv := acc.argv + [Trim(ws[0])]))
  }

  /** The state after an operator word and its file name. */
  function AfterOperator(op: string, file: string, acc: Parsed): Parsed {
    if op == "<" then acc.(redirect := acc.redirect.(input := file))
    else if op == ">" then acc.(redirect := acc.redirect.(output := file))
    else acc.(redirect := acc.redirect.(mode := Append, output := file))
  }

  lemma ResolveOperatorStep(ws: seq<string>, acc: Parsed)
    requires |ws| >= 2 && IsOperator(ws[0])
    ensures Resolve(ws, acc) == Resolve(ws[2..], AfterOperator(ws[0], ws[1], acc))
  {
  }

  lemma InSuffix(ws: seq<string>, n: nat, w: string)
    requires n <= |ws| && w in ws[n..]
    ensures w in ws
  {
    var k :| 0 <= k < |ws[n..]| && ws[n..][k] == w;
    assert ws[k + n] == w;
  }

  /**
   * The arguments: earlier ones stay in front, new ones are words of ws in
   * their order, and none of them is an operator.
   */
  lemma {:induction false} ResolveArguments(ws: seq<string>, acc: Parsed)
    requires SpaceFree(ws)
    ensures var r := Resolve(ws, acc);
      && |acc.argv| <= |r.argv| && r.argv[..|acc.argv|] == acc.argv
      && IsSubsequence(r.argv[|acc.argv|..], ws)
      && (forall k :: |acc.argv| <= k < |r.argv| ==> !IsOperator(r.argv[k]))
    decreases |ws|
  {
    if ws == [] {
    } else if IsOperator(ws[0]) {
      if |ws| >= 2 {
        var acc' := AfterOperator(ws[0], ws[1], acc);
        ResolveOperatorStep(ws, acc);
        SpaceFreeSuffix(ws, 2);
        ResolveArguments(ws[2..], acc');
        var added := Resolve(ws, acc).argv[|acc.argv|..];
        assert ws[1..][1..] == ws[2..];
        SubsequenceSkip(added, ws[1..]);
        SubsequenceSkip(added, ws);
      }
    } else {
      ResolvePlainStep(ws, acc);
      var acc' := acc.(argv := acc.argv + [ws[0]]);
      SpaceFreeSuffix(ws, 1);
      ResolveArguments(ws[1..], acc');
      ArgumentsStep(acc.argv, ws[0], Resolve(ws, acc).argv, ws[1..]);
      assert [ws[0]] + ws[1..] == ws;
    }
  }

  /** The plain-word case of ResolveArguments, for the resulting argument list r. */
  lemma ArgumentsStep(before: seq<string>, w: string, r: seq<string>, rest: seq<string>)
    requires !IsOperator(w)
    requires |before| + 1 <= |r| && r[..|before| + 1] == before + [w]
    requires IsSubsequence(r[|before| + 1..], rest)
    requires forall k :: |before| + 1 <= k < |r| ==> !IsOperator(r[k])
    ensures r[..|before|] == before
    ensures IsSubsequence(r[|before|..], [w] + rest)
    ensures forall k :: |before| <= k < |r| ==> !IsOperator(r[k])
  {
    assert r[..|before| + 1][|before|] == w;
    var added := r[|before|..];
    assert added[1..] == r[|before| + 1..];
    assert ([w] + rest)[1..] == rest;
    SubsequenceTake(added, [w] + rest);
    assert r[..|before|] == r[..|before| + 1][..|before|];
  }

  lemma SpaceFreeSuffix(ws: seq<string>, n: nat)
    requires SpaceFree(ws) && n <= |ws|
    ensures SpaceFree(ws[n..])
  {
    forall k | 0 <= k < |ws[n..]| ensures ' ' !in ws[n..][k] {
      assert ws[n..][k] == ws[k + n];
    }
  }

  lemma SubsequenceSkip<T>(a: seq<T>, b: seq<T>)
    requires b != [] && IsSubsequence(a, b[1..])
    ensures IsSubsequence(a, b)
  {
  }

  lemma SubsequenceTake<T>(a: seq<T>, b: seq<T>)
    requires a != [] && b != [] && a[0] == b[0] && IsSubsequence(a[1..], b[1..])
    ensures IsSubsequence(a, b)
  {
  }

  /** Append mode, once chosen, stays; and it is only chosen by a `>>` word. */
  lemma {:induction false} ResolveMode(ws: seq<string>, acc: Parsed)
    ensures var r := Resolve(ws, acc);
      && (acc.redirect.mode == Append ==> r.redirect.mode == Append)
      && (r.redirect.mode == Append ==> acc.redirect.mode == Append || ">>" in ws)
    decreases |ws|
  {
    if ws == [] {
    } else if IsOperator(ws[0]) {
      if |ws| >= 2 {
        ResolveOperatorStep(ws, acc);
        ResolveMode(ws[2..], AfterOperator(ws[0], ws[1], acc));
        if ">>" in ws[2..] {
          InSuffix(ws, 2, ">>");
        }
      }
    } else {
      ResolveMode(ws[1..], acc.(argv := acc.argv + [Trim(ws[0])]));
      if ">>" in ws[1..] {
        InSuffix(ws, 1, ">>");
      }
    }
  }

  /** Without operator words, the words become the arguments and nothing else changes. */
  lemma {:induction false} ResolvePlain(ws: seq<string>, acc: Parsed)
    requires SpaceFree(ws)
    ensures (forall k :: 0 <= k < |ws| ==> !IsOperator(ws[k])) ==> Resolve(ws, acc) == Parsed(acc.argv + ws, acc.redirect)
    decreases |ws|
  {
    if ws != [] && forall k :: 0 <= k < |ws| ==> !IsOperator(ws[k]) {
      ResolvePlainStep(ws, acc);
      ResolvePlain(ws[1..], acc.(argv := acc.argv + [ws[0]]));
      assert acc.argv + [ws[0]] + ws[1..] == acc.argv + ws;
    }
  }

  /** The words `ss >> word` extracts: runs of non-isspace characters. */
  function StreamWords(s: string): (r: seq<string>)
    ensures SpaceFree(r)
    ensures forall k :: 0 <= k < |r| ==> r[k] != [] && NoSeparator(r[k], IsSpace)
  {
    var r := Words(s, IsSpace);
    assert SpaceFree(r) by {
      forall k | 0 <= k < |r|
        ensures ' ' !in r[k]
      {
        assert NoSeparator(r[k], IsSpace);
      }
    }
    r
  }

  /** tokenizeWithRedirection: no redirection, truncate mode by default. */
  function TokenizeWithRedirection(input: string): (r: Parsed)
    ensures forall k :: 0 <= k < |r.argv| ==> !IsOperator(r.argv[k])
    ensures IsSubsequence(r.argv, StreamWords(input))
    ensures (forall k :: 0 <= k < |StreamWords(input)| ==> !IsOperator(StreamWords(input)[k]))
            ==> r == Parsed(StreamWords(input), Defaults)
    ensures r.redirect.mode == Append ==> ">>" in StreamWords(input)
  {
    var ws := StreamWords(input);
    ResolveArguments(ws, Parsed([], Defaults));
    ResolveMode(ws, Parsed([], Defaults));
    ResolvePlain(ws, Parsed([], Defaults));
    Resolve(StreamWords(input), Parsed([], Defaults))
  }

  /**
   * Whatever the earlier words left in acc, `>` or `>>` followed by a file name
   * and plain words replaces the output file; `>` keeps an earlier append mode.
   */
  lemma OutputOverride(op: string, file: string, ws: seq<string>, acc: Parsed)
    requires op == ">" || op == ">>"
    requires ' ' !in file && SpaceFree(ws)
    requires forall k :: 0 <= k < |ws| ==> !IsOperator(ws[k])
    ensures Resolve([op, file] + ws, acc).redirect
         == Redirect(acc.redirect.input, file, if op == ">>" then Append else acc.redirect.mode)
    ensures Resolve([op, file] + ws, acc).argv == acc.argv + ws
  {
    assert ([op, file] + ws)[2..] == ws;
    ResolvePlain(ws, acc.(redirect := Redirect(acc.redirect.input, file, if op == ">>" then Append else acc.redirect.mode)));
  }

  // ------------------------------------------------------------ round trip

  /** The command line that writes p out: arguments, then `< in`, then `> out` or `>> out`. */
  function Render(p: Parsed): seq<string> {
    p.argv + RenderRedirect(p.redirect)
  }

  /** The redirection words of Render: `< in` when there is an input file, then `> out` or `>> out`. */
  function RenderRedirect(r: Redirect): seq<string> {
    (if r.input != "" then ["<", r.input] else [])
    + (if r.output != "" then [if r.mode == Append then ">>" else ">", r.output] else [])
  }

  predicate IsWord(w: string) {
    w != [] && NoSeparator(w, IsSpace)
  }

  /** What a parse can produce: plain words as arguments, one-word file names. */
  predicate WellFormed(p: Parsed) {
    && (forall k :: 0 <= k < |p.argv| ==> IsWord(p.argv[k]) && !IsOperator(p.argv[k]))
    && (p.redirect.input != "" ==> IsWord(p.redirect.input))
    && (p.redirect.output != "" ==> IsWord(p.redirect.output))
    && (p.redirect.output == "" ==> p.redirect.mode == Truncate)
  }

  /** A plain word goes to the arguments unchanged. */
  lemma ResolvePlainStep(ws: seq<string>, acc: Parsed)
    requires ws != [] && ' ' !in ws[0] && !IsOperator(ws[0])
    ensures Resolve(ws, acc) == Resolve(ws[1..], acc.(argv := acc.argv + [ws[0]]))
  {
    TrimNoSpace(ws[0]);
  }

  lemma {:induction false} ResolvePlainPrefix(argv: seq<string>, rest: seq<string>, acc: Parsed)
    requires SpaceFree(argv) && SpaceFree(rest)
    requires forall k :: 0 <= k < |argv| ==> !IsOperator(argv[k])
    ensures Resolve(argv + rest, acc) == Resolve(rest, acc.(argv := acc.argv + argv))
    decreases |argv|
  {
    if argv == [] {
      assert argv + rest == rest;
      assert acc.argv + argv == acc.argv;
    } else {
      var ws := argv + rest;
      AppendHeadTail(argv, rest);
      PlainTail(argv);
      ResolvePlainStep(ws, acc);
      var acc' := acc.(argv := acc.argv + [argv[0]]);
      ResolvePlainPrefix(argv[1..], rest, acc');
    }
  }

  /** The first of a list of plain words is plain, and so are the others. */
  lemma PlainTail(argv: seq<string>)
    requires argv != [] && SpaceFree(argv)
    requires forall k :: 0 <= k < |argv| ==> !IsOperator(argv[k])
    ensures ' ' !in argv[0] && !IsOperator(argv[0])
    ensures SpaceFree(argv[1..]) && forall k :: 0 <= k < |argv[1..]| ==> !IsOperator(argv[1..][k])
  {
    assert forall k :: 0 <= k < |argv[1..]| ==> argv[1..][k] == argv[k + 1];
  }

  lemma WordSpaceFree(w: string)
    ensures IsWord(w) ==> ' ' !in w
  {
  }

  lemma ResolveRenderRedirect(argv: seq<string>, r: Redirect)
    requires WellFormed(Parsed(argv, r))
    ensures Resolve(RenderRedirect(r), Parsed(argv, Defaults)) == Parsed(argv, r)
  {
    var op := if r.mode == Append then ">>" else ">";
    var out: seq<string> := if r.output != "" then [op, r.output] else [];
    var acc := Parsed(argv, Defaults);
    var afterIn := if r.input != "" then AfterOperator("<", r.input, acc) else acc;
    assert afterIn == Parsed(argv, Redirect(r.input, "", Truncate));
    if r.input != "" {
      var ws := ["<", r.input] + out;
      assert RenderRedirect(r) == ws;
      ResolveOperatorStep(ws, acc);
      assert ws[2..] == out;
    } else {
      assert RenderRedirect(r) == out;
    }
    if r.output != "" {
      ResolveOperatorStep(out, afterIn);
      assert out[2..] == [];
    }
  }

  lemma RenderIsWords(p: Parsed)
    requires WellFormed(p)
    ensures forall k :: 0 <= k < |Render(p)| ==> IsWord(Render(p)[k])
  {
    var ws := Render(p);
    var tail := RenderRedirect(p.redirect);
    forall k | 0 <= k < |ws|
      ensures IsWord(ws[k])
    {
      if k >= |p.argv| {
        assert ws[k] == tail[k - |p.argv|];
      }
    }
  }

  lemma ArgumentsSpaceFree(p: Parsed)
    requires WellFormed(p)
    ensures SpaceFree(p.argv)
  {
    forall k | 0 <= k < |p.argv|
      ensures ' ' !in p.argv[k]
    {
      WordSpaceFree(p.argv[k]);
    }
  }

  /** Resolving the rendered words gives back the arguments and redirections. */
  lemma ResolveRender(p: Parsed)
    requires WellFormed(p)
    ensures Resolve(Render(p), Parsed([], Defaults)) == p
  {
    var tail := RenderRedirect(p.redirect);
    assert SpaceFree(tail) by {
      WordSpaceFree(p.redirect.input);
      WordSpaceFree(p.redirect.output);
    }
    ArgumentsSpaceFree(p);
    ResolvePlainPrefix(p.argv, tail, Parsed([], Defaults));
    assert Parsed([], Defaults).(argv := [] + p.argv) == Parsed(p.argv, Defaults);
    ResolveRenderRedirect(p.argv, p.redirect);
  }

  /** Parsing the rendered command line gives back the arguments and redirections. */
  lemma RenderRoundTrip(p: Parsed)
    requires WellFormed(p)
    ensures TokenizeWithRedirection(Intercalate(Render(p), " ")) == p
  {
    RenderIsWords(p);
    WordsOfIntercalate(Render(p), IsSpace);
    ResolveRender(p);
  }
}
