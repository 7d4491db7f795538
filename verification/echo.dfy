/**
 * The echo built-in (echo.cpp): a tokenizer in which `"` toggles a quoted
 * mode, and a printer that drops quote characters. The printer is modelled as
 * the line it writes.
 */
module Echo {
  import opened Strings
  import opened Lexer

  // ----------------------------------------------------------- echotokenize

  datatype ScanState = ScanState(inQuotes: bool, token: string, tokens: seq<string>)

  const Start := ScanState(false, "", [])

  /** One character of the echotokenize loop. */
  function Step(st: ScanState, c: char): (r: ScanState)
    ensures r.inQuotes != st.inQuotes <==> c == '"'
    ensures r.tokens == st.tokens || (st.token != [] && r.tokens == st.tokens + [st.token + " "] && r.token == [])
    ensures r.tokens != st.tokens <==> IsSpace(c) && !st.inQuotes && st.token != []
  {
    if c == '"' then st.(inQuotes := !st.inQuotes, token := st.token + [c])
    else if IsSpace(c) && !st.inQuotes then
      if st.token != [] then st.(token := "", tokens := st.tokens + [st.token + " "]) else st
    else st.(token := st.token + [c])
  }

  /** The loop state after the whole input. */
  function Scan(s: string): (r: ScanState)
    ensures forall i :: 0 <= i < |r.tokens| ==> Closed(r.tokens[i])
  {
    if s == [] then Start else Step(Scan(DropLast(s)), Last(s))
  }

  /** A token closed at unquoted whitespace: non-empty text plus exactly one appended space. */
  predicate Closed(t: string) {
    |t| >= 2 && Last(t) == ' '
  }

  /** echotokenize: the closed tokens, then the pending token if it is non-empty. */
  function EchoTokenize(s: string): (r: seq<string>)
    ensures forall i :: 0 <= i < |r| ==> r[i] != []
    ensures forall i :: 0 <= i < |r| - 1 ==> Closed(r[i])
    ensures Scan(s).token == [] ==> r == Scan(s).tokens
    ensures Scan(s).token != [] ==> r != [] && Last(r) == Scan(s).token
  {
    var st := Scan(s);
    if st.token != [] then st.tokens + [st.token] else st.tokens
  }

  /** The number of `"` characters. */
  function Quotes(s: string): nat {
    if s == [] then 0 else Quotes(DropLast(s)) + (if Last(s) == '"' then 1 else 0)
  }

  /** Quoted mode is on exactly after an odd number of `"`. */
  lemma {:induction false} ScanQuoteParity(s: string)
    ensures Scan(s).inQuotes <==> Quotes(s) % 2 == 1
    decreases |s|
  {
    if s != [] {
      ScanQuoteParity(DropLast(s));
    }
  }

  /** The input with the whitespace outside quotes deleted: the reference for what the tokens hold. */
  function Kept(s: string): string {
    if s == [] then ""
    else Kept(DropLast(s)) + (if IsSpace(Last(s)) && Quotes(DropLast(s)) % 2 == 0 then "" else [Last(s)])
  }

  /** The closed tokens with their appended space removed, concatenated. */
  function Unclosed(ts: seq<string>): string {
    if ts == [] then "" else Unclosed(DropLast(ts)) + (if Last(ts) == [] then [] else DropLast(Last(ts)))
  }

  /**
   * The tokens, with their appended separators removed, followed by the
   * pending token, are the input with unquoted whitespace deleted.
   */
  lemma {:induction false} ScanKeepsText(s: string)
    ensures Unclosed(Scan(s).tokens) + Scan(s).token == Kept(s)
    decreases |s|
  {
    if s != [] {
      var p := DropLast(s);
      ScanKeepsText(p);
      ScanQuoteParity(p);
      assert s == p + [Last(s)];
      ScanKeepsTextStep(Scan(p), p, Last(s));
    }
  }

  /** The induction step of ScanKeepsText: one more character. */
  lemma ScanKeepsTextStep(st: ScanState, p: string, c: char)
    requires Unclosed(st.tokens) + st.token == Kept(p)
    requires st.inQuotes <==> Quotes(p) % 2 == 1
    ensures Unclosed(Step(st, c).tokens) + Step(st, c).token == Kept(p + [c])
  {
    assert DropLast(p + [c]) == p;
    if c != '"' && IsSpace(c) && !st.inQuotes && st.token != [] {
      var ts := st.tokens + [st.token + " "];
      assert DropLast(ts) == st.tokens;
      assert DropLast(st.token + " ") == st.token;
    }
  }

  /** Each word followed by one space. */
  function Spaced(ws: seq<string>): (r: seq<string>)
    ensures |r| == |ws|
  {
    seq(|ws|, i requires 0 <= i < |ws| => ws[i] + " ")
  }

  /**
   * Without `"`, echotokenize closes exactly the whitespace-separated words,
   * each with one space; the last word stays pending unless the input ends
   * in whitespace.
   */
  lemma {:induction false} ScanQuoteFree(s: string)
    requires '"' !in s
    ensures var ws := Words(s, IsSpace);
      var st := Scan(s);
      && !st.inQuotes
      && (s == [] || IsSpace(Last(s)) ==> st.tokens == Spaced(ws) && st.token == [])
      && (s != [] && !IsSpace(Last(s)) ==> ws != [] && st.tokens == Spaced(DropLast(ws)) && st.token == Last(ws))
    decreases |s|
  {
    if s != [] {
      var p := DropLast(s);
      var c := Last(s);
      assert s == p + [c];
      assert '"' !in p by {
        forall k | 0 <= k < |p| ensures p[k] != '"' {
          assert p[k] == s[k];
        }
      }
      ScanQuoteFree(p);
      WordsSnoc(p, c, IsSpace);
      var ws := Words(p, IsSpace);
      var st := Scan(p);
      if IsSpace(c) {
        if p != [] && !IsSpace(Last(p)) {
          assert Spaced(DropLast(ws)) + [Last(ws) + " "] == Spaced(ws);
        }
      } else if p != [] && !IsSpace(Last(p)) {
        assert DropLast(DropLast(ws) + [Last(ws) + [c]]) == DropLast(ws);
      } else {
        assert DropLast(ws + [[c]]) == ws;
      }
    }
  }

  // ----------------------------------------------------------- echoPrinting

  /** Whether the printer keeps t[i]: never a `"`, and a `'` only after a `"` earlier in t. */
  predicate Shown(t: string, i: nat)
    requires i < |t|
  {
    t[i] != '"' && (t[i] == '\'' ==> '"' in t[..i])
  }

  /** The characters of one token that the printer writes. */
  function Clean(t: string): (r: string)
    ensures '"' !in r && |r| <= |t|
  {
    if t == [] then []
    else Clean(DropLast(t)) + (if Shown(t, |t| - 1) then [Last(t)] else [])
  }

  /** What the printer writes of a token: a `'` only where a `"` came before, and a quote-free token unchanged. */
  lemma {:induction false} CleanFacts(t: string)
    ensures '"' !in t && '\'' !in t ==> Clean(t) == t
    ensures '"' !in t ==> '\'' !in Clean(t)
    decreases |t|
  {
    if t != [] {
      var p := DropLast(t);
      assert p == t[..|t| - 1];
      assert forall k :: 0 <= k < |p| ==> p[k] == t[k];
      CleanFacts(p);
      assert t == p + [Last(t)];
    }
  }

  /** One iteration of the printer loop over t[j]. */
  lemma CleanStep(t: string, j: nat)
    requires j < |t|
    ensures Clean(t[..j + 1]) == Clean(t[..j]) + (if t[j] != '"' && (t[j] == '\'' ==> '"' in t[..j]) then [t[j]] else [])
  {
    assert DropLast(t[..j + 1]) == t[..j];
    assert t[..j + 1][..j] == t[..j];
  }

  /** The printer's inner loop, with its doubleQuotes flag, computes Clean. */
  method CleanToken(t: string) returns (str: string)
    ensures str == Clean(t)
  {
    str := "";
    var doubleQuotes := false;
    var j := 0;
    while j < |t|
      invariant 0 <= j <= |t|
      invariant str == Clean(t[..j])
      invariant doubleQuotes <==> '"' in t[..j]
    {
      CleanStep(t, j);
      assert t[..j + 1] == t[..j] + [t[j]];
      if t[j] == '"' {
        doubleQuotes := true;
      } else if !doubleQuotes && t[j] == '\'' {
      } else {
        str := str + [t[j]];
      }
      j := j + 1;
    }
    assert t[..j] == t;
  }

  /** The cleaned tokens, concatenated. */
  function Printed(ts: seq<string>): (r: string)
    ensures '"' !in r
  {
    if ts == [] then ""
    else
      CleanFacts(Last(ts));
      Printed(DropLast(ts)) + Clean(Last(ts))
  }

  /** echoPrinting: every token after the command word, cleaned, then a newline. */
  function EchoLine(input: string): (r: string)
    ensures '"' !in r
    ensures r != [] && Last(r) == '\n'
  {
    var tokens := EchoTokenize(input);
    Printed(if tokens == [] then [] else tokens[1..]) + "\n"
  }

  predicate Plain(ws: seq<string>) {
    forall i :: 0 <= i < |ws| ==> '"' !in ws[i] && '\'' !in ws[i]
  }

  lemma {:induction false} PrintedSpaced(xs: seq<string>)
    requires Plain(xs)
    ensures Printed(Spaced(xs)) == if xs == [] then "" else Intercalate(xs, " ") + " "
    decreases |xs|
  {
    if xs != [] {
      var front := DropLast(xs);
      assert Plain(front) by {
        forall i | 0 <= i < |front| ensures '"' !in front[i] && '\'' !in front[i] {
          assert front[i] == xs[i];
        }
      }
      PrintedSpaced(front);
      assert xs[|xs| - 1] == Last(xs);
      PrintedSpacedStep(xs);
    }
  }

  /** Spacing a list with one more word adds that word, spaced, at the end. */
  lemma SpacedSnoc(xs: seq<string>)
    requires xs != []
    ensures Spaced(xs) == Spaced(DropLast(xs)) + [Last(xs) + " "]
  {
  }

  /** The induction step of PrintedSpaced: one more plain word. */
  lemma PrintedSpacedStep(xs: seq<string>)
    requires xs != [] && '"' !in Last(xs) && '\'' !in Last(xs)
    requires Printed(Spaced(DropLast(xs))) == if DropLast(xs) == [] then "" else Intercalate(DropLast(xs), " ") + " "
    ensures Printed(Spaced(xs)) == Intercalate(xs, " ") + " "
  {
    var front := DropLast(xs);
    var w := Last(xs);
    var spaced := w + " ";
    SpacedSnoc(xs);
    var sp := Spaced(front) + [spaced];
    assert DropLast(sp) == Spaced(front);
    assert '"' !in spaced && '\'' !in spaced;
    CleanFacts(spaced);
    assert Printed(sp) == Printed(Spaced(front)) + spaced;
    if front == [] {
      assert xs == [w];
    } else {
      var j := Intercalate(front, " ");
      assert Intercalate(xs, " ") == j + " " + w;
      SpacedAfter(j, w);
    }
  }

  /** Regrouping a spaced word after spaced text. */
  lemma SpacedAfter(j: string, w: string)
    ensures (j + " ") + (w + " ") == (j + " " + w) + " "
  {
  }

  /** The cleaned spaced words and a final word read as the words joined by single spaces. */
  lemma PrintedWords(xs: seq<string>, y: string)
    requires Plain(xs + [y])
    ensures Printed(Spaced(xs) + [y]) == Intercalate(xs + [y], " ")
  {
    var ts := Spaced(xs) + [y];
    assert DropLast(ts) == Spaced(xs);
    assert Plain(xs) by {
      forall i | 0 <= i < |xs| ensures '"' !in xs[i] && '\'' !in xs[i] {
        assert (xs + [y])[i] == xs[i];
      }
    }
    assert (xs + [y])[|xs|] == y;
    CleanFacts(y);
    PrintedSpaced(xs);
    if xs != [] {
      assert DropLast(xs + [y]) == xs;
    }
  }

  /** The spaced words but the last, after the first, print as the words after the first joined by spaces. */
  lemma PrintedTail(ws: seq<string>)
    requires ws != [] && Plain(ws)
    ensures Printed((Spaced(DropLast(ws)) + [Last(ws)])[1..]) == Intercalate(ws[1..], " ")
  {
    var ts := Spaced(DropLast(ws)) + [Last(ws)];
    if |ws| == 1 {
      assert ts[1..] == [];
      assert ws[1..] == [];
    } else {
      var xs := ws[1..|ws| - 1];
      assert ts[1..] == Spaced(xs) + [Last(ws)];
      assert ws[1..] == xs + [Last(ws)];
      assert Plain(xs + [Last(ws)]) by {
        forall i | 0 <= i < |xs| + 1 ensures '"' !in (xs + [Last(ws)])[i] && '\'' !in (xs + [Last(ws)])[i] {
          assert (xs + [Last(ws)])[i] == ws[i + 1];
        }
      }
      PrintedWords(xs, Last(ws));
    }
  }

  /**
   * For input without quotes of either kind and without trailing whitespace,
   * echo writes the words after the first joined by single spaces.
   */
  lemma EchoPlainWords(s: string)
    requires '"' !in s && '\'' !in s && s != [] && !IsSpace(Last(s))
    ensures var ws := Words(s, IsSpace);
      ws != [] && EchoLine(s) == Intercalate(ws[1..], " ") + "\n"
  {
    var ws := Words(s, IsSpace);
    ScanQuoteFree(s);
    assert EchoTokenize(s) == Spaced(DropLast(ws)) + [Last(ws)];
    WordsAvoid(s, IsSpace, '"');
    WordsAvoid(s, IsSpace, '\'');
    assert Plain(ws);
    PrintedTail(ws);
  }
}
