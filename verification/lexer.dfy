/**
 * The text-splitting front end of the shell (shell.cpp): trim, the getline
 * splitters for `;` and `|`, the strtok whitespace tokenizer and join.
 */
module Lexer {
  import opened Wrappers
  import opened Strings

  // ---------------------------------------------------------------- trim

  predicate AllSpaces(s: string) {
    forall k :: 0 <= k < |s| ==> s[k] == ' '
  }

  /** r is s with a run of spaces removed from each end, and nothing more. */
  ghost predicate TrimmedFrom(r: string, s: string) {
    (r != [] ==> r[0] != ' ' && Last(r) != ' ')
    && exists i :: 0 <= i <= |s| - |r| && s[i..i + |r|] == r && AllSpaces(s[..i]) && AllSpaces(s[i + |r|..])
  }

  /** find_first_not_of(' ') from position from. */
  function FirstNonSpace(s: string, from: nat): (r: Option<nat>)
    ensures r.Some? ==> from <= r.value < |s| && s[r.value] != ' '
    ensures r.Some? ==> forall k :: from <= k < r.value ==> s[k] == ' '
    ensures r.None? ==> forall k :: from <= k < |s| ==> s[k] == ' '
    decreases |s| - from
  {
    if from >= |s| then None
    else if s[from] != ' ' then Some(from)
    else FirstNonSpace(s, from + 1)
  }

  /** find_last_not_of(' ') among the first n characters. */
  function LastNonSpace(s: string, n: nat): (r: Option<nat>)
    requires n <= |s|
    ensures r.Some? ==> r.value < n && s[r.value] != ' '
    ensures r.Some? ==> forall k :: r.value < k < n ==> s[k] == ' '
    ensures r.None? ==> forall k :: 0 <= k < n ==> s[k] == ' '
  {
    if n == 0 then None
    else if s[n - 1] != ' ' then Some(n - 1)
    else LastNonSpace(s, n - 1)
  }

  /** trim: strips the character ' ' only (tabs stay) from both ends. */
  function Trim(s: string): (r: string)
    ensures r == [] <==> AllSpaces(s)
    ensures TrimmedFrom(r, s)
  {
    match FirstNonSpace(s, 0)
    case None =>
      assert s[0..0] == [] && s[..0] == [] && s[0..] == s;
      ""
    case Some(first) =>
      var last := LastNonSpace(s, |s|);
      assert last.Some? && first <= last.value;
      var r := s[first..last.value + 1];
      assert s[first..first + |r|] == r;
      assert AllSpaces(s[..first]) && AllSpaces(s[first + |r|..]);
      r
  }

  /** A string that neither starts nor ends with a space is left alone by Trim. */
  lemma TrimOfTrimmed(s: string)
    requires s != [] ==> s[0] != ' ' && Last(s) != ' '
    ensures Trim(s) == s
  {
    if s != [] {
      assert FirstNonSpace(s, 0) == Some(0);
      assert LastNonSpace(s, |s|) == Some(|s| - 1);
    }
  }

  lemma TrimIdempotent(s: string)
    ensures Trim(Trim(s)) == Trim(s)
  {
    TrimOfTrimmed(Trim(s));
  }

  /** The bounds of the slice Trim returns. */
  lemma TrimIsSlice(s: string) returns (i: nat, j: nat)
    ensures i <= j <= |s| && Trim(s) == s[i..j]
  {
    match FirstNonSpace(s, 0)
    case None =>
      i, j := 0, 0;
    case Some(first) =>
      var last := LastNonSpace(s, |s|);
      i, j := first, last.value + 1;
  }

  /** Trim returns a substring, so every character of the result occurs in the input. */
  lemma TrimSubstring(s: string, c: char)
    requires c in Trim(s)
    ensures c in s
  {
    var i, j := TrimIsSlice(s);
    var k :| 0 <= k < j - i && s[i..j][k] == c;
    assert s[i + k] == c;
  }

  lemma TrimNoSpace(s: string)
    requires ' ' !in s
    ensures Trim(s) == s
  {
    if s != [] {
      assert s[0] in s;
      assert Last(s) in s;
    }
    TrimOfTrimmed(s);
  }

  // ------------------------------------------------- getline on a delimiter

  /** The position of the first c in s. */
  function IndexOf(s: string, c: char): (r: Option<nat>)
    ensures r.Some? ==> r.value < |s| && s[r.value] == c && c !in s[..r.value]
    ensures r.None? ==> c !in s
  {
    if s == [] then None
    else if s[0] == c then Some(0)
    else match IndexOf(s[1..], c)
      case None => None
      case Some(i) =>
        assert s[..i + 1] == [s[0]] + s[1..][..i];
        Some(i + 1)
  }

  /**
   * The pieces `while (getline(ss, piece, d))` yields: text up to each
   * delimiter, and the text after the last delimiter only when it is not empty.
   */
  function Pieces(s: string, d: char): (r: seq<string>)
    ensures forall k :: 0 <= k < |r| ==> d !in r[k]
    ensures s == [] <==> r == []
    ensures d !in s && s != [] ==> r == [s]
    decreases |s|
  {
    if s == [] then []
    else match IndexOf(s, d)
      case None => [s]
      case Some(i) => [s[..i]] + Pieces(s[i + 1..], d)
  }

  /** Putting the delimiters back between the pieces gives the input back. */
  lemma {:induction false} PiecesInverse(s: string, d: char)
    ensures Intercalate(Pieces(s, d), [d]) + (if s != [] && Last(s) == d then [d] else []) == s
    decreases |s|
  {
    if s != [] {
      var idx := IndexOf(s, d);
      if idx.Some? {
        var i := idx.value;
        var head := s[..i];
        var rest := s[i + 1..];
        assert s == head + [d] + rest;
        assert Pieces(s, d) == [head] + Pieces(rest, d);
        PiecesInverse(rest, d);
        if rest == [] {
          assert Pieces(s, d) == [head];
        } else {
          PiecesInverseStep(head, d, rest);
        }
      }
    }
  }

  lemma PiecesInverseStep(head: string, d: char, rest: string)
    requires rest != []
    requires Intercalate(Pieces(rest, d), [d]) + (if Last(rest) == d then [d] else []) == rest
    ensures Intercalate([head] + Pieces(rest, d), [d]) + (if Last(rest) == d then [d] else []) == head + [d] + rest
  {
    IntercalateCons(head, Pieces(rest, d), [d]);
  }

  /** The first d in s is at i when s[i] is d and no d comes before it. */
  lemma {:induction false} IndexOfAt(s: string, d: char, i: nat)
    requires i < |s| && s[i] == d && d !in s[..i]
    ensures IndexOf(s, d) == Some(i)
    decreases i
  {
    if i > 0 {
      assert s[0] == s[..i][0];
      assert s[1..][..i - 1] == s[..i][1..];
      IndexOfAt(s[1..], d, i - 1);
    }
  }

  /** A delimiter after the last character adds no empty trailing piece. */
  lemma {:induction false} PiecesTrailingDelimiter(s: string, d: char)
    requires s != [] && Last(s) != d
    ensures Pieces(s + [d], d) == Pieces(s, d)
    decreases |s|
  {
    var t := s + [d];
    match IndexOf(s, d)
    case None =>
      assert t[..|s|] == s;
      IndexOfAt(t, d, |s|);
      assert t[..|s|] == s && t[|s| + 1..] == [];
    case Some(i) =>
      assert t[..i] == s[..i];
      IndexOfAt(t, d, i);
      assert i + 1 < |s|;
      assert t[i + 1..] == s[i + 1..] + [d];
      PiecesTrailingDelimiter(s[i + 1..], d);
  }

  /**
   * tokenizeByPipe / tokenizeBySemicolon: the getline pieces, each trimmed,
   * in the order getline reads them.
   */
  function SplitOn(s: string, d: char): (r: seq<string>)
    ensures |r| == |Pieces(s, d)|
    ensures forall k :: 0 <= k < |r| ==> r[k] == Trim(Pieces(s, d)[k])
    ensures forall k :: 0 <= k < |r| ==> d !in r[k] && Trim(r[k]) == r[k]
    ensures s == [] ==> r == []
    ensures s != [] && d !in s ==> r == [Trim(s)]
  {
    var p := Pieces(s, d);
    var r := seq(|p|, k requires 0 <= k < |p| => Trim(p[k]));
    assert forall k :: 0 <= k < |r| ==> d !in r[k] && Trim(r[k]) == r[k] by {
      forall k | 0 <= k < |r|
        ensures d !in r[k] && Trim(r[k]) == r[k]
      {
        TrimIdempotent(p[k]);
        if d in r[k] {
          TrimSubstring(p[k], d);
        }
      }
    }
    r
  }

  /** The trimmed pipe pieces, in order: none holds a `|`, and a text without `|` is one piece. */
  function TokenizeByPipe(s: string): (r: seq<string>)
    ensures |r| == |Pieces(s, '|')|
    ensures forall k :: 0 <= k < |r| ==> r[k] == Trim(Pieces(s, '|')[k])
    ensures forall k :: 0 <= k < |r| ==> '|' !in r[k] && Trim(r[k]) == r[k]
    ensures '|' !in s ==> r == if s == [] then [] else [Trim(s)]
  {
    SplitOn(s, '|')
  }

  /** The trimmed statements, in order: none holds a `;`, and a text without `;` is one statement. */
  function TokenizeBySemicolon(s: string): (r: seq<string>)
    ensures |r| == |Pieces(s, ';')|
    ensures forall k :: 0 <= k < |r| ==> r[k] == Trim(Pieces(s, ';')[k])
    ensures forall k :: 0 <= k < |r| ==> ';' !in r[k] && Trim(r[k]) == r[k]
    ensures ';' !in s ==> r == if s == [] then [] else [Trim(s)]
  {
    SplitOn(s, ';')
  }

  // ------------------------------------------------------ whitespace words

  predicate NoSeparator(w: string, sep: char -> bool) {
    forall k :: 0 <= k < |w| ==> !sep(w[k])
  }

  /**
   * The maximal runs of non-separator characters, left to right: what strtok
   * yields for the delimiter set sep, and what `ss >> word` yields for isspace.
   */
  function Words(s: string, sep: char -> bool): (r: seq<string>)
    ensures forall k :: 0 <= k < |r| ==> r[k] != [] && NoSeparator(r[k], sep)
    ensures s != [] && !sep(Last(s)) ==> r != [] && Last(r) != [] && Last(Last(r)) == Last(s)
    decreases |s|
  {
    if s == [] then []
    else
      var prefix := DropLast(s);
      var c := Last(s);
      var w := Words(prefix, sep);
      if sep(c) then w
      else if prefix != [] && !sep(Last(prefix)) then DropLast(w) + [Last(w) + [c]]
      else w + [[c]]
  }

  /** The characters of s that are not separators, in order. */
  function NonSeparators(s: string, sep: char -> bool): string {
    if s == [] then "" else NonSeparators(DropLast(s), sep) + (if sep(Last(s)) then "" else [Last(s)])
  }

  /** The words hold exactly the non-separator characters, in their original order. */
  lemma {:induction false} WordsCoverText(s: string, sep: char -> bool)
    ensures Concat(Words(s, sep)) == NonSeparators(s, sep)
    decreases |s|
  {
    if s != [] {
      var prefix := DropLast(s);
      WordsCoverText(prefix, sep);
      var w := Words(prefix, sep);
      if !sep(Last(s)) && prefix != [] && !sep(Last(prefix)) {
        var r := DropLast(w) + [Last(w) + [Last(s)]];
        assert DropLast(r) == DropLast(w);
        assert Concat(w) == Concat(DropLast(w)) + Last(w);
      } else if !sep(Last(s)) {
        assert DropLast(w + [[Last(s)]]) == w;
      }
    }
  }

  /** One step of Words: the effect of appending a character x to p. */
  lemma WordsSnoc(p: string, x: char, sep: char -> bool)
    ensures Words(p + [x], sep) ==
      if sep(x) then Words(p, sep)
      else if p != [] && !sep(Last(p)) then DropLast(Words(p, sep)) + [Last(Words(p, sep)) + [x]]
      else Words(p, sep) + [[x]]
  {
    assert DropLast(p + [x]) == p;
  }

  /** A character absent from the text is absent from every word. */
  lemma {:induction false} WordsAvoid(s: string, sep: char -> bool, c: char)
    requires c !in s
    ensures forall i :: 0 <= i < |Words(s, sep)| ==> c !in Words(s, sep)[i]
    decreases |s|
  {
    if s != [] {
      var p := DropLast(s);
      assert c !in p by {
        forall k | 0 <= k < |p| ensures p[k] != c {
          assert p[k] == s[k];
        }
      }
      WordsAvoid(p, sep, c);
      assert s == p + [Last(s)];
      WordsSnoc(p, Last(s), sep);
    }
  }

  /** Extending the last word of a concatenation extends the last word of its second part. */
  lemma ExtendLastOfAppend(wa: seq<string>, wb: seq<string>, x: char)
    requires wb != []
    ensures DropLast(wa + wb) + [Last(wa + wb) + [x]] == wa + (DropLast(wb) + [Last(wb) + [x]])
  {
    assert DropLast(wa + wb) == wa + DropLast(wb);
  }

  /** A separator splits the text into two independent halves. */
  lemma {:induction false} WordsSplitAt(a: string, c: char, b: string, sep: char -> bool)
    requires sep(c)
    ensures Words(a + [c] + b, sep) == Words(a, sep) + Words(b, sep)
    decreases |b|
  {
    if b == [] {
      assert a + [c] + b == a + [c];
      WordsSnoc(a, c, sep);
    } else {
      var b' := DropLast(b);
      var x := Last(b);
      var p := a + [c] + b';
      assert a + [c] + b == p + [x];
      assert b == b' + [x];
      WordsSplitAt(a, c, b', sep);
      WordsSplitAtStep(a, c, b', x, sep);
    }
  }

  /** The induction step of WordsSplitAt: one more character after the separator. */
  lemma WordsSplitAtStep(a: string, c: char, b': string, x: char, sep: char -> bool)
    requires sep(c)
    requires Words(a + [c] + b', sep) == Words(a, sep) + Words(b', sep)
    ensures Words(a + [c] + b' + [x], sep) == Words(a, sep) + Words(b' + [x], sep)
  {
    var p := a + [c] + b';
    WordsSnoc(p, x, sep);
    WordsSnoc(b', x, sep);
    var wa := Words(a, sep);
    var wb := Words(b', sep);
    if !sep(x) {
      if b' != [] && !sep(Last(b')) {
        assert Last(p) == Last(b');
        ExtendLastOfAppend(wa, wb, x);
      } else {
        assert Last(p) == if b' == [] then c else Last(b');
        assert (wa + wb) + [[x]] == wa + (wb + [[x]]);
      }
    }
  }

  /** If s has no words under p, it has none under any coarser separator set q. */
  lemma {:induction false} WordsNone(s: string, p: char -> bool, q: char -> bool)
    requires forall c :: p(c) ==> q(c)
    requires Words(s, p) == []
    ensures Words(s, q) == []
    decreases |s|
  {
    if s != [] {
      assert p(Last(s));
      WordsNone(DropLast(s), p, q);
    }
  }

  /**
   * Re-joining the words of s with single spaces and splitting the result at a
   * coarser separator set (one that contains ' ') gives the words of s itself.
   */
  lemma {:induction false} WordsRefine(s: string, p: char -> bool, q: char -> bool)
    requires forall c :: p(c) ==> q(c)
    requires q(' ')
    ensures Words(Intercalate(Words(s, p), " "), q) == Words(s, q)
    decreases |s|
  {
    if s != [] {
      var s' := DropLast(s);
      var c := Last(s);
      assert s == s' + [c];
      WordsRefine(s', p, q);
      var w' := Words(s', p);
      var j' := Intercalate(w', " ");
      if p(c) {
      } else if s' != [] && !p(Last(s')) {
        IntercalateExtendLast(w', " ", c);
        IntercalateLast(w', " ");
        assert DropLast(j' + [c]) == j';
      } else if w' == [] {
        WordsNone(s', p, q);
        assert Intercalate(w' + [[c]], " ") == [c];
        assert DropLast([c]) == [];
        if s' != [] {
          assert q(Last(s'));
        }
      } else {
        assert DropLast(w' + [[c]]) == w';
        assert Intercalate(w' + [[c]], " ") == j' + [' '] + [c];
        var t := DropLast(s');
        assert p(Last(s'));
        assert s' == t + [Last(s')] + [];
        assert s == t + [Last(s')] + [c];
        WordsSplitAt(j', ' ', [c], q);
        WordsSplitAt(t, Last(s'), [c], q);
        WordsSplitAt(t, Last(s'), [], q);
      }
    }
  }

  /** A single run of non-separators is one word. */
  lemma {:induction false} WordsOfWord(w: string, sep: char -> bool)
    requires w != [] && NoSeparator(w, sep)
    ensures Words(w, sep) == [w]
    decreases |w|
  {
    var w' := DropLast(w);
    assert w == w' + [Last(w)];
    WordsSnoc(w', Last(w), sep);
    if w' != [] {
      WordsOfWord(w', sep);
    }
  }

  /** Splitting space-joined words gives the words back. */
  lemma {:induction false} WordsOfIntercalate(ws: seq<string>, sep: char -> bool)
    requires sep(' ')
    requires forall k :: 0 <= k < |ws| ==> ws[k] != [] && NoSeparator(ws[k], sep)
    ensures Words(Intercalate(ws, " "), sep) == ws
    decreases |ws|
  {
    if |ws| == 1 {
      WordsOfWord(ws[0], sep);
    } else if |ws| > 1 {
      var front := DropLast(ws);
      WordsOfFront(ws, sep);
      WordsOfIntercalate(front, sep);
      assert ws == front + [Last(ws)];
      WordsOfIntercalateStep(front, Last(ws), sep);
    }
  }

  /** Dropping the last of a list of words leaves a list of words. */
  lemma WordsOfFront(ws: seq<string>, sep: char -> bool)
    requires ws != []
    requires forall k :: 0 <= k < |ws| ==> ws[k] != [] && NoSeparator(ws[k], sep)
    ensures forall k :: 0 <= k < |DropLast(ws)| ==> DropLast(ws)[k] != [] && NoSeparator(DropLast(ws)[k], sep)
  {
    forall k | 0 <= k < |DropLast(ws)|
      ensures DropLast(ws)[k] != [] && NoSeparator(DropLast(ws)[k], sep)
    {
      assert DropLast(ws)[k] == ws[k];
    }
  }

  /** The induction step of WordsOfIntercalate: one more word at the end. */
  lemma WordsOfIntercalateStep(front: seq<string>, w: string, sep: char -> bool)
    requires sep(' ') && front != []
    requires w != [] && NoSeparator(w, sep)
    requires Words(Intercalate(front, " "), sep) == front
    ensures Words(Intercalate(front + [w], " "), sep) == front + [w]
  {
    WordsOfWord(w, sep);
    var j := Intercalate(front, " ");
    assert DropLast(front + [w]) == front;
    assert Intercalate(front + [w], " ") == j + [' '] + w;
    WordsSplitAt(j, ' ', w, sep);
  }

  /** The text strcpy copies out of c_str(): everything before the first NUL. */
  function UpToNul(s: string): (r: string)
    ensures '\0' !in r && IsPrefix(r, s)
    ensures |r| < |s| ==> s[|r|] == '\0'
  {
    match IndexOf(s, '\0')
    case None => s
    case Some(i) => s[..i]
  }

  /** A NUL ends the copied text, whatever follows it. */
  lemma UpToNulStops(a: string, b: string)
    ensures UpToNul(a + ['\0'] + b) == UpToNul(a)
  {
    var s := a + ['\0'] + b;
    match IndexOf(a, '\0')
    case None =>
      assert s[..|a|] == a;
      IndexOfAt(s, '\0', |a|);
    case Some(i) =>
      assert s[..i] == a[..i];
      IndexOfAt(s, '\0', i);
  }

  /**
   * tokenize: strtok on " \t" over a C copy of the input, so the tokens are the
   * words of the text before the first NUL and contain no NUL themselves.
   */
  function Tokenize(s: string): (r: seq<string>)
    ensures forall k :: 0 <= k < |r| ==> r[k] != [] && NoSeparator(r[k], IsBlank) && '\0' !in r[k]
    ensures '\0' !in s ==> r == Words(s, IsBlank)
  {
    var t := UpToNul(s);
    WordsAvoid(t, IsBlank, '\0');
    Words(t, IsBlank)
  }

  /** Nothing after a NUL is tokenized: "cd\0x /tmp" is the single word cd. */
  lemma TokenizeStopsAtNul(a: string, b: string)
    ensures Tokenize(a + ['\0'] + b) == Tokenize(a)
    ensures Tokenize("cd\0x /tmp") == ["cd"]
  {
    UpToNulStops(a, b);
    UpToNulStops("cd", "x /tmp");
    assert "cd" + ['\0'] + "x /tmp" == "cd\0x /tmp";
    WordsOfWord("cd", IsBlank);
  }

  // ----------------------------------------------------------------- join

  /**
   * join: the delimiter goes before a token only once the accumulated result is
   * non-empty, so leading empty tokens contribute no delimiter.
   */
  function Join(tokens: seq<string>, delimiter: string): (r: string)
    ensures r == [] <==> forall k :: 0 <= k < |tokens| ==> tokens[k] == []
  {
    if tokens == [] then ""
    else
      var acc := Join(DropLast(tokens), delimiter);
      (if acc == [] then acc else acc + delimiter) + Last(tokens)
  }

  /** Once the first token is non-empty, join is the plain separated concatenation. */
  lemma {:induction false} JoinIsIntercalate(tokens: seq<string>, delimiter: string)
    requires tokens != [] ==> tokens[0] != []
    ensures Join(tokens, delimiter) == Intercalate(tokens, delimiter)
    ensures tokens != [] ==> Join(tokens, delimiter) != []
    decreases |tokens|
  {
    if |tokens| > 1 {
      assert DropLast(tokens)[0] == tokens[0];
      JoinIsIntercalate(DropLast(tokens), delimiter);
    }
  }

  /** The quirk of the emptiness test: a leading empty token vanishes without a delimiter. */
  lemma {:induction false} JoinSkipsLeadingEmpty(tokens: seq<string>, delimiter: string)
    ensures Join([""] + tokens, delimiter) == Join(tokens, delimiter)
    decreases |tokens|
  {
    if tokens == [] {
      assert DropLast([""]) == [];
    } else {
      assert DropLast([""] + tokens) == [""] + DropLast(tokens);
      JoinSkipsLeadingEmpty(DropLast(tokens), delimiter);
    }
  }

  /** Tokenizing the space-joined tokens gives the same tokens (relied on by the pipeline). */
  lemma TokenizeJoinRoundTrip(s: string)
    ensures Tokenize(Join(Tokenize(s), " ")) == Tokenize(s)
  {
    var ts := Tokenize(s);
    JoinIsIntercalate(ts, " ");
    IntercalateAvoid(ts, " ", '\0');
    WordsRefine(UpToNul(s), IsBlank, IsBlank);
  }
}
