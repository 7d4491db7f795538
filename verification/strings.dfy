/** Character classes and the std::string searching primitives the shell relies on. */
module Strings {
  import opened Wrappers

  /** isspace in the "C" locale: space, \t, \n, \v, \f and \r. */
  predicate IsSpace(c: char) {
    c == ' ' || c == '\t' || c == '\n' || c == '\U{B}' || c == '\U{C}' || c == '\r'
  }

  /** The delimiter set " \t" the command tokenizer hands to strtok. */
  predicate IsBlank(c: char) {
    c == ' ' || c == '\t'
  }

  function Last<T>(s: seq<T>): T
    requires s != []
  {
    s[|s| - 1]
  }

  function DropLast<T>(s: seq<T>): seq<T>
    requires s != []
  {
    s[..|s| - 1]
  }

  /** The head and tail of x + r, for a non-empty x. */
  lemma AppendHeadTail<T>(x: seq<T>, r: seq<T>)
    requires x != []
    ensures (x + r)[0] == x[0] && (x + r)[1..] == x[1..] + r
    ensures forall a: seq<T> :: a + [x[0]] + x[1..] == a + x
  {
    forall a: seq<T> ensures a + [x[0]] + x[1..] == a + x {
      assert [x[0]] + x[1..] == x;
    }
  }

  lemma HeadTail<T>(x: seq<T>)
    requires x != []
    ensures [x[0]] + x[1..] == x
  {
  }

  lemma SplitAround<T>(s: seq<T>, i: nat)
    requires i < |s|
    ensures s[..i] + [s[i]] + s[i + 1..] == s
  {
  }

  lemma AppendAssoc<T>(a: seq<T>, b: seq<T>, c: seq<T>)
    ensures a + b + c == a + (b + c)
  {
  }

  predicate IsPrefix(p: string, s: string) {
    |p| <= |s| && s[..|p|] == p
  }

  /** pat occurs in s starting at position i. */
  predicate OccursAt(pat: string, s: string, i: nat) {
    i + |pat| <= |s| && s[i..i + |pat|] == pat
  }

  /** std::string::find(pat, from): the first position at or after from where pat occurs. */
  function FindFrom(s: string, pat: string, from: nat): (r: Option<nat>)
    ensures r.Some? ==> from <= r.value && OccursAt(pat, s, r.value)
    ensures r.Some? ==> forall j: nat :: from <= j < r.value ==> !OccursAt(pat, s, j)
    ensures r.None? ==> forall j: nat :: from <= j ==> !OccursAt(pat, s, j)
    decreases |s| + 1 - from
  {
    if from + |pat| > |s| then None
    else if s[from..from + |pat|] == pat then Some(from)
    else FindFrom(s, pat, from + 1)
  }

  /** std::string::find(pat): None plays the part of npos. */
  function Find(s: string, pat: string): (r: Option<nat>)
    ensures r.Some? ==> OccursAt(pat, s, r.value)
    ensures r.Some? ==> forall j: nat :: j < r.value ==> !OccursAt(pat, s, j)
    ensures r.None? ==> forall j: nat :: !OccursAt(pat, s, j)
  {
    FindFrom(s, pat, 0)
  }

  /** `s.find(pat) != string::npos` */
  function Contains(s: string, pat: string): (r: bool)
    ensures r <==> exists j: nat :: OccursAt(pat, s, j)
  {
    Find(s, pat).Some?
  }

  /** `s.find(p) == 0`: a plain string-prefix test, not a path-component test. */
  function StartsWith(s: string, p: string): (r: bool)
    ensures r <==> IsPrefix(p, s)
  {
    assert IsPrefix(p, s) <==> OccursAt(p, s, 0);
    Find(s, p) == Some(0)
  }

  /** The concatenation of all strings, left to right. */
  function Concat(ss: seq<string>): string {
    if ss == [] then "" else Concat(DropLast(ss)) + Last(ss)
  }

  /** The strings separated by d: the reference form of joining. */
  function Intercalate(ss: seq<string>, d: string): string {
    if ss == [] then ""
    else if |ss| == 1 then ss[0]
    else Intercalate(DropLast(ss), d) + d + Last(ss)
  }

  lemma {:induction false} IntercalateCons(x: string, xs: seq<string>, d: string)
    requires xs != []
    ensures Intercalate([x] + xs, d) == x + d + Intercalate(xs, d)
    decreases |xs|
  {
    if |xs| == 1 {
      assert DropLast([x] + xs) == [x];
    } else {
      assert DropLast([x] + xs) == [x] + DropLast(xs);
      IntercalateCons(x, DropLast(xs), d);
    }
  }

  /** Appending one character to the last string appends it to the joined text. */
  lemma {:induction false} IntercalateExtendLast(ss: seq<string>, d: string, c: char)
    requires ss != []
    ensures Intercalate(DropLast(ss) + [Last(ss) + [c]], d) == Intercalate(ss, d) + [c]
  {
    var t := DropLast(ss) + [Last(ss) + [c]];
    assert DropLast(t) == DropLast(ss);
  }

  /** A character in neither the strings nor the separator is not in the joined text. */
  lemma {:induction false} IntercalateAvoid(ss: seq<string>, d: string, c: char)
    requires c !in d
    requires forall k :: 0 <= k < |ss| ==> c !in ss[k]
    ensures c !in Intercalate(ss, d)
    decreases |ss|
  {
    if |ss| > 1 {
      IntercalateAvoid(DropLast(ss), d, c);
    }
  }

  /** The joined text ends with the last character of the last string, when that is non-empty. */
  lemma {:induction false} IntercalateLast(ss: seq<string>, d: string)
    requires ss != [] && Last(ss) != []
    ensures Intercalate(ss, d) != [] && Last(Intercalate(ss, d)) == Last(Last(ss))
  {
  }

  /** The joined text starts with the first character of the first string, when that is non-empty. */
  lemma {:induction false} IntercalateFirst(ss: seq<string>, d: string)
    requires ss != [] && ss[0] != []
    ensures Intercalate(ss, d) != [] && Intercalate(ss, d)[0] == ss[0][0]
    decreases |ss|
  {
    if |ss| > 1 {
      assert DropLast(ss)[0] == ss[0];
      IntercalateFirst(DropLast(ss), d);
    }
  }
}
