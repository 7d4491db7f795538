/** The command history (history.cpp): a bounded FIFO and its display window. */
module History {
  import opened Strings

  const Capacity: nat := 20

  /** size_t arithmetic wraps modulo 2^64. */
  const SizeModulus: int := 0x1_0000_0000_0000_0000

  /** A vector never holds more than PTRDIFF_MAX elements. */
  const MaxSize: int := 0x7FFF_FFFF_FFFF_FFFF

  predicate IsInt(x: int) {
    -0x8000_0000 <= x < 0x8000_0000
  }

  /** addCommToHistory: a full history loses its oldest entry, then the command is appended. */
  function AddCommand(h: seq<string>, command: string): (r: seq<string>)
    ensures r != [] && Last(r) == command
    ensures |h| < Capacity ==> DropLast(r) == h
    ensures |h| >= Capacity ==> DropLast(r) == h[1..]
    ensures |r| == if |h| >= Capacity then |h| else |h| + 1
    ensures |h| <= Capacity ==> |r| <= Capacity
  {
    var kept := if |h| >= Capacity then h[1..] else h;
    assert DropLast(kept + [command]) == kept;
    kept + [command]
  }

  /** Adding a run of commands one after another, oldest first. */
  function AddAll(h: seq<string>, commands: seq<string>): seq<string> {
    if commands == [] then h else AddCommand(AddAll(h, DropLast(commands)), Last(commands))
  }

  /** Adding x and then xs is adding x followed by xs. */
  lemma {:induction false} AddAllCons(h: seq<string>, x: string, xs: seq<string>)
    ensures AddAll(AddCommand(h, x), xs) == AddAll(h, [x] + xs)
    decreases |xs|
  {
    if xs == [] {
      assert DropLast([x] + xs) == [];
    } else {
      AddAllCons(h, x, DropLast(xs));
      assert DropLast([x] + xs) == [x] + DropLast(xs);
    }
  }

  /** The last min(|s|, n) elements of s, in order. */
  function Newest(s: seq<string>, n: nat): (r: seq<string>)
    ensures |r| == if |s| < n then |s| else n
  {
    if |s| <= n then s else s[|s| - n..]
  }

  /**
   * From a history of at most 20 entries, a run of adds leaves the newest 20
   * of the old entries and the new commands, in order.
   */
  lemma {:induction false} AddAllKeepsNewest(h: seq<string>, commands: seq<string>)
    requires |h| <= Capacity
    ensures AddAll(h, commands) == Newest(h + commands, Capacity)
    decreases |commands|
  {
    if commands != [] {
      var init := DropLast(commands);
      AddAllKeepsNewest(h, init);
      assert h + commands == (h + init) + [Last(commands)];
    }
  }

  /** Starting from an empty history, k adds hold the last min(k, 20) commands. */
  lemma FromEmpty(commands: seq<string>)
    ensures AddAll([], commands) == Newest(commands, Capacity)
  {
    AddAllKeepsNewest([], commands);
    assert [] + commands == commands;
  }

  /**
   * displayHistory: count 0 means 10, and the loop starts at the unsigned
   * index size - count, so the entries shown are those from that index on.
   */
  function Displayed(h: seq<string>, count: int): (r: seq<string>)
    requires IsInt(count) && |h| <= MaxSize
    ensures var c := if count == 0 then 10 else count;
      r == if 0 <= c <= |h| then h[|h| - c..] else []
  {
    var c := if count == 0 then 10 else count;
    var start := (|h| - c) % SizeModulus;
    assert 0 <= c <= |h| ==> start == |h| - c;
    assert c > |h| ==> start == |h| - c + SizeModulus;
    assert c < 0 ==> start == |h| - c;
    if start < |h| then h[start..] else []
  }

  /** A count larger than the history or negative wraps the start index past the end: nothing is shown. */
  lemma OutOfRangeShowsNothing(h: seq<string>, count: int)
    requires IsInt(count) && |h| <= MaxSize
    requires count < 0 || count > |h|
    ensures Displayed(h, count) == []
  {
  }

  /** The command just added is what `history 1` shows. */
  lemma NewestShown(h: seq<string>, command: string)
    requires |h| < MaxSize
    ensures Displayed(AddCommand(h, command), 1) == [command]
  {
  }
}
