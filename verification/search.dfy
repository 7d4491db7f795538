/**
 * search (search.cpp): a depth-first name search below a directory, over a
 * finite directory tree in place of opendir/readdir.
 */
module Search {
  /** What readdir's d_type says about an entry, with the contents of a directory. */
  datatype Kind =
    | Directory(readable: bool, contents: seq<Entry>)   // unreadable: opendir fails on it
    | Symlink(linked: seq<Entry>)               // DT_LNK: what it points to is never read
    | RegularFile
    | Unknown                                   // DT_UNKNOWN and the other types

  datatype Entry = Entry(name: string, kind: Kind)

  predicate IsDotEntry(name: string) {
    name == "." || name == ".."
  }

  /**
   * The reference: some entry at any depth, reached only through opened
   * directories and never through `.`, `..` or a symlink, is named target.
   */
  ghost predicate Below(entries: seq<Entry>, target: string)
    decreases entries
  {
    exists i :: 0 <= i < |entries| && Reaches(entries[i], target)
  }

  ghost predicate Reaches(e: Entry, target: string)
    decreases e
  {
    && !IsDotEntry(e.name)
    && (e.name == target
        || (e.kind.Directory? && e.kind.readable && Below(e.kind.contents, target)))
  }

  /** Below a non-empty list: at the first entry, or below the others. */
  lemma BelowCons(entries: seq<Entry>, target: string)
    requires entries != []
    ensures Below(entries, target) <==> Reaches(entries[0], target) || Below(entries[1..], target)
  {
    if Below(entries[1..], target) {
      var i :| 0 <= i < |entries[1..]| && Reaches(entries[1..][i], target);
      assert Reaches(entries[i + 1], target);
    }
    if Below(entries, target) {
      var i :| 0 <= i < |entries| && Reaches(entries[i], target);
      if i > 0 {
        assert entries[1..][i - 1] == entries[i];
      }
    }
  }

  /**
   * The readdir loop over one opened directory, in directory order: true
   * exactly when the target is below the directory.
   */
  function SearchEntries(entries: seq<Entry>, target: string): (r: bool)
    ensures r <==> Below(entries, target)
    decreases entries, 0
  {
    if entries == [] then false
    else
      var e := entries[0];
      BelowCons(entries, target);
      if IsDotEntry(e.name) then SearchEntries(entries[1..], target)
      else if e.name == target then true
      else if e.kind.Directory? && SearchDir(e.kind.readable, e.kind.contents, target) then true
      else SearchEntries(entries[1..], target)
  }

  /**
   * search(dir, target): an unopenable directory finds nothing. The start
   * directory's own name is not an input, so it is never compared.
   */
  function SearchDir(readable: bool, entries: seq<Entry>, target: string): (r: bool)
    ensures r <==> readable && Below(entries, target)
    decreases entries, 1
  {
    readable && SearchEntries(entries, target)
  }

  /**
   * Siblings are independent: a subtree that finds nothing, unopenable ones
   * included, lets the scan go on with the entries after it.
   */
  lemma {:induction false} SearchConcat(a: seq<Entry>, b: seq<Entry>, target: string)
    ensures SearchEntries(a + b, target) == (SearchEntries(a, target) || SearchEntries(b, target))
    decreases a
  {
    if a == [] {
      assert a + b == b;
    } else {
      assert (a + b)[1..] == a[1..] + b;
      assert (a + b)[0] == a[0];
      SearchConcat(a[1..], b, target);
    }
  }

  /** A symlink is compared by name but never followed. */
  lemma {:induction false} SymlinkNotFollowed(name: string, linked: seq<Entry>, rest: seq<Entry>, target: string)
    ensures SearchEntries([Entry(name, Symlink(linked))] + rest, target)
      == ((!IsDotEntry(name) && name == target) || SearchEntries(rest, target))
  {
    var es := [Entry(name, Symlink(linked))] + rest;
    assert es[1..] == rest;
  }

  /** `.` and `..` are neither compared nor descended into, whatever they contain. */
  lemma {:induction false} DotsSkipped(name: string, kind: Kind, rest: seq<Entry>, target: string)
    requires IsDotEntry(name)
    ensures SearchEntries([Entry(name, kind)] + rest, target) == SearchEntries(rest, target)
  {
    var es := [Entry(name, kind)] + rest;
    assert es[1..] == rest;
  }
}
