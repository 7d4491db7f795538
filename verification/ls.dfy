/**
 * listing (ls.cpp): which entries are shown, and the permission column of
 * the long format. stat, getpwuid, getgrgid and strftime are not modelled;
 * an entry carries the mode stat reports, or None when stat fails.
 */
module Listing {
  import opened Wrappers

  /** Names starting with `.`; std::string's name[0] of an empty name is '\0', so "" is not hidden. */
  predicate Hidden(name: string) {
    |name| > 0 && name[0] == '.'
  }

  datatype DirEntry = DirEntry(name: string, mode: Option<bv32>)

  /** The entries listed, in directory order. */
  function Visible(entries: seq<DirEntry>, all: bool): (r: seq<DirEntry>)
    ensures |r| <= |entries|
    ensures forall e :: e in r <==> e in entries && (all || !Hidden(e.name))
    ensures all ==> r == entries
  {
    if entries == [] then []
    else
      var rest := Visible(entries[1..], all);
      if all || !Hidden(entries[0].name) then [entries[0]] + rest else rest
  }

  /** Filtering preserves order: the shown entries form a subsequence of the directory. */
  lemma {:induction false} VisibleConcat(a: seq<DirEntry>, b: seq<DirEntry>, all: bool)
    ensures Visible(a + b, all) == Visible(a, all) + Visible(b, all)
    decreases |a|
  {
    if a == [] {
      assert a + b == b;
    } else {
      assert (a + b)[1..] == a[1..] + b;
      assert (a + b)[0] == a[0];
      VisibleConcat(a[1..], b, all);
    }
  }

  // ------------------------------------------------------- permission column

  const S_IFMT: bv32 := 0xF000
  const S_IFDIR: bv32 := 0x4000

  /** S_ISDIR. */
  predicate IsDirectory(mode: bv32) {
    mode & S_IFMT == S_IFDIR
  }

  /** One permission character: the letter when the bit is set. */
  function PermChar(mode: bv32, bit: bv32, letter: char): char {
    if mode & bit != 0 then letter else '-'
  }

  /** The file-type character: `d` for a directory, `-` for anything else. */
  function TypeChar(mode: bv32): (c: char)
    ensures c == 'd' <==> IsDirectory(mode)
    ensures c == 'd' || c == '-'
  {
    if IsDirectory(mode) then 'd' else '-'
  }

  /**
   * The ten characters listing writes before the link count: the file type,
   * then one character per mode bit from S_IRUSR (0400) down to S_IXOTH (01).
   */
  function PermissionString(mode: bv32): (r: string)
    ensures |r| == 10
    ensures r[0] == 'd' <==> IsDirectory(mode)
    ensures r[0] == 'd' || r[0] == '-'
  {
    var r := [TypeChar(mode),
      PermChar(mode, 0x100, 'r'), PermChar(mode, 0x80, 'w'), PermChar(mode, 0x40, 'x'),
      PermChar(mode, 0x20, 'r'), PermChar(mode, 0x10, 'w'), PermChar(mode, 0x8, 'x'),
      PermChar(mode, 0x4, 'r'), PermChar(mode, 0x2, 'w'), PermChar(mode, 0x1, 'x')];
    assert r[0] == TypeChar(mode);
    r
  }

  /** The rwx triple of the three low bits of m. */
  function Triad(m: bv32): string {
    [PermChar(m, 4, 'r'), PermChar(m, 2, 'w'), PermChar(m, 1, 'x')]
  }

  /** The column is the user, group and other triples of the octal mode, in that order. */
  lemma PermissionTriads(mode: bv32)
    ensures PermissionString(mode)[1..4] == Triad(mode >> 6)
    ensures PermissionString(mode)[4..7] == Triad(mode >> 3)
    ensures PermissionString(mode)[7..] == Triad(mode)
  {
    assert (mode >> 6) & 4 != 0 <==> mode & 0x100 != 0;
    assert (mode >> 6) & 2 != 0 <==> mode & 0x80 != 0;
    assert (mode >> 6) & 1 != 0 <==> mode & 0x40 != 0;
    assert (mode >> 3) & 4 != 0 <==> mode & 0x20 != 0;
    assert (mode >> 3) & 2 != 0 <==> mode & 0x10 != 0;
    assert (mode >> 3) & 1 != 0 <==> mode & 0x8 != 0;
  }

  /** Reading the permission bits back from the column. */
  function ModeBits(perm: string): bv32
    requires |perm| == 10
  {
    (if perm[1] != '-' then 0x100 else 0) | (if perm[2] != '-' then 0x80 else 0) | (if perm[3] != '-' then 0x40 else 0)
      | (if perm[4] != '-' then 0x20 else 0) | (if perm[5] != '-' then 0x10 else 0) | (if perm[6] != '-' then 0x8 else 0)
      | (if perm[7] != '-' then 0x4 else 0) | (if perm[8] != '-' then 0x2 else 0) | (if perm[9] != '-' then 0x1 else 0)
  }

  /** The column records the nine permission bits exactly. */
  lemma PermissionRoundTrip(mode: bv32)
    ensures ModeBits(PermissionString(mode)) == mode & 0x1FF
  {
    var r := PermissionString(mode);
    assert ModeBits(r) == (mode & 0x100) | (mode & 0x80) | (mode & 0x40) | (mode & 0x20) | (mode & 0x10)
      | (mode & 0x8) | (mode & 0x4) | (mode & 0x2) | (mode & 0x1);
  }

  /** Two modes print the same column exactly when they agree on the directory test and the nine bits. */
  lemma PermissionStringInjective(m1: bv32, m2: bv32)
    ensures PermissionString(m1) == PermissionString(m2)
      <==> (IsDirectory(m1) == IsDirectory(m2) && m1 & 0x1FF == m2 & 0x1FF)
  {
    PermissionRoundTrip(m1);
    PermissionRoundTrip(m2);
    if IsDirectory(m1) == IsDirectory(m2) && m1 & 0x1FF == m2 & 0x1FF {
      assert m1 & 0x100 == m2 & 0x100 && m1 & 0x80 == m2 & 0x80 && m1 & 0x40 == m2 & 0x40;
      assert m1 & 0x20 == m2 & 0x20 && m1 & 0x10 == m2 & 0x10 && m1 & 0x8 == m2 & 0x8;
      assert m1 & 0x4 == m2 & 0x4 && m1 & 0x2 == m2 & 0x2 && m1 & 0x1 == m2 & 0x1;
    }
  }

  // --------------------------------------------------------------- listing

  /** One output line: the name alone, or the permission column and the name (the rest left out). */
  datatype Line = Short(name: string) | Long(permissions: string, name: string)

  /** The lines written, and listing's return value. */
  datatype ListOutcome = ListOutcome(ok: bool, lines: seq<Line>)

  /** The long line of one entry that stat succeeded on. */
  function LongLine(e: DirEntry): Line
    requires e.mode.Some?
  {
    Long(PermissionString(e.mode.value), e.name)
  }

  function LongLines(entries: seq<DirEntry>): (r: ListOutcome)
    ensures r.ok <==> forall i :: 0 <= i < |entries| ==> entries[i].mode.Some?
    ensures |r.lines| <= |entries|
    ensures r.ok ==> |r.lines| == |entries|
    ensures forall i :: 0 <= i < |r.lines| ==> entries[i].mode.Some? && r.lines[i] == LongLine(entries[i])
    ensures !r.ok ==> entries[|r.lines|].mode.None?
  {
    if entries == [] then ListOutcome(true, [])
    else if entries[0].mode.None? then ListOutcome(false, [])
    else
      var rest := LongLines(entries[1..]);
      ListOutcome(rest.ok, [LongLine(entries[0])] + rest.lines)
  }

  /**
   * listing(dir, all, longformat): None is a directory opendir cannot open.
   * In long format the first stat failure ends the listing with false.
   */
  function List(dir: Option<seq<DirEntry>>, all: bool, long: bool): (r: ListOutcome)
    ensures dir.None? ==> r == ListOutcome(false, [])
    ensures dir.Some? && !long ==>
      r.ok && |r.lines| == |Visible(dir.value, all)|
      && forall i :: 0 <= i < |r.lines| ==> r.lines[i] == Short(Visible(dir.value, all)[i].name)
  {
    match dir
    case None => ListOutcome(false, [])
    case Some(entries) =>
      var shown := Visible(entries, all);
      if long then LongLines(shown)
      else ListOutcome(true, seq(|shown|, i requires 0 <= i < |shown| => Short(shown[i].name)))
  }

  /** Hidden entries never appear without `all`, whatever the format. */
  lemma NoHiddenWithoutAll(dir: seq<DirEntry>, long: bool)
    ensures forall l :: l in List(Some(dir), false, long).lines ==> !Hidden(l.name)
  {
    var shown := Visible(dir, false);
    var r := List(Some(dir), false, long);
    forall l | l in r.lines ensures !Hidden(l.name) {
      var i :| 0 <= i < |r.lines| && r.lines[i] == l;
      assert shown[i] in shown;
    }
  }
}
