/**
 * The /proc/<pid>/status scanning of getProcStatus and getProcMemory
 * (pinfo.cpp), over the file's lines: None when the file cannot be opened.
 * tcgetpgrp and getpgid become the two process-group parameters.
 */
module ProcInfo {
  import opened Wrappers
  import opened Strings

  /** std::out_of_range from string::substr with a start past the end. */
  datatype Thrown = OutOfRange

  /** string::npos as a size_t. */
  const NotFound: int := 0xFFFF_FFFF_FFFF_FFFF
  const SizeModulus: int := 0x1_0000_0000_0000_0000

  /** A string never holds more than PTRDIFF_MAX characters. */
  const MaxSize: int := 0x7FFF_FFFF_FFFF_FFFF

  /** The index of the first line that contains pat. */
  function FirstLineWith(lines: seq<string>, pat: string): (r: Option<nat>)
    ensures r.Some? ==>
      r.value < |lines| && Contains(lines[r.value], pat) && forall j :: 0 <= j < r.value ==> !Contains(lines[j], pat)
    ensures r.None? ==> forall j :: 0 <= j < |lines| ==> !Contains(lines[j], pat)
    decreases |lines|
  {
    if lines == [] then None
    else if Contains(lines[0], pat) then Some(0)
    else match FirstLineWith(lines[1..], pat)
      case None => None
      case Some(i) => Some(i + 1)
  }

  /** string::substr(pos, count): throws past the end, and clips count to what is left. */
  function Substr(s: string, pos: nat, count: nat): (r: Result<string, Thrown>)
    ensures pos > |s| <==> r.Failure?
    ensures r.Success? ==> |r.value| <= count && pos + |r.value| <= |s| && s[pos..pos + |r.value|] == r.value
    ensures r.Success? ==> (|r.value| == count || pos + |r.value| == |s|)
  {
    if pos > |s| then Failure(OutOfRange)
    else if count <= |s| - pos then Success(s[pos..pos + count])
    else Success(s[pos..])
  }

  /** The file was read, and the first of its lines that contains pat ends before column col. */
  predicate ShortMatch(lines: Option<seq<string>>, pat: string, col: nat) {
    lines.Some? && FirstLineWith(lines.value, pat).Some? && |lines.value[FirstLineWith(lines.value, pat).value]| < col
  }

  /** The state part of getProcStatus: substr(7, 1) of the first line containing "State". */
  function StateChar(lines: Option<seq<string>>): (r: Result<string, Thrown>)
    ensures r.Success? ==> |r.value| <= 1
    ensures r.Failure? <==> ShortMatch(lines, "State", 7)
    ensures lines.None? || FirstLineWith(lines.value, "State").None? ==> r == Success("")
  {
    match lines
    case None => Success("")
    case Some(ls) =>
      match FirstLineWith(ls, "State")
      case None => Success("")
      case Some(i) => Substr(ls[i], 7, 1)
  }

  /** getProcStatus: the state part, then `+` when the process is in the terminal's foreground group. */
  function ProcStatus(lines: Option<seq<string>>, pgid: int, foregroundPgid: int): (r: Result<string, Thrown>)
    ensures r.Failure? <==> StateChar(lines).Failure?
    ensures r.Success? ==> r.value == StateChar(lines).value + (if pgid == foregroundPgid then "+" else "")
  {
    match StateChar(lines)
    case Failure(e) => Failure(e)
    case Success(state) => Success(state + (if pgid == foregroundPgid then "+" else ""))
  }

  /**
   * Only the first line containing "State" matters: its eighth character is
   * the state, an empty state when the line ends right there, and an
   * exception when it is shorter.
   */
  lemma StateFromFirstMatch(ls: seq<string>, i: nat)
    requires i < |ls| && Contains(ls[i], "State")
    requires forall j :: 0 <= j < i ==> !Contains(ls[j], "State")
    ensures |ls[i]| > 7 ==> StateChar(Some(ls)) == Success([ls[i][7]])
    ensures |ls[i]| == 7 ==> StateChar(Some(ls)) == Success("")
    ensures |ls[i]| < 7 <==> StateChar(Some(ls)).Failure?
  {
    FirstLineUnique(ls, "State", i);
    if |ls[i]| > 7 {
      assert ls[i][7..8] == [ls[i][7]];
    }
  }

  /** The first line containing pat is the one with no earlier match. */
  lemma FirstLineUnique(ls: seq<string>, pat: string, i: nat)
    requires i < |ls| && Contains(ls[i], pat)
    requires forall j :: 0 <= j < i ==> !Contains(ls[j], pat)
    ensures FirstLineWith(ls, pat) == Some(i)
  {
  }

  /** Without a readable State line the state part is empty; `+` still depends only on the groups. */
  lemma NoStateLine(lines: Option<seq<string>>, pgid: int, foregroundPgid: int)
    requires lines.None? || forall j :: 0 <= j < |lines.value| ==> !Contains(lines.value[j], "State")
    ensures ProcStatus(lines, pgid, foregroundPgid) == Success(if pgid == foregroundPgid then "+" else "")
  {
    if lines.Some? {
      assert FirstLineWith(lines.value, "State").None?;
    }
    assert StateChar(lines) == Success("");
    assert "" + (if pgid == foregroundPgid then "+" else "") == (if pgid == foregroundPgid then "+" else "");
  }

  /**
   * getProcMemory: substr(8, find("kB") - 8) of the first line containing
   * "VmSize", the count computed in size_t.
   */
  function Memory(lines: Option<seq<string>>): (r: Result<string, Thrown>)
    ensures r.Failure? <==> ShortMatch(lines, "VmSize", 8)
    ensures lines.None? || FirstLineWith(lines.value, "VmSize").None? ==> r == Success("")
    ensures r.Success? && lines.Some? && FirstLineWith(lines.value, "VmSize").Some? ==>
      var line := lines.value[FirstLineWith(lines.value, "VmSize").value];
      8 + |r.value| <= |line| && line[8..8 + |r.value|] == r.value
  {
    match lines
    case None => Success("")
    case Some(ls) =>
      match FirstLineWith(ls, "VmSize")
      case None => Success("")
      case Some(i) =>
        var line := ls[i];
        var kb := match Find(line, "kB") case Some(k) => k case None => NotFound;
        var count := (kb - 8) % SizeModulus;
        Substr(line, 8, count)
  }

  /**
   * The memory text is what lies between column 8 and the first "kB" when
   * that comes at or after column 8; otherwise (no "kB", or one earlier)
   * the wrapped count takes the whole rest of the line.
   */
  lemma MemoryField(ls: seq<string>, i: nat)
    requires i < |ls| && FirstLineWith(ls, "VmSize") == Some(i)
    requires 8 <= |ls[i]| <= MaxSize
    ensures var line := ls[i];
      && (forall k :: Find(line, "kB") == Some(k) && k >= 8 ==> Memory(Some(ls)) == Success(line[8..k]))
      && (Find(line, "kB").None? || Find(line, "kB").value < 8 ==> Memory(Some(ls)) == Success(line[8..]))
  {
    var line := ls[i];
    var kb := match Find(line, "kB") case Some(k) => k case None => NotFound;
    assert Memory(Some(ls)) == Substr(line, 8, (kb - 8) % SizeModulus);
    match Find(line, "kB")
    case Some(k) =>
      assert OccursAt("kB", line, k);
      if k < 8 {
        SizeWrap(k - 8);
        SubstrToEnd(line, k - 8 + SizeModulus);
      } else {
        SizeWrap(k - 8);
        SubstrUpTo(line, k);
      }
    case None =>
      SizeWrap(NotFound - 8);
      SubstrToEnd(line, NotFound - 8);
  }

  /** A difference of two size_t values, reduced modulo 2^64. */
  lemma SizeWrap(x: int)
    requires -SizeModulus <= x < SizeModulus
    ensures x % SizeModulus == if x < 0 then x + SizeModulus else x
  {
  }

  /** A count reaching the end takes the rest of the line from column 8. */
  lemma SubstrToEnd(line: string, count: nat)
    requires 8 <= |line| && |line| - 8 <= count
    ensures Substr(line, 8, count) == Success(line[8..])
  {
    assert line[8..8 + (|line| - 8)] == line[8..];
  }

  /** A count ending at column k takes the text between column 8 and k. */
  lemma SubstrUpTo(line: string, k: nat)
    requires 8 <= k <= |line|
    ensures Substr(line, 8, k - 8) == Success(line[8..k])
  {
  }

  /** A pattern whose first character is absent does not occur. */
  lemma FirstCharAbsent(s: string, pat: string)
    requires pat != [] && pat[0] !in s
    ensures !Contains(s, pat)
  {
    forall j: nat ensures !OccursAt(pat, s, j) {
      if j + |pat| <= |s| {
        assert s[j..j + |pat|][0] == s[j];
      }
    }
  }

  /** find returns k when pat occurs at k and its first character appears nowhere before. */
  lemma FindAt(s: string, pat: string, k: nat)
    requires pat != [] && OccursAt(pat, s, k) && pat[0] !in s[..k]
    ensures Find(s, pat) == Some(k)
  {
    forall j: nat | j < k ensures !OccursAt(pat, s, j) {
      if j + |pat| <= |s| {
        assert s[j..j + |pat|][0] == s[j];
        assert s[..k][j] == s[j];
      }
    }
  }

  /** The state of a typical status file, in the foreground. */
  lemma TypicalState()
    ensures ProcStatus(Some(["Name:\tbash", "State:\tS (sleeping)"]), 7, 7) == Success("S+")
  {
    var ls := ["Name:\tbash", "State:\tS (sleeping)"];
    assert OccursAt("State", ls[1], 0);
    FirstCharAbsent(ls[0], "State");
    assert |ls[1]| > 7 && ls[1][7] == 'S';
    StateFromFirstMatch(ls, 1);
    assert [ls[1][7]] == "S";
    assert "S" + "+" == "S+";
  }

  /** The memory text of a typical VmSize line keeps the padding and the space before "kB". */
  lemma TypicalMemory()
    ensures Memory(Some(["VmSize:\t   12345 kB"])) == Success("   12345 ")
  {
    var line := "VmSize:\t   12345 kB";
    var ls := [line];
    assert OccursAt("VmSize", line, 0);
    FirstLineUnique(ls, "VmSize", 0);
    assert OccursAt("kB", line, 17);
    var front := "VmSize:\t   12345 ";
    assert line == front + "kB";
    assert line[..17] == front && line[8..17] == front[8..];
    assert forall j :: 0 <= j < 17 ==> line[j] != 'k';
    FindAt(line, "kB", 17);
    MemoryField(ls, 0);
  }
}
