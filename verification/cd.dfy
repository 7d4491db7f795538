/**
 * changeDirectory (cd.cpp) as a transition on the pair (working directory,
 * previous directory). getcwd and chdir are answered by a file-system oracle.
 */
module ChangeDir {
  /**
   * The directories that exist. getcwd fails when the working directory is
   * not one of them (it was removed); chdir(p) succeeds exactly for an
   * existing, non-empty p and makes p the working directory.
   */
  datatype FileSystem = FileSystem(dirs: set<string>)

  datatype CdState = CdState(cwd: string, previous: string)

  /** What changeDirectory writes: nothing, the new directory, or one of its errors. */
  datatype Message = Quiet | PrintedDir(dir: string) | OldpwdNotSet | GetcwdFailed | ChdirFailed

  datatype CdResult = CdResult(ok: bool, state: CdState, message: Message)

  predicate CanEnter(fs: FileSystem, p: string) {
    p != "" && p in fs.dirs
  }

  function ChangeDirectory(fs: FileSystem, st: CdState, path: string): (r: CdResult)
    ensures r.ok <==> st.cwd in fs.dirs && CanEnter(fs, if path == "-" then st.previous else path)
    ensures r.ok ==> r.state == CdState(if path == "-" then st.previous else path, st.cwd)
    ensures !r.ok ==> r.state == st && r.message != Quiet && !r.message.PrintedDir?
    ensures r.message.PrintedDir? <==> r.ok && path == "-"
    ensures r.message.PrintedDir? ==> r.message.dir == r.state.cwd
    ensures r.message == GetcwdFailed <==> st.cwd !in fs.dirs
    ensures r.message == OldpwdNotSet <==> st.cwd in fs.dirs && path == "-" && st.previous == ""
  {
    if st.cwd !in fs.dirs then CdResult(false, st, GetcwdFailed)
    else if path == "-" then
      if st.previous == "" then CdResult(false, st, OldpwdNotSet)
      else if !CanEnter(fs, st.previous) then CdResult(false, st, ChdirFailed)
      else CdResult(true, CdState(st.previous, st.cwd), PrintedDir(st.previous))
    else if !CanEnter(fs, path) then CdResult(false, st, ChdirFailed)
    else CdResult(true, CdState(path, st.cwd), Quiet)
  }

  /** `cd -` twice from a state where both directories exist returns to that state. */
  lemma DashTwice(fs: FileSystem, st: CdState)
    requires CanEnter(fs, st.cwd) && CanEnter(fs, st.previous)
    ensures var once := ChangeDirectory(fs, st, "-");
      && once.ok && once.message == PrintedDir(st.previous)
      && ChangeDirectory(fs, once.state, "-").state == st
  {
  }

  /** A successful cd to p followed by `cd -` goes back where it started. */
  lemma Back(fs: FileSystem, st: CdState, p: string)
    requires ChangeDirectory(fs, st, p).ok && p != "-" && st.cwd != ""
    ensures var there := ChangeDirectory(fs, st, p).state;
      ChangeDirectory(fs, there, "-").state == CdState(st.cwd, p)
  {
  }
}
