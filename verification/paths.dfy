/**
 * The base-directory abbreviations: `~` in the prompt (main.cpp displayPrompt)
 * and `/home` in pwd (pwd.cpp). Both use find(baseDir) == 0, a plain string
 * prefix test.
 */
module Paths {
  import opened Strings

  /** The directory part of the prompt. */
  function PromptDir(baseDir: string, cwd: string): (r: string)
    ensures IsPrefix(baseDir, cwd) ==> r == "~" + cwd[|baseDir|..]
    ensures !IsPrefix(baseDir, cwd) ==> r == cwd
  {
    if StartsWith(cwd, baseDir) then "~" + cwd[|baseDir|..] else cwd
  }

  /** Reading the prompt back: a leading `~` is the base directory. */
  function ExpandPrompt(baseDir: string, shown: string): string {
    if shown != [] && shown[0] == '~' then baseDir + shown[1..] else shown
  }

  /** The prompt loses nothing for a working directory that does not itself start with `~`. */
  lemma PromptRoundTrip(baseDir: string, cwd: string)
    requires cwd == [] || cwd[0] != '~'
    ensures ExpandPrompt(baseDir, PromptDir(baseDir, cwd)) == cwd
  {
    if IsPrefix(baseDir, cwd) {
      assert cwd == baseDir + cwd[|baseDir|..];
    }
  }

  /** The line PresentWorkingDirectory writes, given what getcwd returned. */
  function PwdLine(baseDir: string, cwd: string): (r: string)
    ensures r != [] && Last(r) == '\n'
  {
    (if StartsWith(cwd, baseDir) then "/home" + cwd[|baseDir|..] else cwd) + "\n"
  }

  /** pwd writes the prompt's directory with `~` spelled `/home`. */
  lemma PwdMatchesPrompt(baseDir: string, cwd: string)
    ensures IsPrefix(baseDir, cwd) ==> PwdLine(baseDir, cwd) == "/home" + PromptDir(baseDir, cwd)[1..] + "\n"
    ensures !IsPrefix(baseDir, cwd) ==> PwdLine(baseDir, cwd) == cwd + "\n"
  {
  }

  /** In the base directory itself pwd prints exactly `/home`. */
  lemma PwdAtBase(baseDir: string)
    ensures PwdLine(baseDir, baseDir) == "/home\n"
  {
    assert IsPrefix(baseDir, baseDir);
  }

  /** The prefix test is not per path component: base /a/b rewrites /a/bc to /homec. */
  lemma PwdSiblingPrefix()
    ensures PwdLine("/a/b", "/a/bc") == "/homec\n"
    ensures PromptDir("/a/b", "/a/bc") == "~c"
  {
    assert IsPrefix("/a/b", "/a/bc");
  }
}
