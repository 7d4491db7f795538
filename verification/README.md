# A verified model of a small POSIX shell

This project models the deterministic core of a small interactive shell written
in C++. It is a functional model in Dafny: immutable strings and sequences, a
directory-tree datatype, and small state records. The model covers:

- the command-line front end: `trim`, splitting on `;` and `|`, the `strtok`
  tokenizer, `join`, and the `<` / `>` / `>>` redirection parser;
- the dispatch of `executeCommand`;
- the per-stage stream wiring plan of `executePipeline`;
- the statement loop of `main`;
- the built-ins' own logic:
  - `echo`'s quote-toggling tokenizer and printer;
  - the bounded history and its display window;
  - `cd`'s (working directory, previous directory) transitions;
  - the recursive `search`;
  - `ls`'s hidden-name filter and permission column;
  - the `~` and `/home` abbreviations of the prompt and of `pwd`;
  - the `/proc/<pid>/status` line scanning of `pinfo`.

System calls never appear. A process's effects become data:
- `fork`, `exec` and `dup2` become a plan of which stream each stage uses;
- `getcwd` and `chdir` become a file-system oracle (`ChangeDir.FileSystem`);
- the directories that a statement's child processes create or remove come
  from the environment: `MainLoop.World` gives the directories that exist once
  the n-th statement of the session has finished, and the shell counts the
  statements it has run;
- `readdir` becomes a tree (`Search.Entry`, `Listing.DirEntry`);
- `stat` becomes the mode it would report;
- `tcgetpgrp` and `getpgid` become parameters.

Modules, one per source component:

| module | file | models |
|---|---|---|
| `Wrappers` | wrappers.dfy | `Option` and `Result` |
| `Strings` | strings.dfy | character classes (`isspace`, the `" \t"` set), `find`, joining |
| `Lexer` | lexer.dfy | `trim`, the `getline` splitting, the `strtok` tokenizer, `join` |
| `Redirection` | redirection.dfy | `tokenizeWithRedirection` |
| `Pipeline` | pipeline.dfy | the wiring plan of `executePipeline` |
| `Dispatch` | dispatch.dfy | the decision made by `executeCommand` |
| `ChangeDir` | cd.dfy | `changeDirectory` |
| `History` | history.dfy | `addCommToHistory`, `displayHistory` |
| `Echo` | echo.dfy | `echotokenize`, `echoPrinting` |
| `Search` | search.dfy | `search` |
| `Listing` | ls.dfy | the filter and permission column of `listing` |
| `Paths` | paths.dfy | `displayPrompt`'s rewrite and `PresentWorkingDirectory` |
| `ProcInfo` | pinfo.dfy | `getProcStatus`, `getProcMemory` |
| `MainLoop` | shell.dfy | the loop of `main` |

These behaviours of the code are kept on purpose:

- **A line of blanks.** `main` reads `tokens[0]` of an empty token vector when a statement has no words. Examples are a line of spaces, or `ls;;pwd`. This is undefined behaviour, and the model ends the session with the outcome `Undefined`.
- **An unterminated last line.** A final input line without a newline sets `eof` and is never run.
- **A stale directory.** The directory that `ls` and `search` use is read once per line. A `cd` earlier on the same line does not change it.
- **Append mode sticks.** A `>` after `>>` keeps append mode.
- **A dangling operator.** An operator with no file name after it leaves the file name as it was.
- **No separator after leading empty tokens.** `join` adds no delimiter after leading empty tokens.
- **Plain prefix tests.** The `~` and `/home` rewrites test a plain string prefix, not a path prefix.
- **size_t arithmetic.** `displayHistory` and `getProcMemory` compute an unsigned size_t index. The model writes out the wrap-around modulo 2^64.
- **Built-ins run in a child.** Every single command except `cd` and `exit` is forked, the stateless built-ins included.
- **History trimming.** Each addition removes at most one entry. A history that already holds more than 20 entries stays at its size (`History.AddCommand`).
- **strtok stops at a NUL.** `tokenize` copies the statement through `c_str()`, so nothing after an embedded NUL becomes a token (`cd\0x /tmp` is just `cd`). The redirection parser works on the `std::string` and sees the whole text.

## Model

| member | source | states |
|---|---|---|
| Lexer.Trim | shell.cpp:57-63 | The result is empty exactly when the input is all spaces. Otherwise it is a contiguous piece of the input with no leading or trailing `' '`, and only spaces lie outside it. |
| Lexer.TrimIdempotent | shell.cpp:57-63 | Trimming twice is trimming once. |
| Lexer.TrimNoSpace | shell.cpp:59-62 | Only `' '` is stripped: text with no space, including text with tabs at its ends, is unchanged. |
| Lexer.Pieces | shell.cpp:71-75 | The `getline` pieces contain no delimiter. Empty input gives no pieces. Non-empty input without a delimiter gives exactly itself. |
| Lexer.PiecesInverse | shell.cpp:71-75 | The pieces joined by the delimiter, plus the trailing delimiter when the input ended with one, give back the input. |
| Lexer.PiecesTrailingDelimiter | shell.cpp:71-75 | A trailing delimiter adds no empty trailing piece. |
| Lexer.TokenizeByPipe | shell.cpp:65-78 | Piece k is the k-th `getline` piece at `\|`, trimmed, and there are as many pieces as `getline` reads. No piece contains `\|` and each is trimmed. A text without `\|` is one trimmed piece, or none when it is empty. |
| Lexer.TokenizeBySemicolon | shell.cpp:81-94 | Statement k is the k-th `getline` piece at `;`, trimmed, so statements keep the order of the line. There are as many as `getline` reads. No statement contains `;` and each is trimmed. A text without `;` is one trimmed statement, or none when it is empty. |
| Lexer.SplitOn | shell.cpp:65-94 | `tokenizeByPipe`/`tokenizeBySemicolon`: one piece per `getline` piece, and piece k is the k-th `getline` piece trimmed. None contains the delimiter. Empty input gives `[]`. Non-empty input without the delimiter gives `[trim(input)]`. |
| Lexer.UpToNul | shell.cpp:100-101 | The C copy is the longest prefix of the input without a NUL: it holds no NUL, and it is the whole input or is followed by a NUL. |
| Lexer.Tokenize | shell.cpp:96-112 | The tokens are non-empty and contain no blank and no NUL. For input without a NUL they are exactly its `strtok` words. |
| Lexer.TokenizeStopsAtNul | shell.cpp:100-109 | Nothing after a NUL is tokenized, so `cd\0x /tmp` gives just `cd`. |
| Lexer.Words | shell.cpp:103-109 | The `strtok` tokens are non-empty and contain no separator. The input's last character, when it is not a separator, ends the last token. |
| Lexer.WordsCoverText | shell.cpp:103-109 | The tokens concatenated are exactly the non-separator characters of the input, in order. |
| Lexer.WordsSplitAt | shell.cpp:103-109 | A separator splits the input into two independently tokenized halves. |
| Lexer.WordsRefine | shell.cpp:255 | Re-splitting the blank-joined `strtok` tokens at the larger `isspace` set gives the same words as splitting the original text at that set. |
| Lexer.Join | shell.cpp:115-127 | The joined text is empty exactly when every token is empty. |
| Lexer.JoinIsIntercalate | shell.cpp:115-127 | When the first token is non-empty, `join` puts the delimiter between every two tokens. |
| Lexer.JoinSkipsLeadingEmpty | shell.cpp:120-124 | Leading empty tokens contribute no delimiter. |
| Lexer.TokenizeJoinRoundTrip | shell.cpp:96-127 | Tokenizing `join(tokenize(s), " ")` gives `tokenize(s)` again. |
| Redirection.TokenizeWithRedirection | shell.cpp:129-160 | argv never contains `<`, `>` or `>>`. argv is a subsequence of the stream words. Input with no operator word gives all its words and the defaults (no files, truncate). Append mode implies a `>>` word. |
| Redirection.Resolve | shell.cpp:139-158 | The loop never drops a collected argument and adds at most one per word. Each file name is either the one it started with or one of the words. What each word does is stated by ResolveOperatorStep and ResolvePlainStep. |
| Redirection.ResolveOperatorStep | shell.cpp:141-153 | An operator followed by a word consumes both and records the word as its file (`>>` also choosing append). The loop then goes on after the file name. |
| Redirection.ResolvePlainStep | shell.cpp:154-157 | A space-free word that is not an operator goes to the arguments unchanged. |
| Redirection.ResolveArguments | shell.cpp:139-158 | The argument loop keeps what was collected before. It adds only non-operator words, in their original relative order. |
| Redirection.ResolveMode | shell.cpp:149-153 | Once `>>` is seen the mode stays append, and append mode comes only from a `>>` word. |
| Redirection.OutputOverride | shell.cpp:145-153 | An output operator followed by a file name sets the output to that file. A `>` keeps the earlier mode and a `>>` sets append. The input file is unchanged. |
| Redirection.RenderRoundTrip | shell.cpp:129-160 | Every well-formed command (argv without operators, file names that are words, an output mode only with an output file) is recovered exactly from its rendering as a command line. |
| Pipeline.StageCommand | shell.cpp:252-255 | The re-parsed stage has no operator word among its arguments. Its arguments are a subsequence of the words of the joined, trimmed tokens. |
| Pipeline.WireStage | shell.cpp:257-301 | A stage keeps its argv and refers only to pipes that exist. It reads only pipe i−1 and writes only pipe i. It uses an input or output file exactly when one was named. |
| Pipeline.PlanPipeline | shell.cpp:221-339 | One stage per command, each running the argv that its own re-parse gives. |
| Pipeline.Wire | shell.cpp:227-234 | n stages use n−1 pipes. Every referenced pipe exists. A stage reads only pipe i−1 and writes only pipe i. Each stage keeps its own argv. |
| Pipeline.FileRedirectionWins | shell.cpp:278-301 | A stage's `<` or `>`/`>>` file replaces the pipe end or terminal it would otherwise use. |
| Pipeline.StagesConnected | shell.cpp:257-275 | Without file redirections, stage i writes pipe i and stage i+1 reads it. The first stage's stdin and the last stage's stdout are inherited. |
| Pipeline.OneWriterOneReader | shell.cpp:257-275 | Pipe k has at most one writer, stage k, and at most one reader, stage k+1. |
| Pipeline.StageParseMatchesPiece | shell.cpp:255 | Re-parsing a stage's joined, trimmed tokens gives the same command and redirections as parsing the pipe piece up to its first NUL. For a piece without a NUL, that is the piece itself. |
| Dispatch.Decide | shell.cpp:343-579 | An empty token list is exactly the no-command case. Redirection is chosen exactly when a file was named. A command runs externally exactly when there is no redirection and its first word is not a built-in name. |
| Dispatch.LsScan | shell.cpp:408-428 | `all` is set iff some argument is `-a`, `-la` or `-al`. `long` is set iff some argument is `-l`, `-la` or `-al`. The listed paths are exactly the non-dash arguments, with `~` expanded. |
| Dispatch.LsScanAppend | shell.cpp:408-428 | Scanning two runs of arguments combines their flags and concatenates their paths in order. |
| Dispatch.LsListsPaths | shell.cpp:401-456 | ls lists exactly its path arguments. With none, it lists the directory the line started in, `~` expanded. |
| Dispatch.RedirectionFirst | shell.cpp:351-358 | A statement is run with redirection exactly when a file was named, before any built-in name is checked, with the parsed argv. |
| Dispatch.CommandWordDecides | shell.cpp:360-511 | Without redirection, a command runs externally exactly when its first word is not a built-in name. The cd and exit branches are taken exactly for those words. |
| Dispatch.BackgroundMarker | shell.cpp:511-518 | An external command is in the background exactly when its last token is `&`. Putting that `&` back gives the original tokens. |
| Dispatch.CdTarget | shell.cpp:360-389 | One token targets the base directory. Two tokens target `tokens[1]`, with `~` meaning the base directory. More than two tokens is exactly the too-many-arguments error. |
| ChangeDir.ChangeDirectory | cd.cpp:8-50 | Success means getcwd worked and the target, or the previous directory for `-`, can be entered. Success moves there and stores the old cwd as previous. Failure changes nothing and reports getcwd, OLDPWD or chdir failure. `-` prints a directory exactly on success, and what it prints is the new working directory. |
| ChangeDir.DashTwice | cd.cpp:24-48 | With both directories present, `cd -` swaps them and prints the new directory, and a second `cd -` restores the starting state. |
| ChangeDir.Back | cd.cpp:39-48 | After a successful `cd p`, `cd -` returns to the starting directory and makes p the previous one. |
| History.AddCommand | history.cpp:17-25 | The new command is last. Below 20 entries the old entries stay and the size grows by one. At 20 or more the oldest entry goes and the size stays. At most 20 before means at most 20 after. |
| History.AddAllKeepsNewest | history.cpp:17-25 | From at most 20 entries, a run of adds leaves the newest 20 of the old entries followed by the new commands, in order. |
| History.FromEmpty | history.cpp:17-25 | From an empty history, k adds hold the last min(k, 20) commands in order. |
| History.Displayed | history.cpp:36-43 | A count of 0 means 10. The entries shown are the last `count` entries when 0 ≤ count ≤ size, and none otherwise: the unsigned start index wraps past the end. |
| History.OutOfRangeShowsNothing | history.cpp:40 | A negative count, or one larger than the history, shows nothing. |
| History.NewestShown | history.cpp:17-43 | `history 1` right after an add shows exactly the added command. |
| Echo.EchoTokenize | echo.cpp:8-40 | No token is empty. Every token but the last is closed: its text followed by exactly one space. The final pending token has no space added. |
| Echo.Step | echo.cpp:14-33 | Quoted mode flips exactly at a `"`. The only other change to the token list is closing a non-empty pending token, with a space added, at unquoted whitespace. |
| Echo.Scan | echo.cpp:14-33 | Every closed token is non-empty text followed by exactly one space. |
| Echo.ScanQuoteParity | echo.cpp:16-19 | Quoted mode is on exactly after an odd number of `"`. |
| Echo.ScanKeepsText | echo.cpp:14-33 | The tokens with their appended spaces removed, followed by the pending token, are the input with the whitespace outside quotes deleted. |
| Echo.ScanQuoteFree | echo.cpp:21-38 | Without `"`, the closed tokens are exactly the whitespace-separated words, each followed by one space. The last word stays pending unless the input ends in whitespace. |
| Echo.Clean | echo.cpp:49-61 | A printed token never contains `"` and is no longer than the token. |
| Echo.CleanFacts | echo.cpp:49-61 | A `'` survives only if a `"` occurs in the token. A token without quotes of either kind prints unchanged. |
| Echo.CleanToken | echo.cpp:49-62 | The printer loop with its `doubleQuotes` flag computes the per-character rule: drop `"`, and drop `'` unless a `"` came earlier in the token. |
| Echo.EchoLine | echo.cpp:43-65 | The line written ends in a newline and contains no `"`. |
| Echo.EchoPlainWords | echo.cpp:21-28 | For input without quotes and without trailing whitespace, echo writes the words after the first word, joined by single spaces, then a newline. |
| Search.SearchDir | search.cpp:7-16 | An unopenable directory finds nothing. An opened one finds the target exactly when it is below it. |
| Search.SearchEntries | search.cpp:17-42 | search is true exactly when some entry at any depth has the target name. Only opened directories are entered, and `.`, `..` and symlinks are never passed through. |
| Search.SearchConcat | search.cpp:18-39 | Entries are searched independently: a subtree that finds nothing, including an unopenable one, leaves the scan to continue with its siblings. |
| Search.SymlinkNotFollowed | search.cpp:25-38 | A symlink is compared by name, but what it points to is never searched. |
| Search.DotsSkipped | search.cpp:22-23 | `.` and `..` are neither compared nor descended into, whatever they contain. |
| Listing.Visible | ls.cpp:22-27 | An entry is shown iff it is in the directory and either `all` is set or its name does not start with `.`. With `all`, everything is shown. |
| Listing.VisibleConcat | ls.cpp:22-27 | Filtering preserves directory order. |
| Listing.PermissionString | ls.cpp:39-42 | The column has 10 characters. The first is `d` exactly for a directory mode and `-` otherwise. |
| Listing.PermissionTriads | ls.cpp:44-87 | Characters 2-10 are the rwx triples of the user, group and other bits: a letter where the bit is set, `-` where it is not. |
| Listing.PermissionRoundTrip | ls.cpp:44-87 | The nine permission bits can be read back from the column exactly. |
| Listing.PermissionStringInjective | ls.cpp:39-87 | Two modes print the same column exactly when they agree on the directory test and the nine permission bits. |
| Listing.LongLines | ls.cpp:29-38 | The long listing succeeds iff every shown entry can be stat'ed. It writes the long line of each entry up to the first failure, and stops there. On success there is one line for every entry. |
| Listing.List | ls.cpp:12-20 | An unopenable directory gives false with no output. Short format succeeds with exactly the shown names, in order. |
| Listing.NoHiddenWithoutAll | ls.cpp:26-27 | Without `all`, no listed name starts with `.`, in either format. |
| Paths.PromptDir | main.cpp:63-70 | The prompt shows `~` plus the rest when cwd has baseDir as a string prefix, and cwd unchanged otherwise. |
| Paths.PromptRoundTrip | main.cpp:65-70 | The abbreviation loses nothing: expanding the `~` gives cwd back, for a cwd that does not start with `~`. |
| Paths.PwdLine | pwd.cpp:21-31 | The pwd line ends with a newline. |
| Paths.PwdMatchesPrompt | pwd.cpp:25-30 | pwd prints `/home` plus the rest when cwd has baseDir as a prefix, and cwd unchanged otherwise. This is the prompt's directory with `~` spelled `/home`. |
| Paths.PwdAtBase | pwd.cpp:25-27 | In the base directory itself, pwd prints exactly `/home`. |
| Paths.PwdSiblingPrefix | pwd.cpp:25-28 | With base `/a/b`, the directory `/a/bc` prints as `/homec` and is prompted as `~c`. |
| ProcInfo.FirstLineWith | pinfo.cpp:21-28 | The line used is the first containing the pattern. No line containing it means none is found. |
| ProcInfo.Substr | pinfo.cpp:25 | `substr` throws exactly when the start is past the end. Otherwise it returns the text at that position, clipped to the line. |
| ProcInfo.StateChar | pinfo.cpp:16-30 | The state part has at most one character. It throws exactly when the first line containing "State" is shorter than 7 characters. No such line, or an unreadable file, gives empty text. |
| ProcInfo.StateFromFirstMatch | pinfo.cpp:21-27 | The state is the eighth character of the first line containing "State". It is empty when the line has exactly 7 characters, and an exception is thrown exactly when the line is shorter. |
| ProcInfo.ProcStatus | pinfo.cpp:14-42 | The status fails exactly when the state extraction throws. Otherwise it is the state followed by `+` exactly when the process group is the terminal's foreground group. |
| ProcInfo.NoStateLine | pinfo.cpp:16-39 | With no State line or an unreadable file, the status is just `+` or empty, depending only on the groups. |
| ProcInfo.Memory | pinfo.cpp:44-62 | It throws exactly when the first line containing "VmSize" is shorter than 8 characters. No such line, or an unreadable file, gives empty text. Otherwise the text is a piece of that line starting at column 8. |
| ProcInfo.MemoryField | pinfo.cpp:44-57 | The memory text is what lies between column 8 and the first "kB" when that comes at or after column 8. Otherwise the wrapped size_t count takes the rest of the line. |
| ProcInfo.TypicalState | pinfo.cpp:14-42 | A `State:\tS (sleeping)` line of a foreground process gives `S+`. |
| ProcInfo.TypicalMemory | pinfo.cpp:44-61 | `VmSize:\t   12345 kB` gives `   12345 ` (padding and trailing space kept). |
| MainLoop.RunStatement | main.cpp:145-217 | A statement never changes the history or the base directory, and it counts as one more statement run. A pipeline or a forked command takes on the directories the environment reports after it. A `cd` or `exit` leaves them alone. It has a step exactly when it is not undefined. |
| MainLoop.RunStatements | main.cpp:143-219 | Statements run left to right and never change the history. A line that goes on ran every statement. |
| MainLoop.RunLine | main.cpp:137-140 | The raw line is added to the history before, and regardless of, what its statements do. |
| MainLoop.RunStatementsAppend | main.cpp:143-219 | Running a + b is running a, then b from the state a left, unless a stopped the loop. |
| MainLoop.ExitStopsLine | main.cpp:173-177 | An exit statement ends its line with an exit step and the outcome that stops the loop. Nothing after it on the line runs: the state is the one the statements before it left, counted one statement further. |
| MainLoop.PipelineBypassesBuiltins | main.cpp:148-165 | A statement with more than one `\|` piece becomes a pipeline, whatever its words. The shell keeps its state and sees the directories the stages left. |
| MainLoop.OnlyCdChangesDirectory | main.cpp:178-211 | A cd statement runs in the shell process and leaves the set of directories alone. Every other command runs in a child: the shell keeps its state except that foregroundPid becomes −1 and the directories are those the child left. The working directory changes only through a successful cd. |
| MainLoop.LaterStatementsSeeChildEffects | main.cpp:143-211 | The statements after a forked command run against the directories that command left. A directory it created is there for a later `cd` on the same line. |
| MainLoop.EmptyStatementUndefined | main.cpp:170-173 | A non-empty line of spaces reaches `tokens[0]` of an empty vector and ends undefined, with no step. |
| MainLoop.EmptyLine | main.cpp:138-143 | An empty line is recorded and does nothing else. |
| MainLoop.DirectoryReadOncePerLine | main.cpp:123-197 | Later statements of a line run with the directory read at the start of the line, not the one a cd on that line moved to. |
| MainLoop.CompleteLines | main.cpp:129-135 | The lines processed contain no newline. For input ending in a newline, each line plus its newline, concatenated, gives back the input. |
| MainLoop.UnterminatedTailIgnored | main.cpp:129-135 | Text after the last newline is never run. |
| MainLoop.RunLines | main.cpp:121-219 | The loop over the lines never changes the base directory. |
| MainLoop.RunLinesAppend | main.cpp:121-219 | Reading lines a and then b is running a, then b from the state a left. When a ends the session by an exit or undefined behaviour, nothing of b runs. |
| MainLoop.ExitLineStops | main.cpp:143-177 | A line whose i-th statement is exit, reached by the statements before it, stops. Its steps are theirs plus the exit. |
| MainLoop.ExitEndsSession | main.cpp:213-216 | A line that stops ends the loop: the session ends by exit with the steps so far, and no later line runs or is recorded. |
| MainLoop.RunLinesRecordsAll | main.cpp:121-140 | A session that reaches end of input has added every line to the history, in order. |
| MainLoop.RunSession | main.cpp:111-224 | The session runs only the complete lines. One that reaches end of input has added all of them to the history, in order, and the base directory never changes. |

## Left out

- Process plumbing: `fork`, `execvp`, `waitpid`, `dup2`, `pipe`, `open` and `close`, and the PATH lookup. These are operating-system effects. The model keeps only the plan they carry out: `Pipeline.Plan`, `Dispatch.Action` and `MainLoop.Step`. This also covers `executeCommandWithRedirection`.
- `executePipeline` reserves 2n descriptor slots and closes all of them, including two that were never opened. Only the n−1 real pipes are modelled.
- Signal handlers, `sigaction` and the asynchronous use of `foregroundPid`. These concern concurrency. `foregroundPid` appears only as the −1 reset after a child.
- The persistence of history: `saveHistory`, `loadHistory` and the history file. This is file I/O. History is an in-memory sequence, and the model starts from a given history.
- The rest of the ls long format: link count, owner and group names, size, `strftime` date, and `setw` padding. `calculateTotalBlocks` and the `total` line are also left out. They depend on `stat`, `getpwuid`, `getgrgid` and the clock.
- The system queries `getcwd`, `getpwuid`, `uname`, `readlink`, `tcgetpgrp`, `getpgid` and `getpid` are parameters or oracles. The user and host names of the prompt are left out, and so is pinfo's executable path.
- `stoi` in `pinfo` and `history`, with its exceptions. The argument stays a string in `Dispatch.Action`, and `History.Displayed` takes the already-converted int.
- The buffer that `tokenize` allocates with `new[]` and never frees. It is a leak with no visible effect.
- `execvp` on an empty argument list: an empty pipeline stage, or a lone `&`. The plan records the empty argv, and what `execvp` does with it is not modelled.
- Characters are Dafny `char`s. `isspace` is the "C" locale set, and negative `char` values are not modelled.
- Directories that other processes create or remove while the shell waits for input are not seen separately. They show up with the next forked statement's directories, and a `cd` does not see them until then.
- ChangeDir.ChangeDirectory: the oracle treats a path as the name of the directory it enters, so a relative path is not resolved against the working directory.
- Listing.PermissionString: `mode_t` is taken as 32 bits wide.
- Search.SearchEntries: directory entries come as a finite tree, so a directory that changes during the search is not modelled.
- History.Displayed: requires a history of at most PTRDIFF_MAX entries and an `int` count, as a `std::vector` and the `int` parameter guarantee.
- ProcInfo.MemoryField: requires a line of at most PTRDIFF_MAX characters, as `std::string` guarantees.
