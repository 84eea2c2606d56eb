# inline-c: the compile-and-run pipeline, modelled in Dafny

`inline-c` lets a Rust test embed a C or C++ program. The run pipeline takes that program text and does the following:

- It collects configuration from `#inline_c_rs NAME: "VALUE"` directive lines and from `INLINE_C_RS_`-prefixed environment variables. The directive lines are removed from the text.
- It reads `CFLAGS` and `LDFLAGS` from that configuration.
- It finds the `#include "..."` targets of the program and joins each onto the first `-I` directory.
- It builds an MSVC command line: the compiler's own arguments, then the C flags, the output flags, the input file, `/link`, the library and `/LIBPATH:`.
- It hands back an `Assert` whose `drop` deletes the files the run created.

The model covers that logic, module by module:

| module | file | what it models |
|---|---|---|
| `Wrappers` | `wrappers.dfy` | `Option` and `Result` |
| `Text` | `text.dfy` | The `str` operations the pipeline uses: `starts_with`, `ends_with`, `contains`, `trim` (Unicode White_Space), `replace` and `replacen`. |
| `Directives` | `directives.dfy` | `collect_environment_variables`: a hand-written scanner for the directive pattern, the two loops that fill the map (as methods with loop invariants), and `replace_all`. |
| `Flags` | `flags.dfy` | `split_ascii_whitespace` and `get_env_flags`. |
| `Paths` | `paths.dfy` | `Path::join` and `PathBuf::set_extension` on strings, with Windows separators. |
| `Includes` | `includes.dfy` | The `-I` filter, a scanner for the include pattern, and the join onto the first include directory. |
| `Process` | `process.dfy` | A `Command` class whose argument list and environment are updated in place. |
| `Assertion` | `assertion.dfy` | `Assert`, a `FileSystem` class holding the set of existing paths, and `Drop` as a loop over the cleanup list. |
| `Invocation` | `invocation.dfy` | `Language::to_string`, `command_add_output_file`, and `run` itself. |

`run` is given as a method that fills a fresh `Command` step by step (`Invocation.Run`, `Invocation.Build`, `Invocation.Launched`). It is proved against a specification function (`Invocation.RunPlan`, `Invocation.Assemble`). That function is then characterised by lemmas: which panic happens when, the order of the arguments, the environment, and the cleanup list.

The two regular expressions are replaced by scanners written for their fixed patterns. They find the leftmost match and never overlap matches.

- **The directive pattern** is `#inline_c_rs (?P<variable_name>[^:]+):\s*"(?P<variable_value>[^"]+)"\r?\n`.
  - `Directives.MatchPrefix` recognises a match at the start of a text.
  - Its contract and `Directives.MatchPrefixComplete` together say that it accepts exactly the rendered directives.
- **The include pattern** is `#include "(.*)"`.
  - `.` stops at a newline and is greedy, so the capture runs up to the last `"` on the line.
  - `Includes.IncludeAt` states exactly that.

Inputs that the code reads from the world are parameters of the model:

| input | modelled as |
|---|---|
| the process environment | a sequence of name/value pairs; the last pair with a given name wins |
| the host triple | a string |
| the paths of the temporary input and output files | strings |
| the compiler `cc` finds | its path, its arguments, its environment and `is_like_clang` |
| the file system seen by `drop` | a set of existing paths, plus a set of paths whose removal fails |

Panics become `Err` values of `Invocation.Panic`. Removal failures in `drop` become the returned `panic` path.

Where the code does something other than what its names suggest, the model follows the code:

- **The ambient environment is not a fallback.** `get_env_flags` calls `ok_or_else(|| env::var(..)).unwrap_or_default()`, which discards the result of `env::var`. A name missing from the map always gives no flags, whatever the environment holds (`Flags.AmbientIgnored`).
- **The directive pattern is not anchored to the start of a line.** A directive in the middle of a line is matched too (`Directives.DirectiveAnywhere`).
- **`.lib` is appended to a `.dll` library name, not substituted for `.dll`.** `foo.dll` becomes `foo.dll.lib` (`Invocation.LibraryName`).
- **The include targets come from the stripped program.** `program` is rebound at the first line of `run`, so the targets are read after the directive lines are removed.

## Model

| member | source | states |
|---|---|---|
| Text.StartsWith | src/lib.rs:125 | Reference definition of `str::starts_with`: the text begins with the prefix. Its properties are used by the members below rather than stated on it. |
| Text.EndsWith | src/lib.rs:158 | Reference definition of `str::ends_with`: the text ends with the suffix. |
| Text.Contains | src/lib.rs:89 | Reference definition of `str::contains`: the pattern starts at some position of the text. |
| Text.IsWhitespace | src/lib.rs:186 | Unicode `White_Space`, the class that `\s` matches and that `str::trim` (src/lib.rs:205) cuts. A reference definition with no contract of its own: `Text.Trim` and `Directives.MatchTail` state what uses it. |
| Text.IsAsciiWhitespace | src/lib.rs:244 | The separators of `split_ascii_whitespace`: space, tab, line feed, form feed and carriage return, with vertical tab excluded. A reference definition: `Flags.SplitAsciiWhitespace`, `Flags.SplitKeepsText` and `Flags.SplitToken` state how the split uses it. |
| Text.Trim | src/lib.rs:205 | The trimmed name is the input with its leading and trailing whitespace cut off. It sits in the input with nothing but whitespace on either side, it begins and ends with a character that is not whitespace, and it is empty exactly when the input is all whitespace. |
| Text.TrimUnchanged | src/lib.rs:205 | A name without surrounding whitespace is kept as it is by `trim`. |
| Text.RemoveAll | src/lib.rs:156 | `replace(pattern, "")` never lengthens the text, and leaves it unchanged when the pattern does not occur. |
| Text.RemoveAllFirst | src/lib.rs:156 | The text in front of the leftmost occurrence is kept, that occurrence is deleted, and the deletion goes on behind it. With the unchanged-when-absent clause, this determines `replace` on every input. |
| Text.RemoveAllPrefix | src/lib.rs:156 | An occurrence of the pattern in front of the text is deleted. |
| Text.RemoveFirst | src/lib.rs:140 | When the pattern occurs, `replacen(pattern, "", 1)` shortens the text by exactly one occurrence. Otherwise the text is unchanged. |
| Text.RemoveFirstOccurrence | src/lib.rs:140 | It is the first occurrence that goes. The text in front of it is kept, and so is everything behind it, including later occurrences. |
| Text.RemoveFirstOfPrefix | src/lib.rs:140 | On a text starting with the pattern, `replacen` drops exactly that leading occurrence. |
| Directives.MatchValue | src/lib.rs:186 | The value capture is non-empty and free of `"`, and it is followed by a closing quote and `\n` or `\r\n`. |
| Directives.MatchTail | src/lib.rs:186 | After the colon: whitespace only, then the opening quote, then the value part. |
| Directives.MatchAfterMarker | src/lib.rs:186 | Whatever follows `#inline_c_rs ` and is accepted is a well-formed directive, and the text starts with that directive's body. |
| Directives.MatchPrefix | src/lib.rs:186 | Every match is a well-formed directive, and its full rendering, terminator included, is a prefix of the text. |
| Directives.MatchValueComplete | src/lib.rs:186 | A valid value is matched exactly when `\n` or `\r\n` follows its closing quote, and the kind of terminator is recorded. |
| Directives.MatchTailComplete | src/lib.rs:186 | Any whitespace between the colon and the quote is accepted in full by `\s*`. |
| Directives.MatchPrefixOf | src/lib.rs:186 | A well-formed directive up to its closing quote is accepted exactly when its value part matches. |
| Directives.MatchPrefixComplete | src/lib.rs:186 | Every well-formed directive is matched, whatever text follows it; the matcher and the rendering are inverse. |
| Directives.MatchNeedsTerminator | src/lib.rs:186 | Without `\n` or `\r\n` after the closing quote there is no match. |
| Directives.Captures | src/lib.rs:203 | The directives `captures_iter` yields, in program order. No contract of its own: `Directives.ScanDirective`, `Directives.KeptStep`, `Directives.CapturesWellFormed` and `Directives.ScanPlainText` state it. |
| Directives.Strip | src/lib.rs:210 | The text `replace_all` leaves. No contract of its own: `Directives.ScanCovers`, `Directives.ScanDirective`, `Directives.KeptStep` and `Directives.NoMatchNoChange` state it. |
| Directives.Scan | src/lib.rs:203-210 | The leftmost, non-overlapping iteration behind both `captures_iter` and `replace_all`; `Directives.Captures` and `Directives.Strip` project it. No contract of its own: `Directives.ScanCovers`, `Directives.ScanDirective`, `Directives.KeptStep` and `Directives.ScanPlainText` state it. |
| Directives.Step | src/lib.rs:203-210 | Each scan step consumes a non-empty prefix of the text, and a matched step yields a well-formed directive. |
| Directives.ScanCovers | src/lib.rs:203-210 | The scanned pieces, put back together, are the original text: nothing is skipped or invented. |
| Directives.CapturesWellFormed | src/lib.rs:203-208 | Every capture has a non-empty name without `:` and a non-empty value without `"`. |
| Directives.ScanDirective | src/lib.rs:203-210 | A directive at the scan position is captured, and its whole span, terminator included, is absent from the stripped text. |
| Directives.KeptStep | src/lib.rs:210 | Where no directive starts, the first character is kept and nothing is captured. |
| Directives.NoMatchWithoutHash | src/lib.rs:186 | No match starts at a character other than `#`. |
| Directives.ScanPlainText | src/lib.rs:203-210 | Text without `#` passes through the scan unchanged and yields no capture. |
| Directives.DirectiveAnywhere | src/lib.rs:186-210 | A directive after text on the same line is still captured and removed: the pattern is not line-anchored. |
| Directives.MatchesNowhereAt | src/lib.rs:186 | A text where no match starts at any position has no match at any suffix. |
| Directives.NoMatchNoChange | src/lib.rs:203-210 | A text where no match starts anywhere is returned unchanged, and no directive is captured. |
| Directives.DirectiveEntries | src/lib.rs:203-208 | Each capture gives one map entry: the trimmed name and the value exactly as written, in program order. |
| Directives.EnvSeed | src/lib.rs:191-201 | The map the first loop builds. No contract of its own: `Directives.EnvSeedKeys` and `Directives.EnvSeedValue` state it. |
| Directives.Insert | src/lib.rs:203-208 | Ordered insertion of entries into a map. No contract of its own: `Directives.InsertKeys`, `Directives.InsertLastWins` and `Directives.InsertKeeps` state it. |
| Directives.Configuration | src/lib.rs:191-208 | The configuration map `run` works with. No contract of its own: `Directives.ConfigurationKeys`, `Directives.DirectiveWins` and `Directives.EnvironmentValue` state it. |
| Directives.SeedFromEnvironment | src/lib.rs:193-201 | The first loop computes exactly the map of prefixed environment entries, prefix stripped, the last entry winning. |
| Directives.InsertDirectives | src/lib.rs:203-208 | The second loop inserts the entries of every capture in program order over that map. |
| Directives.CollectEnvironmentVariables | src/lib.rs:179-213 | The returned text is the program with every match removed, and the map is the environment seed overwritten by the directives. |
| Directives.EnvSeedKeys | src/lib.rs:193-201 | A key is in the seed exactly when some environment name is `INLINE_C_RS_` followed by that key; names without the prefix never appear. |
| Directives.EnvSeedValue | src/lib.rs:193-201 | The seed's value for a key comes from the last environment entry carrying that prefixed name. |
| Directives.InsertKeys | src/lib.rs:203-208 | After the insertions, the keys are the old keys plus the inserted names. |
| Directives.InsertLastWins | src/lib.rs:203-208 | Among entries with the same name, the last one inserted gives the value. |
| Directives.InsertKeeps | src/lib.rs:203-208 | A key that no entry names keeps its old value. |
| Directives.ConfigurationKeys | src/lib.rs:191-208 | The configuration's keys are exactly the trimmed directive names plus the prefix-stripped environment names. |
| Directives.DirectiveWins | src/lib.rs:191-208 | The last directive with a given name decides its value, overriding earlier directives and any environment entry. |
| Directives.EnvironmentValue | src/lib.rs:191-208 | A name no directive sets takes the value of the last prefixed environment entry. |
| Directives.NoDirectivesNoChange | src/lib.rs:191-212 | A program without any match is returned unchanged, and the map holds only the prefix-stripped environment entries. |
| Flags.SplitAsciiWhitespace | src/lib.rs:244-246 | Every token is non-empty and holds no ASCII whitespace. |
| Flags.RemoveAsciiWhitespace | src/lib.rs:244 | The text with its ASCII whitespace removed holds none. |
| Flags.SplitKeepsText | src/lib.rs:244-246 | The tokens, concatenated in order, are the value with its ASCII whitespace removed. |
| Flags.SplitSkipsLeadingSpace | src/lib.rs:244 | Leading whitespace gives no token. |
| Flags.SplitToken | src/lib.rs:244 | A leading run of non-whitespace, ended by whitespace or by the end of the text, is the first token. |
| Flags.SplitJoin | src/lib.rs:244-246 | Tokens written back with single spaces split into the same tokens: splitting inverts joining. |
| Flags.EnvVar | src/lib.rs:242 | `env::var` finds a value exactly when the environment has an entry with that name. |
| Flags.GetEnvFlags | src/lib.rs:238-247 | A name missing from the map gives no flags. Otherwise the tokens of its value are returned: non-empty, free of whitespace, and concatenating to the value without whitespace. |
| Flags.AmbientIgnored | src/lib.rs:242-243 | The result does not depend on the ambient environment. |
| Flags.GetEnvFlagsOfJoined | src/lib.rs:238-247 | A value written as space-separated tokens gives back exactly those tokens, in order. |
| Paths.Join | src/lib.rs:139-141 | An absolute name replaces the directory. A relative name follows the directory directly when the directory is empty or ends in a separator, and after one added `\` otherwise. |
| Paths.FileNameStart | src/lib.rs:172 | The last component starts right after the last separator and contains none. |
| Paths.StemLength | src/lib.rs:172 | The stem ends at the last `.` of the file name, unless that dot is the first character. |
| Paths.FileNameStartAfter | src/lib.rs:172 | After a separator-terminated directory, a name without separators is the last component. |
| Paths.SetExtension | src/lib.rs:171-172 | `PathBuf::set_extension` on a string path. No contract of its own: the `Paths.SetExtension…` lemmas below state it. |
| Paths.SetExtensionOf | src/lib.rs:172 | `set_extension` changes only the last component. |
| Paths.SetExtensionKeepsPath | src/lib.rs:172 | The directory part of the path is kept. |
| Paths.SetExtensionReplaces | src/lib.rs:171-172 | `dir\stem.exe` becomes `dir\stem.obj`: the former extension is replaced, not appended to. |
| Paths.SetExtensionIdempotent | src/lib.rs:171-172 | Setting the same extension twice is setting it once. |
| Paths.JoinFileName | src/lib.rs:139-141 | A relative name joined onto a directory is the last component of the result. |
| Includes.IncludePaths | src/lib.rs:123-127 | A flag is an include path exactly when it is a CFLAGS token starting with `-I`. |
| Includes.IncludePathsAppend | src/lib.rs:123-127 | The filter keeps the flags in their original order. |
| Includes.FirstIncludePath | src/lib.rs:123-140 | The first include path is the first `-I` flag of CFLAGS. |
| Includes.NoIncludePaths | src/lib.rs:123-127 | Flags without `-I` give no include path. |
| Includes.LineOf | src/lib.rs:58 | The line is a prefix of the text without a newline, ended by a newline or by the end of the text. |
| Includes.IncludeAtComplete | src/lib.rs:58 | A match starts exactly where `#include "` is followed by a quote later on the same line. |
| Includes.IncludeAt | src/lib.rs:58 | A match is `#include "`, the capture, and a quote. The capture holds no newline, and no quote is left on the line after the match: `.*` is greedy and stops at the newline. |
| Includes.IncludeTargets | src/lib.rs:130-134 | No target holds a newline. Which targets are found is fixed by `Includes.IncludeLine` at a match and by `Includes.IncludeSkip` everywhere else; `Includes.IncludeAtComplete` says where a match starts. |
| Includes.IncludeSkip | src/lib.rs:130-134 | At a position where no match starts, such as the `#` of `#include <stdio.h>` or `#define`, the scan yields nothing there and moves on by one character. |
| Includes.IncludeSkipPrefix | src/lib.rs:130-134 | Text in front in which no match starts at any position adds no target. |
| Includes.AngleIncludeSkipped | src/lib.rs:58 | A system include `#include <…>` on its own line yields no target: only the quoted form is captured. |
| Includes.IncludeLine | src/lib.rs:130-134 | An include line yields its target up to the last quote on the line, including any quotes inside it, whatever else follows on that line. The scan goes on right after that quote. |
| Includes.IncludeTargetsPlainText | src/lib.rs:130-134 | Text without `#` yields no target. |
| Includes.JoinedFilepaths | src/lib.rs:136-144 | The join panics exactly when there are targets and no include path; otherwise it yields one path per target. |
| Includes.JoinedOntoFirst | src/lib.rs:136-144 | Each target is joined onto the first include path, with its leading `-I` removed. |
| Process.Command.constructor | src/lib.rs:117 | The command starts with the compiler's program, arguments and environment. |
| Process.Command.Arg | src/lib.rs:162-165 | One argument is appended at the end; the environment is unchanged. |
| Process.Command.Args | src/lib.rs:151 | All tokens are appended in order; the environment is unchanged. |
| Process.Command.Envs | src/lib.rs:167 | The map's entries are set and override earlier ones; the arguments are unchanged. |
| Assertion.FileSystem.Exists | src/lib.rs:38 | `fs::metadata(file).is_ok()`: the path is present in the modelled file system. `Assertion.FileSystem.RemoveFile` and `Assertion.CleanupAbsent` state what depends on it. |
| Assertion.FileSystem.RemoveFile | src/lib.rs:39-40 | A removal succeeds exactly when the path exists and is not locked, and only then removes that path. |
| Assertion.Cleanup | src/lib.rs:36-43 | The drop loop as a function: skip a path that does not exist, remove one that does, and stop with a panic at the first removal that fails. No contract of its own: `Assertion.Assert.Drop` is proved equal to it, and the `Assertion.Cleanup…` lemmas below state it. |
| Assertion.CleanupKeepsOthers | src/lib.rs:34-45 | A path not on the list is left as it was, whether or not the cleanup panics. |
| Assertion.CleanupRemovesListed | src/lib.rs:34-45 | After a cleanup without a panic, no listed path exists and every other path is as before. |
| Assertion.CleanupFails | src/lib.rs:36-43 | The cleanup panics exactly when a listed path exists and cannot be removed, and names the first such path. |
| Assertion.CleanupIdempotent | src/lib.rs:34-45 | Running the cleanup again after it succeeded changes nothing. |
| Assertion.CleanupAbsent | src/lib.rs:36-43 | Paths that do not exist are skipped. |
| Assertion.Assert.constructor | src/lib.rs:12-17 | The handle holds the command and the list of files to remove. |
| Assertion.Assert.Drop | src/lib.rs:34-45 | With no list, the file system is untouched and nothing panics. With a list, the final files and the panic are those of the cleanup function. |
| Invocation.Language.ToString | src/lib.rs:66-73 | The language name is `c` exactly for C and `cpp` exactly for C++. |
| Invocation.OutputFileArgs | src/lib.rs:216-236 | MSVC without clang gives `-Fo` with the output path renamed to `.obj`, then `-Fe` with the output path. Otherwise it gives `-o` and the output path. |
| Invocation.CommandAddOutputFile | src/lib.rs:216-236 | Exactly those arguments are appended to the command; its environment is unchanged. |
| Invocation.LinkPath | src/lib.rs:153-156 | The link path is never longer than the first LDFLAGS token, and equals it when no `-rpath,` occurs. |
| Invocation.LinkPathOfRpath | src/lib.rs:153-156 | `-rpath,<dir>` gives `<dir>`. |
| Invocation.LinkPathFirst | src/lib.rs:153-156 | Only `-rpath,` occurrences are deleted: the text before the leftmost one is kept, and the deletion goes on behind it. |
| Invocation.LibraryName | src/lib.rs:157-160 | The library name changes exactly when the token ends in `.dll`, and then `.lib` is appended. |
| Invocation.RunPlan | src/lib.rs:76-176 | The outcome of `run` as a value: the host check, then `Invocation.Assemble` on the configuration, the flags and the include targets. `Invocation.Run` is proved equal to it. |
| Invocation.Assemble | src/lib.rs:119-176 | The plan past the host check: the include join, the two LDFLAGS checks, then `Invocation.Launch`. No contract of its own: `Invocation.AssemblePanics` and the `Invocation.Assemble…` lemmas below state it. |
| Invocation.CFlags | src/lib.rs:119 | `get_env_flags(&variables, "CFLAGS")`. No contract of its own: `Flags.GetEnvFlags`, `Flags.AmbientIgnored` and `Flags.GetEnvFlagsOfJoined` state it. |
| Invocation.LdFlags | src/lib.rs:149 | `get_env_flags(&variables, "LDFLAGS")`, stated by the same `Flags` lemmas. |
| Invocation.Launch | src/lib.rs:151-176 | The arguments, environment and cleanup list once every check has passed. `Invocation.Launched` is proved equal to it. |
| Invocation.AssemblePanics | src/lib.rs:136-160 | Past the host check, the plan fails in three cases: with an include target and no `-I` flag; otherwise with no LDFLAGS token; otherwise with a single LDFLAGS token. The plan succeeds in every other case. |
| Invocation.AssembleArguments | src/lib.rs:151-165 | The arguments are, in order: the compiler's arguments, all CFLAGS tokens, the output flags, the input, `/link`, the library, and `/LIBPATH:` with the link path. |
| Invocation.AssembleCleansOutputs | src/lib.rs:161-174 | The files to remove are exactly the input, the output and the output renamed to `.obj`, and the command names each file it writes. |
| Invocation.AssembleEnvironment | src/lib.rs:167 | The compiler's environment holds every configuration entry, and the configuration wins over the compiler's own value. |
| Invocation.Run | src/lib.rs:76-177 | Any host other than MSVC is a panic. Otherwise the command and the `Assert` are fresh objects that carry exactly the planned arguments, environment and cleanup list, or the run stops at the planned panic. |
| Invocation.Build | src/lib.rs:119-176 | The include check and the LDFLAGS checks give the planned panic; otherwise the filled command matches the plan. |
| Invocation.Launched | src/lib.rs:151-176 | The command filled argument by argument, and the list pushed step by step, are the plan's. |

## Left out

- Creating, writing and keeping the temporary files (src/lib.rs:79-99): their paths are parameters. Their I/O errors (the `?` results) are not modelled. The language only chooses the suffix of the program file there and, through `build.cpp(true)`, which compiler is found. The compiler is a parameter, so `run`'s language parameter does not appear in `Invocation.Run`.
- Compiler discovery through `cc::Build` and `try_get_compiler`: the compiler is a parameter (path, arguments, environment, `is_like_clang`).
- Running the command and checking its outcome through `assert_cmd` (`assert`, `success`, `failure`): they only forward to a library outside this model.
- `fixup_symlinks` and `fixup_symlinks_inner`: they read and rewrite files on disk. Only the panic of the include join that feeds them is modelled (`Includes.JoinedFilepaths`).
- The diagnostic `log` string: it is never returned.
- `CPPFLAGS` and `CXXFLAGS`: they are read and never used.
- The macro and predicate re-exports.
- `Paths.Join`: Windows path rules are simplified:
  - a name starting with a separator or with a drive prefix replaces the whole directory;
  - drive-relative and UNC prefixes are not treated specially.
- `Paths.SetExtension`: extensions are handled on strings with the same simplified separators.
- `Directives.CollectEnvironmentVariables`: `HashMap` iteration order is not observable in the result, so the environment is a sequence and the map a Dafny `map`.
- `Directives.Strip`: the copy-on-write `Cow` result is modelled as a plain string.
- General regular expressions: the two fixed patterns have dedicated scanners.
- Invocation.Run, Invocation.RunPlan, Invocation.Assemble: the file-system steps `fixup_symlinks(...)?` (src/lib.rs:128) and `fixup_symlinks_inner(...)?` (src/lib.rs:145) are not modelled. They run before the LDFLAGS are read, and they fail when an include directory cannot be listed or an include target cannot be read. The source then returns `Err` where the model gives `Ok`, `Err(NoLinkPath)` or `Err(NoDll)`. An include cycle between headers makes `fixup_symlinks_inner` recurse without end, which the model does not capture either. `Err(NotMsvc)` and `Err(NoIncludePath)` are not affected: the host check comes first, and without a `-I` flag `fixup_symlinks` has no directory to list.
- Process.Command.Envs, Invocation.Launch, Invocation.AssembleEnvironment: environment names are compared case-sensitively, as keys of a Dafny `map`. On the Windows host that `run` requires, `std::process::Command` compares them case-insensitively. A configuration key such as `include` therefore replaces the value of a compiler entry `INCLUDE`, which keeps its own spelling, where the model keeps two entries. `Invocation.AssembleEnvironment`'s clause that a compiler entry the configuration does not name keeps its value holds only up to that case folding.
- Invocation.Build: the same gap as `Invocation.Run` above. Where the model gives `Ok`, `Err(NoLinkPath)` or `Err(NoDll)`, a failing or endless `fixup_symlinks` or `fixup_symlinks_inner` can pre-empt that outcome in the source.
- Panic messages: panics are the values of `Invocation.Panic`, and the failing path in `Assertion.Assert.Drop`.
