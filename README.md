# docgpt: source resolution, target resolution and prompt budgeting

`docgpt` is a command-line tool. It sends a source file, or text piped to it,
to a text-completion model and writes back a copy with comments and docstrings
added. This project models the part of the tool that makes decisions, together
with its proofs:

- **Source resolution (`get_source_code`).** An explicit path is looked up in
  the file system. A missing path and a directory are refused. A file's
  contents are returned stripped of surrounding whitespace. Without a path,
  piped standard input is read line by line and refused below 40 characters.
  A terminal on standard input means there is no source.
- **Target resolution (`get_target`).** `--overwrite` writes back to the
  source. Otherwise the extension of the source, found by the POSIX
  `os.path.splitext` rule, is appended to an explicit target unless the target
  already ends with it. Without a target, the default is
  `<stem>_docgpt<ext>`.
- **Argument checks (`validate_args`).** `--overwrite` needs a source,
  `--overwrite` and `--target` exclude each other, and some source or target
  must be given.
- **Command-line rewrite (`cli`).** A first argument that is not a flag gets
  `--source` put in front of it. A first `--overwrite` that has no value gets
  the value `true` inserted after it.
- **Token estimate and prompt gate (`estimate_num_tokens`,
  `validate_prompt_length`).** The estimate is the number of pieces
  `re.split(r"([\W_]+)", prompt)` returns, times 1.28, truncated. Prompts
  estimated above 1800 are refused. An accepted prompt leaves
  `4097 - estimate` tokens for the completion.
- **Completion clean-up.** The completion is stripped and given one final
  newline.
- **The order of `main`'s checks.** The API key comes first, then the source,
  the prompt length and the arguments, in that order, before the target is
  resolved and the completion is requested.
- **The earlier `pydoc_gpt` script.** It has the same operations with
  different rules:
  - only `.py` sources are looked up;
  - without `--overwrite`, targets are forced to `.py`;
  - the coefficient is 1.27;
  - there is no overwrite/target exclusion;
  - the arguments are checked before the source is read.

  Module `Versions` proves how the two versions relate.

Modules:

- `Wrappers` holds `Option`.
- `PyStr` holds `str.strip` with Python's `isspace`, `startswith`/`endswith`,
  `list.index`, `list.insert` and string concatenation.
- `PosixPath` holds `os.path.splitext` and `os.path.curdir`.
- `ReSplit` holds `re.split` with one capturing group.
- `Env` holds the file system as a map from path to file or directory,
  standard input as a terminal flag plus its lines, and `fileinput.input()`
  over both.
- `DocgptModel`, `DocgptMain` and `PydocGptMain` each follow the source file
  of the same name.
- `Versions` relates the two versions.

The character class `[\W_]` is a parameter `isSep` of the estimate. Python's
class depends on the Unicode database. The ghost predicate
`ReSplit.PythonOnAscii` pins it down on ASCII, which is all the test suite's
example needs.

Each `get_source_code` is a function `ResolveSource`, which states the result,
plus a method `GetSourceCode` that reads piped input with a loop, as the code
does. The method is proved equal to the function. The function's `fault`
field names which message the code prints on each failure path. The code
itself returns `("", "")` on every one of them, and the model's `code` and
`path` are `""` there too.

Two rules of the code are easy to miss:

- A prompt over the length threshold stops `main` with exit status 1 (docgpt/main.py:141-142).
- `validate_args` refuses `--overwrite` without `--source` (docgpt/main.py:90-92), as well as `--overwrite` together with `--target`, and neither source nor target.

Piped input is modelled twice. `ResolveSource` reads standard input, which is
what the piped branch is meant to do. `Env.FileInput` reads what
`fileinput.input()` actually reads. The difference is recorded under
"## Findings".

## Model

| member | source | states |
|---|---|---|
| PyStr.StartsWith | docgpt/main.py:170 | `str.startswith`: the prefix fits in the string and equals its front slice; every string starts with `""` |
| PyStr.StartsWithPointwise | docgpt/main.py:176 | `startswith` holds exactly when the prefix is no longer than the string and agrees with it character by character from the front |
| PyStr.EndsWith | docgpt/main.py:81 | `str.endswith`: the suffix fits in the string and equals its back slice; every string ends with `""`, so an empty extension is never appended |
| PyStr.EndsWithPointwise | pydoc_gpt/main.py:199 | `endswith` holds exactly when the suffix is no longer than the string and agrees with it character by character from the back |
| PyStr.IsSpace | docgpt/main.py:35 | `str.isspace` on one character, as ranges of code points |
| PyStr.IsSpaceMatchesTable | docgpt/main.py:35 | the ranges of `IsSpace` hold of exactly the code points of the table of CPython's whitespace characters |
| PyStr.WhitespaceTableIncreasing | docgpt/model.py:95 | that table lists 29 code points in strictly increasing order, so no code point twice |
| PyStr.Concat | docgpt/main.py:40-43 | the text built by `+=` over the lines: the pieces in order with nothing between them |
| PyStr.Strip | docgpt/main.py:35-36 | the result is the slice of the input left after removing a whitespace prefix and a whitespace suffix, and it has no whitespace at either end (Python's `isspace` code points) |
| PyStr.StripIdempotent | docgpt/model.py:95 | stripping twice equals stripping once |
| PyStr.StripEmptyIffAllSpace | docgpt/main.py:35-36 | a file strips to the empty string exactly when it is all whitespace |
| PyStr.StripStrippedThenSpace | docgpt/model.py:95-96 | stripped text followed by whitespace strips back to itself |
| PyStr.ConcatSnoc | docgpt/main.py:41-43 | concatenating the lines read so far plus one more line extends the text by that line |
| PyStr.FirstIndex | docgpt/main.py:175 | `list.index`: a position holding the element, with no earlier occurrence |
| PyStr.InsertAt | docgpt/main.py:177 | `list.insert`: one element longer, the new element at the position, the elements before it in place and the rest shifted by one |
| PyStr.InsertAtRemoved | docgpt/main.py:177 | removing the inserted element again gives back the original list |
| PosixPath.RFind | docgpt/main.py:71 | the last position holding the character, or -1 when there is none |
| PosixPath.SplitExt | docgpt/main.py:71 | root and extension concatenate back to the path |
| PosixPath.SplitExtFound | docgpt/main.py:71 | a non-empty extension starts at the last dot of the last path component, and a non-dot character comes before that dot in the component |
| PosixPath.SplitExtNotFound | docgpt/main.py:71 | an empty extension means no position of the path qualifies as an extension start |
| PosixPath.ExtensionOnlyAtLastDot | docgpt/main.py:71 | only the last dot of the path, after the last slash, can start an extension |
| PosixPath.ExtensionShape | docgpt/main.py:71 | a found extension is one dot followed by neither dots nor slashes |
| PosixPath.SplitExtPySample | tests/test_main.py:6-10 | `/path/to/sample.py` splits into `/path/to/sample` and `.py` |
| PosixPath.SplitExtCppSample | docgpt/main.py:71 | `/path/to/sample.cpp` splits into `/path/to/sample` and `.cpp` |
| PosixPath.SplitExtLastDot | docgpt/main.py:71 | only the last dot splits: `a.b.c` gives `a.b` and `.c` |
| PosixPath.SplitExtLeadingDot | docgpt/main.py:50 | `.bashrc` and the current directory `.` have no extension |
| ReSplit.Split | docgpt/model.py:103 | `re.split` with a capturing group always returns at least one piece |
| ReSplit.SplitJoins | docgpt/model.py:103 | the pieces concatenate back to the prompt |
| ReSplit.SplitAlternates | docgpt/model.py:103 | the number of pieces is odd; even places hold text free of separators, non-empty between two runs; odd places hold non-empty separator runs |
| ReSplit.Runs | docgpt/model.py:103 | the number `r` of maximal separator runs in the prompt: at most its length, and 0 exactly when no character is a separator |
| ReSplit.SplitCount | docgpt/model.py:103 | the number of pieces is twice the number of maximal separator runs, plus one |
| ReSplit.SplitHead | docgpt/model.py:103 | the first piece is empty and followed by a run exactly when the prompt opens with a separator |
| ReSplit.SplitWordPrefix | docgpt/model.py:103 | a separator-free word in front of a string extends its first piece by that word and leaves the other pieces unchanged |
| ReSplit.SplitExample | tests/test_main.py:28-30 | `this is/a+4` splits into `this`, ` `, `is`, `/`, `a`, `+`, `4` when `[\W_]` has Python's meaning on ASCII |
| DocgptModel.EstimateNumTokens | docgpt/model.py:101-104 | the estimate is the piece count times 1.28, truncated: it lies within 1 below that product |
| DocgptModel.EstimateFromRuns | docgpt/model.py:101-104 | the estimate is `int((2 * runs + 1) * 1.28)`, where `runs` counts the separator runs |
| DocgptModel.EstimateAtLeastPieces | docgpt/model.py:101-104 | the estimate is at least the piece count, which is at least 1 |
| DocgptModel.EstimateMonotone | docgpt/model.py:101-104 | a prompt with no more separator runs than another never gets a larger estimate |
| DocgptModel.EstimateExample | docgpt/model.py:101-104 | `this is/a+4` yields seven pieces and an estimate of `int(7 * 1.28)`, which is 8 |
| DocgptModel.ValidatePromptLength | docgpt/model.py:107-119 | accepts exactly the estimates of at most 1800 |
| DocgptModel.AcceptedPromptLeavesBudget | docgpt/model.py:75 | for an accepted prompt, `max_tokens = 4097 - estimate` lies between 2297 and 4096 |
| DocgptModel.CleanupCompletion | docgpt/model.py:94-96 | the result is the stripped completion followed by exactly one newline, with no whitespace before that newline |
| DocgptModel.CleanupIdempotent | docgpt/model.py:94-96 | cleaning an already cleaned completion changes nothing |
| DocgptMain.ResolveSource | docgpt/main.py:17-61 | a missing path gives NotFound; a directory gives the directory warning; a file gives its stripped contents and the path itself; piped text under 40 characters gives TooSmall; other piped text is returned whole with path `.`; a terminal gives NoSourceProvided; every failure returns empty text and path |
| DocgptMain.GetSourceCode | docgpt/main.py:17-61 | reading `stdin` line by line gives exactly `ResolveSource`'s result |
| DocgptMain.ExplicitSourceIgnoresStdin | docgpt/main.py:19-36 | with an explicit source, standard input has no influence on the result |
| DocgptMain.FileSourceIsStripped | docgpt/main.py:35-36 | text taken from a file has no whitespace at either end |
| DocgptMain.PipedSuccessIsLongEnough | docgpt/main.py:39-50 | a successful resolution without a source came from piped input of at least 40 characters, and its path is `.` |
| DocgptMain.BlankFileStopsMain | docgpt/main.py:134-136 | an all-whitespace file resolves without a fault yet to empty text, so `main` stops at its source check |
| DocgptMain.PipedTargetRunRaises | docgpt/main.py:41 | as written, `docgpt --target out.py` with a file piped in makes `fileinput.input()` open a file named `--target`, which raises when no such file exists |
| DocgptMain.PipedRunWithoutArgumentsRefused | docgpt/main.py:101-105 | as written, the only piped run that reads standard input has no arguments, and `validate_args` refuses it for lack of both source and target |
| DocgptMain.PipedTargetRunAccepted | docgpt/main.py:38-50 | as intended, piped text of at least 40 characters with a non-empty target resolves to that text with path `.`, passes `validate_args`, and is written to the target as given |
| DocgptMain.NoTarget | docgpt/main.py:72 | `not target`: no target, or the empty string |
| DocgptMain.GetTarget | docgpt/main.py:64-84 | overwrite returns the source path unchanged; otherwise the result ends with the source's extension; the default is `<root>_docgpt<ext>`; an explicit target is kept when it already ends with the extension and gets it appended otherwise |
| DocgptMain.TargetKeepsExplicitPrefix | docgpt/main.py:77-82 | an explicit target is a prefix of the result, so nothing of it is replaced |
| DocgptMain.NoExtensionKeepsTarget | docgpt/main.py:80-82 | a source without an extension, such as `.` for piped input, leaves an explicit target as given |
| DocgptMain.GetTargetIdempotent | docgpt/main.py:80-82 | passing a resolved target back in as the explicit target gives the same target |
| DocgptMain.DefaultTargetExample | docgpt/main.py:72-73 | `/path/to/sample.py` without a target resolves to `/path/to/sample_docgpt.py` |
| DocgptMain.ExplicitTargetExample | docgpt/main.py:77-82 | source `/path/to/sample.cpp` with target `new_target` resolves to `new_target.cpp` |
| DocgptMain.ExplicitTargetCompoundExample | docgpt/main.py:80-82 | source `/path/to/sample.cpp` with target `new_target.py` resolves to `new_target.py.cpp` |
| DocgptMain.ValidateArgs | docgpt/main.py:87-108 | refuses exactly three combinations: overwrite without a source, overwrite with a target, and neither source nor target |
| DocgptMain.LacksValue | docgpt/main.py:176 | the flag at a position swallows no value: it is last, or the next argument starts with `--` |
| DocgptMain.WithSourceFlag | docgpt/main.py:168-171 | the result starts with a flag and ends with all process arguments after the program name, in order; it is one longer than those arguments, with `--source` in front, exactly when the first of them is not a flag |
| DocgptMain.WithOverwriteValue | docgpt/main.py:173-177 | a first `--overwrite` that lacks a value gets exactly one element, `true`, inserted right after it, and removing that element gives back the input; in every other case the list is returned unchanged; the first `--overwrite` keeps its position |
| DocgptMain.InsertTrueGivesValue | docgpt/main.py:174-177 | after the insertion, the first `--overwrite` is still at the same position and is followed by `true`, which is not a flag |
| DocgptMain.RewrittenOverwriteHasValue | docgpt/main.py:174-177 | after the rewrite, the first `--overwrite` is always followed by a value that is not a flag |
| DocgptMain.OverwriteWithValueUnchanged | docgpt/main.py:176 | a first `--overwrite` that already has a value leaves the list unchanged |
| DocgptMain.Cli | docgpt/main.py:164-181 | with fewer than two process arguments nothing is rewritten; otherwise the list handed to the parser is the rewritten one, within one element of the process argument count either way, starts with a flag, and its first `--overwrite` has a value |
| DocgptMain.ExitCode | docgpt/main.py:129-161 | status 0 exactly for an exported result, 1 for every stop |
| DocgptMain.Run | docgpt/main.py:111-161 | `main` stops at the first failing check, in this order: API key, source text, prompt length, arguments; it exports exactly when all of them pass, writing to the resolved target the cleaned completion requested with `4097 - estimate` tokens |
| PydocGptMain.EstimateNumTokens | pydoc_gpt/main.py:120-122 | the estimate is the piece count times 1.27, truncated: it lies within 1 below that product |
| PydocGptMain.EstimateExample | tests/test_main.py:28-30 | `this is/a+4` is estimated as `int(7 * 1.27)`, which is 8 |
| PydocGptMain.ValidatePromptLength | pydoc_gpt/main.py:249-260 | accepts exactly the estimates of at most 1800 |
| PydocGptMain.AcceptedPromptLeavesBudget | pydoc_gpt/main.py:223 | for an accepted prompt, `max_tokens = 4097 - estimate` lies between 2297 and 4096 |
| PydocGptMain.ResolveSource | pydoc_gpt/main.py:125-166 | only a source ending in `.py` is looked up, with the same faults and stripping as the current version; any other case falls through to piped input |
| PydocGptMain.GetSourceCode | pydoc_gpt/main.py:125-166 | reading `stdin` line by line gives exactly `ResolveSource`'s result |
| PydocGptMain.NonPySourceFallsThrough | pydoc_gpt/main.py:126-129 | a source that does not end in `.py` resolves exactly as no source at all |
| PydocGptMain.NoTarget | pydoc_gpt/main.py:192 | `not target`: no target, or the empty string |
| PydocGptMain.GetTarget | pydoc_gpt/main.py:186-202 | overwrite returns the source path unchanged; otherwise the result always ends in `.py`; the default is `<root>_pydoced.py`; an explicit target gets `.py` appended unless it ends with it |
| PydocGptMain.DefaultTargetExample | tests/test_main.py:6-10 | `/path/to/sample.py` without a target resolves to `/path/to/sample_pydoced.py` |
| PydocGptMain.GetTargetIdempotent | pydoc_gpt/main.py:199-200 | passing a resolved target back in as the explicit target gives the same target |
| PydocGptMain.ValidateArgs | pydoc_gpt/main.py:205-216 | refuses exactly overwrite without a source, and neither source nor target |
| PydocGptMain.CliArgs | pydoc_gpt/main.py:305-311 | the argument list is rewritten exactly when there is a first argument that is not a flag, and then it is `--source` followed by all the arguments |
| PydocGptMain.Run | pydoc_gpt/main.py:262-302 | `main` stops at the first failing check, in this order: API key, arguments, source text, prompt length; it exports exactly when all of them pass, writing to the target resolved before the prompt gate |
| PydocGptMain.NonPyOverwriteTargetsCurDir | pydoc_gpt/main.py:186-189 | with overwrite, a non-`.py` source and enough piped text, the arguments pass and the target is the current directory `.` itself |
| Env.FileInput | docgpt/main.py:41 | `fileinput.input()` without arguments reads standard input when there are no process arguments; otherwise it raises exactly when some argument other than `-` is not a regular file, and else returns every named file's contents in order, with standard input at the first `-` and nothing at a later one |
| Env.ReadFiles | pydoc_gpt/main.py:149 | reading the named files in order raises exactly when one of them is unreadable; a successful read is the concatenation, position by position, of each file's contents, standard input at the first `-` not yet read, and nothing at a later `-` |
| Env.FileInputReadsEveryFile | docgpt/main.py:41 | with process arguments, no `-` and every name a regular file, the text read is those files' contents joined in order |
| Env.DashTwiceReadsStdinOnce | docgpt/main.py:41 | with the arguments `- -`, standard input is read once and the second `-` adds nothing |
| Env.FilesIgnoreStdin | docgpt/main.py:41 | when no named file is `-`, standard input has no influence on what is read |
| Env.FileInputIgnoresStdin | docgpt/main.py:41 | with process arguments and no `-` among them, `fileinput.input()` gives the same result whatever is piped in |
| Versions.ValidateArgsNarrowed | docgpt/main.py:87-108 | every combination the current check accepts, the earlier one accepts too; the only combination newly refused is overwrite together with a source and a target |
| Versions.EstimateGrew | docgpt/model.py:16 | the current coefficient never estimates fewer tokens than the earlier one |
| Versions.SameResolutionForPySources | pydoc_gpt/main.py:129-144 | for a `.py` source both versions resolve identically |
| Versions.SameResolutionWithoutSource | pydoc_gpt/main.py:146-166 | without a source both versions resolve identically |
| Versions.SameExplicitTargetForPySources | pydoc_gpt/main.py:196-200 | for a `.py` source an explicit target resolves identically in both versions |
| Versions.DefaultTargetsDifferInTag | pydoc_gpt/main.py:192-193 | for a `.py` source the two default targets differ only in the tag, `_docgpt.py` against `_pydoced.py` |

## Left out

- The completion service (`openai.Completion.create`) is the parameter `complete` of `Run`. Its sampling settings and stop tag are not modelled.
- The warning printed when the completion uses up the context is not modelled, because it prints and changes no result.
- The debug logging of the completion is not modelled, because it has no effect on the result.
- The API-key lookup (argument, environment, key file) and its caching are not modelled. `Run` takes the key that lookup returned, and the empty key stands for "none found".
- The prompt template (`get_prompt`) is the parameter `getPrompt`, because its text has no decision logic.
- The banner, the coloured warnings and all printed messages are not modelled. Each failure is a `fault`/`Stage` value instead.
- Argument parsing by `jsonargparse`, `sys.exit` and the final file write are not modelled. `Cli` returns the argument list handed to the parser, and `Run` returns the exit outcome and the text to write.
- `ResolveSource` and `GetSourceCode` in both versions read piped input from standard input, given as its lines. They do not read the files that `fileinput.input()` takes from `sys.argv[1:]` (docgpt/main.py:41, pydoc_gpt/main.py:149). `Env.FileInput` models that reading on its own. "## Findings" records the difference.
- File reading errors and UTF-8 decoding are not modelled. A file's contents are a string in the file-system map.
- DocgptModel.EstimateNumTokens, PydocGptMain.EstimateNumTokens: compute the product exactly on reals rather than in IEEE doubles. The double nearest 1.28, and the one nearest 1.27, lies above the decimal value, so truncating the rounded product gives the same integer for any realistic piece count. This is argued, not proved.
- ReSplit.Split: Python's Unicode `\w` class is the parameter `isSep`. Only its ASCII part is pinned down, by `PythonOnAscii`.
- The post-processing of the earlier `invoke_oai_model` (pydoc_gpt/main.py:243-244) is the same as the current one, so `PydocGptMain.Run` reuses `DocgptModel.CleanupCompletion`.
- The earlier script's `code_to_chars`, `print_warning` and `print_error` only colour terminal output, so they are not modelled.

## Findings

| source | as written | input that shows it | evidently intended | confidence | as-written member | corrected member |
|---|---|---|---|---|---|---|
| docgpt/main.py:41 | `fileinput.input()` without arguments reads the files named in `sys.argv[1:]`, and reads standard input only when that list is empty or at a `-`. `cli` hands its rewritten list to the parser (docgpt/main.py:179) but leaves `sys.argv` as it is. The no-argument piped run reads standard input but is then refused for lack of a target (docgpt/main.py:101-105). So no piped run reaches the export. pydoc_gpt/main.py:149 has the same call. | `docgpt --target out.py` with a file piped in, with no file named `--target` | the piped branch reads standard input, and the documented text is written to `out.py` | not executed | DocgptMain.PipedTargetRunRaises | DocgptMain.PipedTargetRunAccepted |
