# test_cmd, modelled in Dafny

`test_cmd` tests a command-line program from a directory of fixtures. Every
file whose name has `.in` as its second-to-last extension is an input
(`add.in.txt`). The case name is the stem with dashes read as spaces. The
expected outputs sit beside the input as `add.out.txt` and `add.err.txt`.
The manifest `tests.json` maps case names to objects of
flags. Those flags replace the placeholder segment `@` of the command line,
rendered as `flag, json.dumps(value)` pairs. The program runs once per case
with the input file on standard input. Both output streams are normalised
(CR LF to LF, and/or trailing spaces and newlines trimmed) and compared
with the expected files. A missing expected file demands empty output. The
run exits 0 when every case passes and 1 when one fails. A bad command
line is meant to exit 2, but on Python 3 it exits 1 (see Findings).

This project models the decision logic of `test_cmd.py`:
- fixture names (`Paths`, including `posixpath.splitext`);
- output normalisation (`Normalize`);
- argument binding (`Json` for `json.dumps`, `Binding`);
- case assembly (`OrderedMaps` for the `OrderedDict`, `Sorting` for `sorted`, `Cases`);
- the verdict of a case (`Verdict`);
- the summary and exit status of a run (`Runner`).

`Wrappers` and `Seqs` hold shared helpers.

Every case is constructed with the same command list object. Binding gives
a named case a fresh list. Clearing then removes one `@` per case from
whichever list the case holds, so cases still on the shared list each
remove one from the same list. `Cases.CmdRef` models that aliasing
explicitly. `Cases.ClearAllAsValues` proves that, with at most one `@` (which
validation enforces), the aliasing gives every case the command a private
copy would. `Cases.SharedListLosesBothPlaceholders` shows the aliasing
matters with two.

The environment is passed in as parameters:
- the directory listing;
- whether the tests directory and the program exist;
- the regular files of the tests directory, as a map from name to bytes;
- the manifest, as missing, undecodable or a decoded JSON value;
- a function from command line and input bytes to the captured output.

Some behaviours of the code are easy to expect otherwise:
- `tests.json` is not optional. `set_cmdline_args_from_tests_json` always opens it (test_cmd.py:232), so a missing file raises, and the run ends with an uncaught exception, exit status 1 (`Cases.GetTestCasesErrors`).
- `rtrim` strips only spaces (0x20) from line ends, not tabs, though its help text speaks of "trailing whitespaces" (test_cmd.py:333, test_cmd.py:92; `Normalize.RTrim`, `Normalize.RTrimByBytes`).
- The conversion is not idempotent. With CR LF conversion on, `CR CR LF` becomes `CR LF` and then `LF` (`Normalize.ToUnixNotIdempotent`, `Normalize.ConvertNotIdempotent`). It is idempotent without it (`Normalize.ConvertIdempotentWithoutToUnix`).
- A missing expected file and an empty one give the same verdict. Only the report text differs (`Verdict.MissingSameAsEmpty`).

A run as a whole (`Runner.Run`, `Runner.Execute`) is built on the corrected
case assembly `Cases.GetTestCases`; the assembly as written, which crashes
on list-valued manifest members under Python 3, is `Cases.GetTestCasesAsWritten`
(see Findings).

## Model

| member | source | states |
|---|---|---|
| Paths.SplitExt | test_cmd.py:55-56 | the root and extension concatenate back to the name; a non-empty extension is one dot plus non-dot, non-slash characters after a stem that has a non-dot character, so leading dots never start an extension |
| Paths.SplitExtOfJoin | test_cmd.py:55-56 | splitting a stem joined with an extension gives back exactly that stem and extension |
| Paths.RootAndExt | test_cmd.py:62-66 | succeeds exactly for input file names, and then the name is stem + `.in` + extension with a real stem and a non-empty extension |
| Paths.TestName | test_cmd.py:54-59 | the name assertion fails exactly for non-input names; the case name has no dash and the stem's length |
| Paths.DisplayName | test_cmd.py:59 | the display name has no dash, keeps the length and every non-dash character |
| Paths.StdoutFileName | test_cmd.py:69-71 | for input names only, the expected-stdout name is the same stem and extension with `.out` in place of `.in` |
| Paths.StderrFileName | test_cmd.py:74-76 | for input names only, the expected-stderr name is the same stem and extension with `.err` in place of `.in` |
| Paths.IsInputFileIff | test_cmd.py:204-210 | `is_input_file` accepts exactly the names made of a stem with a non-dot character, `.in` and a non-empty extension |
| Paths.ReplaceChar | test_cmd.py:59 | `str.replace` of one character: same length, every occurrence replaced, every other character kept in place |
| Paths.InputFileShape | test_cmd.py:204-210 | every stem + `.in` + extension is an input file, and its case name and expected-file names are derived from that stem and extension |
| Paths.BareInNotInput | test_cmd.py:204-210 | a plain `name.in` with nothing after `.in` is not an input file |
| Paths.DashAndSpaceCollide | test_cmd.py:59 | any two input files whose stems differ only in dashes versus spaces, position by position, yield the same case name |
| Normalize.ToUnix | test_cmd.py:89-90 | the result is no longer than the input, unchanged without CR, and keeps every non-CR byte in order |
| Normalize.ToUnixUndoesToDos | test_cmd.py:90 | turning every LF into CR LF and back gives the original bytes |
| Normalize.ToUnixNotIdempotent | test_cmd.py:90 | CR CR LF needs two passes to lose both CRs |
| Normalize.RTrim | test_cmd.py:91-92 | the result has no space before a line break or at the end and no trailing LF, and keeps every byte other than space and LF in order |
| Normalize.RTrimByBytes | test_cmd.py:92 | byte by byte, `rtrim` keeps everything except each space that only spaces separate from a line feed or the end, and then drops the trailing line feeds; so every line feed before the last non-blank byte survives |
| Normalize.StripLinesDropsLineEndSpaces | test_cmd.py:92 | splitting at LF, stripping trailing spaces from each line and joining drops exactly the spaces that end a line |
| Seqs.RStrip | test_cmd.py:92 | `rstrip` of one byte: the result is a prefix, everything cut is that byte, and the result does not end in it |
| Seqs.Split | test_cmd.py:92 | `split` gives at least one piece and no piece holds the separator |
| Seqs.JoinSplit | test_cmd.py:92 | joining the pieces of a split with the separator gives back the original |
| Seqs.SplitJoin | test_cmd.py:92 | splitting a join of separator-free pieces gives back the pieces |
| Normalize.TrimmedIsFixed | test_cmd.py:91-92 | trimming bytes already in trimmed form changes nothing |
| Normalize.RTrimIdempotent | test_cmd.py:91-92 | trimming twice equals trimming once |
| Normalize.RTrimEmptyIff | test_cmd.py:91-92 | trimming gives nothing exactly when the bytes are only spaces and line feeds |
| Normalize.Convert | test_cmd.py:88-93 | identity with both options off; trimmed form with rtrim; content kept under rtrim alone; non-CR bytes kept under to-unix alone |
| Normalize.ConvertEmpty | test_cmd.py:88-93 | empty bytes convert to empty bytes under every option |
| Normalize.ConvertIdempotentWithoutToUnix | test_cmd.py:88-93 | without CR LF conversion, converting twice equals converting once |
| Normalize.ConvertNotIdempotent | test_cmd.py:88-93 | with both options on, a second conversion can still change the bytes |
| Json.EscapeChar | test_cmd.py:217 | every character escapes to printable ASCII, and printable characters other than quote and backslash stand for themselves |
| Json.QuotePlain | test_cmd.py:217 | a string of plain printable characters dumps as itself between double quotes |
| Json.DecimalRoundTrip | test_cmd.py:217 | the decimal text of a natural number reads back as that number |
| Json.Dumps | test_cmd.py:217 | every dumped value is printable ASCII |
| Json.DumpsScalars | test_cmd.py:217 | plain strings are quoted verbatim, naturals read back, negatives are a minus sign before the positive text |
| OrderedMaps.Get | test_cmd.py:236-237 | lookup fails exactly for absent keys and otherwise returns a value stored under the key |
| OrderedMaps.Put | test_cmd.py:258 | an existing key keeps its place, a new key goes last; the key then maps to the new value and every other key is unchanged |
| OrderedMaps.GetAt | test_cmd.py:258 | with distinct keys, each stored pair is what a lookup of its key returns |
| OrderedMaps.FromPairsKeySet | test_cmd.py:254-258 | building from pairs gives each key of the pairs exactly once |
| OrderedMaps.FromPairsKeyOrder | test_cmd.py:254-258 | the keys come out in the order of their first occurrence |
| OrderedMaps.FromPairsValues | test_cmd.py:254-258 | each key holds the value of its last occurrence |
| Sorting.Insert | test_cmd.py:252 | inserting into a sorted list keeps it sorted and adds exactly that element |
| Sorting.Sort | test_cmd.py:252 | the result is sorted in code-point order and a permutation of the input |
| Sorting.SortedUnique | test_cmd.py:252 | two sorted permutations of the same names are equal, so the order does not depend on the listing order |
| Binding.ParseArgs | test_cmd.py:212-219 | two segments per manifest entry |
| Binding.ParseArgsPositions | test_cmd.py:212-219 | two segments per flag, in the manifest's order: the flag, then its value as JSON text |
| Binding.ParseArgsConcat | test_cmd.py:212-219 | the flags of two parts of an object are the flags of each part, concatenated |
| Binding.ParseArgsKeepsOrder | test_cmd.py:215-217 | flags keep their object order, not alphabetical order |
| Binding.ReplaceAtSign | test_cmd.py:221-228 | without `@` the command is unchanged; with arguments free of `@` no `@` is left |
| Binding.ReplaceAtSignConcat | test_cmd.py:221-228 | replacing in two parts of a command is replacing in each part |
| Binding.ReplaceSingleAtSign | test_cmd.py:221-228 | with a single `@`, the arguments take its place and nothing else moves |
| Binding.BindStringValue | test_cmd.py:212-228 | binding one string flag to `prog @` gives `prog flag "value"` |
| Binding.ClearAtSign | test_cmd.py:243-248 | without `@` nothing changes; otherwise exactly the first `@` is removed |
| Seqs.RemoveFirst | test_cmd.py:246 | `list.remove` with its `ValueError` swallowed: without the element nothing changes, otherwise exactly its first occurrence is removed |
| Binding.ClearSingleAtSign | test_cmd.py:246 | with a single `@`, clearing removes just that segment |
| Binding.ClearTwoAtSigns | test_cmd.py:246 | clearing removes only the first of two `@` segments |
| Binding.ClearIsEmptyBinding | test_cmd.py:221-248 | with at most one `@`, clearing is binding to no arguments |
| Binding.CheckPlaceholders | test_cmd.py:313-318 | the scan accepts exactly the commands with at most one `@` |
| Cases.InputFiles | test_cmd.py:252 | every kept name is an input file |
| Cases.InputFilesCount | test_cmd.py:252 | the kept names are input files, each as often as in the listing, and every other name is dropped |
| Cases.SortedInputs | test_cmd.py:251-252 | the names the cases are built from are sorted and are all input files |
| Cases.SortedInputsCount | test_cmd.py:251-252 | as a multiset, the sorted names are exactly the input files of the listing |
| Cases.NewCase | test_cmd.py:37-49 | construction succeeds exactly for input names, and then the case has the dash-free stem as name and the `.out`/`.err` names of the same stem and extension, on the shared command |
| Cases.BuildCases | test_cmd.py:256-258 | building the cases fails exactly when some name is not an input file |
| Cases.BuildCasesFromPairs | test_cmd.py:254-258 | storing each new case under its name is building a dictionary from the (name, case) pairs |
| Cases.CaseTable | test_cmd.py:250-258 | one case per distinct name, in the order of each name's first file, holding the case of its last file |
| Cases.BindEntry | test_cmd.py:235-241 | an entry fails only when it names a case and its flags are not an object; nothing but commands changes |
| Cases.BindManifest | test_cmd.py:230-241 | binding fails, with the flags error, exactly when some entry naming a case has flags that are not an object; otherwise only commands change |
| Cases.BindManifestCommands | test_cmd.py:230-241 | after binding, a case named in the manifest holds the shared command with its flags in place of `@`, and every other case still holds the shared list |
| Cases.ClearAll | test_cmd.py:243-248 | clearing gives back one case for each case given |
| Cases.ClearAllFrame | test_cmd.py:243-248 | clearing keeps the cases, their order and everything but the commands, and which cases hold the shared list |
| Cases.ClearAllAsValues | test_cmd.py:243-248 | with at most one `@` in the shared list, every case ends with what clearing its own copy gives |
| Cases.SharedListLosesBothPlaceholders | test_cmd.py:243-248 | with two `@` and two cases on the shared list, the list loses both, though each case alone would lose one |
| Cases.Resolve | test_cmd.py:42-49 | one fixture per case, with the case's name and file names |
| Cases.Assemble | test_cmd.py:260-263 | binding then clearing fails exactly on a named case with non-object flags, and otherwise gives one fixture per case in case order |
| Cases.GetTestCases | test_cmd.py:250-263 | assembly never fails on a fixture name, because only input files reach construction |
| Cases.GetTestCasesErrors | test_cmd.py:230-241 | a missing, undecodable or non-object manifest fails in that order; otherwise assembly fails exactly when a case named in the manifest has non-object flags |
| Cases.GetTestCasesNames | test_cmd.py:250-263 | the fixtures have distinct names, exactly the names of the input files, in order of each name's first sorted file, with the file names of its last sorted file |
| Cases.GetTestCasesCommands | test_cmd.py:250-263 | with at most one `@` and a manifest of objects, assembly succeeds and each fixture runs its own bound-and-cleared command |
| Cases.GetTestCasesAsWritten | test_cmd.py:178-186 | a manifest with a non-empty list as an object member crashes assembly; any other manifest behaves as in the intended model |
| Cases.ListFlagCrashes | test_cmd.py:178-186 | a list-valued flag crashes the code as written, where the intended binding renders it as JSON text |
| Verdict.StreamPasses | test_cmd.py:126-146 | a stream passes exactly when its normalised output equals the normalised expected file, a missing file counting as empty |
| Verdict.CaseSucceeds | test_cmd.py:115-170 | a passing case had a readable input file and a command that started |
| Verdict.CaseSucceedsIff | test_cmd.py:115-170 | for every option setting, a case passes exactly when its input file exists, its command starts, and each normalised stream equals its normalised expected file, a missing file counting as empty |
| Verdict.ExitStatusIgnored | test_cmd.py:119-170 | changing the exit status never changes the verdict |
| Verdict.ExactWithoutOptions | test_cmd.py:126-168 | with both options off, each stream must equal its expected file byte for byte, or be empty when there is none |
| Verdict.MissingSameAsEmpty | test_cmd.py:126-168 | adding an empty file where an expected file was missing changes no verdict |
| Verdict.BlankOutputPassesUnderRTrim | test_cmd.py:141-146 | under rtrim alone with no expected file, a stream passes exactly when it holds only spaces and line feeds |
| Runner.ConfigCheck | test_cmd.py:306-318 | validation passes exactly when the directory exists, the program is a file and there is at most one `@`; a missing directory is reported first, then a missing program, then a second `@` |
| Runner.Summarize | test_cmd.py:289-300 | the count is the number of passing cases, and the run passes exactly when every case passed |
| Runner.Run | test_cmd.py:351-353 | with the corrected assembly, a run is rejected exactly for an invalid command line, and an assembly crash is never a fixture-name one |
| Runner.ExitStatus | test_cmd.py:351-356 | status 0 exactly when every case passed, 2 exactly for a configuration error, 1 otherwise |
| Runner.Execute | test_cmd.py:281-300 | validating, assembling, judging and counting step by step gives the exit status of `Run`, and a completed run reports the number of passing cases |
| Runner.ExitStatusAsWritten | test_cmd.py:354-356 | as written, a configuration error exits with 1; every other outcome exits as intended |
| Runner.ConfigErrorLooksLikeFailure | test_cmd.py:354-356 | as written, a configuration error and a failing run share an exit status, which the intended statuses keep apart |
| Runner.RunPassesIff | test_cmd.py:281-300 | in the corrected assembly, a validated run with a manifest of objects completes, each case runs its own bound command, and the run passes, with status 0, exactly when every case passes |
| Runner.NoInputFilesPasses | test_cmd.py:289-297 | in the corrected assembly, a tests directory without input files passes when tests.json holds an object |

## Left out

- Process execution (`run_cmd`, test_cmd.py:95-109): a parameter maps command line and input bytes to the captured streams and exit status, or to nothing when the process cannot start.
- Threads, the CPU-count semaphore and the start-then-join order (test_cmd.py:30, 286-291): verdicts do not depend on scheduling, and the model judges cases in case order, the order they are reported in.
- File reading (`read_file`, test_cmd.py:78-86): files are a map from name to bytes. Python 3's text-mode read with newline translation and UTF-8 re-encoding is not modelled; the map holds the bytes `read_file` returns.
- `path.join`, `listdir`, `path.isdir` and `path.isfile`: names are relative to the tests directory, and the listing and file tests are parameters.
- `json.loads` and `_decode_dict` (test_cmd.py:190-202, 233): the manifest is given decoded, or as missing or undecodable. Only the Python 3 crash in `_decode_list` is modelled, as a finding.
- Floating-point numbers in `json.dumps`: `Json` has no float values.
- Reporting: `color`, `detail`, the diff and echo output (test_cmd.py:111-113, 131-144, 172-175, 265-279, 284, 292-299) print only and decide nothing.
- Argument parsing in `main` (test_cmd.py:320-349) and `setup.py`: the model starts from the command list and option flags.
- Windows path rules: `Paths.SplitExt` is the POSIX `splitext`.
- Cases.GetTestCasesCommands: assumes every manifest entry is an object and manifest keys are distinct. The code tolerates any value for names that match no case, and a decoded dictionary never repeats a key.
- Runner.RunPassesIff: the same assumptions as `Cases.GetTestCasesCommands`.
- Runner.Run: built on the corrected assembly `Cases.GetTestCases`, so a manifest with a non-empty list as an object member completes instead of crashing with exit status 1 as the code does on Python 3 (test_cmd.py:181); `Cases.GetTestCasesAsWritten` models that crash. `Runner.Execute`, `Runner.RunPassesIff` and `Runner.NoInputFilesPasses` inherit this.
- Cases.ClearAll: its own contract states only the length; the frame is `Cases.ClearAllFrame` and the commands are `Cases.ClearAllAsValues`, kept as separate lemmas so that proofs unfolding `ClearAll` stay small.
- Binding.ParseArgs: its own contract states only the length; the positions are `Binding.ParseArgsPositions`, kept separate for the same reason.

## Findings

| source | as written | input that shows it | evidently intended | confidence | as-written member | corrected member |
|---|---|---|---|---|---|---|
| test_cmd.py:354-356 | the handler prints `ex.message`; Python 3 exceptions have no `message` attribute, and line 28 imports `diff_bytes`, which only Python 3 has | a tests directory that does not exist: the handler raises, and the process exits with status 1 | print the error and exit with status 2 | high; not executed | Runner.ExitStatusAsWritten, Runner.ConfigErrorLooksLikeFailure | Runner.ExitStatus |
| test_cmd.py:178-186 | `_decode_list` tests `isinstance(item, unicode)` without the version guard its caller uses; on Python 3 `unicode` is undefined | a manifest `{"t": {"--n": [1]}}`: decoding raises, and the run crashes before any case | decode list values like all others, so the flag binds as `--n [1]` | high; not executed | Cases.GetTestCasesAsWritten, Cases.ListFlagCrashes | Cases.GetTestCases, Cases.GetTestCasesCommands |
