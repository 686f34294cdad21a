# make-tools in Dafny

A model of the parsing core of make-tools and of the three formatters its
command-line tools apply to the parser's output, with proofs of what they
promise.

The library (`maketools.go`):

- finds the makefile of the current directory (`FindMakefile`);
- reads every target declaration line `name: dependencies # description` into a help line;
- follows the `include` and `-include` directives of the makefile, expanding `~/` and globbing each pattern;
- merges the help lines of the included makefiles;
- sorts the result by target name.

The front ends format that list:

- `make-help` prints one aligned, coloured line per target;
- `make-desc` looks up one target's description;
- `make-targets` prints the sorted names on one line.

Modules:

- `Results` (results.dfy): `Option` and `Result`. `Result` stands for Go's `(value, error)` pairs.
- `Text` (text.dfy): the parts of Go's `strings` package the tools use.
  - `TrimSpace` with `unicode.IsSpace`, `Split` on one character, `Join` and `Repeat`.
  - Go's string order `<` (`StrLe`) and `len` in bytes (`ByteLen`).
  - A Go string is the sequence of code points its UTF-8 encodes.
- `Sorting` (sorting.dfy):
  - `sort.Sort` over `HelpLineSorter` and `sort.Strings`, as one in-place sort of an array by a key, using Less and Swap;
  - a reference insertion sort on values, `SortStrings`.
- `Grammar` (grammar.dfy): the two regular expressions of `maketools.go`, written out as matchers.
  - `MatchTargetLine` is the declaration pattern of line 18, applied to each line.
  - `IncludeArgs` is the include pattern of line 21, applied to the whole text. Its `\s+` also matches line breaks, so a directive with nothing after it on its line takes the next line as its argument (`IncludeSpansLines`).
- `MakeTools` (maketools.dfy): the library.
  - The file system and the user database are a `Host` value: `os.Stat`, the home directory, `filepath.Join`, `Glob` and `Clean`, and the readable files as a map from path to text.
  - `Collect` is the specification of `ParseMakefile`: the help lines of the text, then those of each included makefile in turn, before sorting. `ParseMakefile` is proved to return those lines sorted by name, or the same error.
  - Include recursion is bounded by a `fuel` argument. The inner loop of `IncludedFiles` is the method `GlobPatterns`. The loop over the included files in `ParseMakefile` is `ParseIncludedFiles`, its body is `ParseIncluded`, and the sort is `SortHelpLines`.
- `HelpCommand`, `DescCommand`, `TargetsCommand` (help.dfy, desc.dfy, targets.dfy): `HelpLineFormatter`, `GetDescription` and `TargetListFormatter`.

Behaviours of the code that the model keeps, though a reader might expect
otherwise:

- Dependencies are split at single spaces, not at any white space. `"b  c"` gives `["b", "", "c"]`, and a tab is not a separator (`DependenciesKeepEmptyPieces`, `DependenciesKeepTabs`).
- The words of an include directive are also split at single spaces.
- The description is not trimmed at its end.
- An included makefile that cannot be read ends the process (`os.Exit(1)` in `ReadFile`); no error is returned. The model's outcome `Exited(path)` says so.
- The help lines are sorted at every level of inclusion, and duplicate names are kept.

## Model

| member | source | states |
|---|---|---|
| Text.TrimSpace | maketools.go:113 | the result is empty iff the text is all white space; otherwise it is the text between the leading and the trailing white space, and neither of its ends is white space |
| Text.Split | maketools.go:113 | the pieces are never none, none holds the separator, and joined with the separator they give the text back |
| Text.SplitOfJoin | maketools.go:113 | splitting the join of pieces that do not hold the separator gives the pieces back |
| Text.ByteLen | help/main.go:43-44 | `len` of a string is at least its number of characters, and equal to it for ASCII text |
| Text.Spaces | help/main.go:53 | `strings.Repeat(" ", n)` is n spaces, n bytes long |
| Text.StrLeReflexive | maketools.go:35 | every string is ordered before-or-equal to itself |
| Text.StrLeTotal | maketools.go:35 | any two strings are ordered one way or the other |
| Text.StrLeTransitive | maketools.go:35 | the string order is transitive |
| Text.StrLeAntisymmetric | maketools.go:35 | strings ordered both ways are equal |
| Sorting.Swap | maketools.go:34 | the two elements are exchanged, and the others and the multiset of elements are unchanged |
| Sorting.SortBy | maketools.go:138 | the array is sorted in place by Less on the key and is a permutation of its old contents |
| Sorting.SortedPermutationUnique | targets/main.go:40 | two ascending permutations of the same strings are equal, so sorting strings has one possible result |
| Sorting.Insert | targets/main.go:40 | inserting adds exactly the one element |
| Sorting.SortStrings | targets/main.go:40 | the reference sort returns a permutation of its input |
| Sorting.InsertSorted | targets/main.go:40 | inserting into an ascending sequence keeps it ascending |
| Sorting.SortStringsSorted | targets/main.go:40 | the reference sort's result is ascending |
| Grammar.MatchTargetLine | maketools.go:18 | a matched line has a name of word characters and '-' and dependency text without '#' |
| Grammar.DepsText | maketools.go:18 | the dependency group is the longest start without '#' of the text after the colon and the blanks that follow it |
| Grammar.Description | maketools.go:18 | the description does not start with a blank: the blanks after '#' are dropped |
| Grammar.MatchTargetLineAccepts | maketools.go:18 | a line matches iff it starts with a non-empty run of word characters and '-' followed by ':' |
| Grammar.MatchTargetLineDecomposes | maketools.go:18 | a matched line is name ':' blanks dependencies, then optionally '#' blanks description; there is no description when there is no '#' |
| Grammar.MatchTargetLineReads | maketools.go:18 | conversely, every line of that shape matches with exactly that name, dependency text and description |
| Grammar.TargetMatches | maketools.go:110 | `FindAllStringSubmatch` of the declaration pattern: the matches of the text's lines, in line order (stated by `TargetMatchesOfLines`) |
| Grammar.MatchesInWellFormed | maketools.go:110 | every match has a target name and dependency text without '#' |
| Grammar.TargetMatchesOfLines | maketools.go:18 | in a text joined from lines, the pattern matches line by line, in order |
| Grammar.MatchInclude | maketools.go:21 | a directive's argument holds no line break, and matching resumes at a line break or at the end |
| Grammar.MatchIncludeAccepts | maketools.go:21 | a directive is read iff the text starts with `include` or `-include` followed by white space |
| Grammar.MatchIncludeDecomposes | maketools.go:21 | a read directive is the keyword, all the white space after it, the argument up to the end of its line, and the rest; an empty argument leaves no rest |
| Grammar.MatchIncludeReads | maketools.go:21 | conversely, every text of that shape is read with exactly that argument and rest |
| Grammar.IncludeArgs | maketools.go:78 | no argument holds a line break |
| Grammar.IncludeArgsOfDirective | maketools.go:78 | a directive line with an argument contributes that argument, ahead of the arguments of the lines after it |
| Grammar.IncludeArgsOfOtherLine | maketools.go:78 | a line that is not a directive contributes nothing |
| Grammar.IncludeSpansLines | maketools.go:21 | `include` alone on its line takes the next line as its argument |
| MakeTools.FileExists | maketools.go:40-45 | a file exists iff `os.Stat` succeeds and does not report a directory (used by `FindMakefile`) |
| MakeTools.FindMakefile | maketools.go:49-56 | the result is "" iff none of GNUmakefile, makefile, Makefile exists as a regular file; otherwise it is the first of them that does |
| MakeTools.ExpandUserHome | maketools.go:61-71 | a path starting with "~/" is joined to the home directory, any other path is returned as it is |
| MakeTools.ReadFile | maketools.go:96-103 | the text of the file at the cleaned path, or none where the process exits |
| MakeTools.Dependencies | maketools.go:113-116 | the trimmed dependency text split at single spaces, and no dependencies for `[""]` (stated by `DependenciesShape`) |
| MakeTools.DependenciesShape | maketools.go:113-116 | no dependencies iff the trimmed text is empty; otherwise they join with single spaces into the trimmed text; none holds a space, and they are never `[""]` |
| MakeTools.DependenciesOfJoin | maketools.go:113-116 | dependencies written one space apart, followed by any white space, are read back as written |
| MakeTools.DependenciesKeepEmptyPieces | maketools.go:113 | two spaces in a row give an empty dependency |
| MakeTools.DependenciesKeepTabs | maketools.go:113 | a tab does not separate dependencies |
| MakeTools.ToHelpLine | maketools.go:117-121 | a match's help line: group 1 as the name, group 4 as the description, group 2's dependencies (stated by `HelpLinesOfPointwise` and `DeclarationRoundTrip`) |
| MakeTools.HelpLinesOf | maketools.go:112-123 | one help line per declaration match |
| MakeTools.HelpLinesOfPointwise | maketools.go:117-122 | the k-th help line has the name, description and dependencies of the k-th match |
| MakeTools.IncludedFiles | maketools.go:76-91 | the files globbed from every pattern of every directive, in directive, pattern and match order, or the first globbing error |
| MakeTools.GlobPatterns | maketools.go:80-88 | the files globbed from the expanded patterns, in order, or the first error |
| MakeTools.GlobAllStops | maketools.go:84-86 | after a globbing error no further pattern changes the result |
| MakeTools.GlobArgsStops | maketools.go:84-86 | after a globbing error no further directive changes the result |
| MakeTools.GlobAllSucceeds | maketools.go:81-88 | globbing succeeds iff every expanded pattern globs without error |
| MakeTools.GlobAllFirstError | maketools.go:83-86 | a failure is the error of the first pattern that fails, all patterns before it succeeding |
| MakeTools.GlobAllAppend | maketools.go:87 | the files of two runs of patterns are those of the first run followed by those of the second |
| MakeTools.GlobAllOfPlain | maketools.go:81-88 | names that glob to themselves come back unchanged and in order |
| MakeTools.IncludedFilesOfExample | maketools_test.go:34-47 | a blank line, `include a b`, `include c` and a tab line give `[a, b, c]` when each name globs to itself |
| MakeTools.ParseMakefile | maketools.go:109-140 | the help lines of the text followed by those of each included makefile in turn (only the text's own when not recursive), as a permutation sorted by name; or the first include error, prefixed, or the exit on an unreadable file |
| MakeTools.ParseIncludedFiles | maketools.go:129-136 | the help lines of the included files in turn, as a permutation, or the outcome of the first file that does not parse |
| MakeTools.ParseIncluded | maketools.go:130-134 | an included file's sorted help lines; its error prefixed with "parsing included makefile: "; the process exit when it cannot be read |
| MakeTools.SortHelpLines | maketools.go:138 | the help lines sorted by name, a permutation of the input |
| MakeTools.Collect | maketools.go:109-137 | the reference for `ParseMakefile` before sorting: the text's own help lines, then, when recursive, the prefixed include error or those of the included files |
| MakeTools.CollectAll | maketools.go:129-136 | the help lines of the included files in turn, stopping at the first outcome that is not parsed |
| MakeTools.CollectIncluded | maketools.go:130-134 | one included file: expanded, read (the process exits when it cannot be), parsed recursively, its error prefixed |
| MakeTools.CollectFuelMonotone | maketools.go:109-140 | once the fuel suffices, more fuel gives the same outcome: an outcome other than `TooDeep` is that of the unbounded recursion |
| MakeTools.CollectAllFuelMonotone | maketools.go:129-136 | the same for the included files of one makefile |
| MakeTools.CollectIncludedFuelMonotone | maketools.go:130-134 | the same for one included file |
| MakeTools.CollectAllStops | maketools.go:132-134 | once an included file does not parse, the files after it do not change the outcome |
| MakeTools.CollectErrorsArePrefixed | maketools.go:124-137 | every error parsing returns starts with "parsing included makefile: " |
| MakeTools.CollectAllErrorsArePrefixed | maketools.go:129-136 | every error from the included files starts with "parsing included makefile: " |
| MakeTools.OwnHelpLinesWellFormed | maketools.go:110-123 | every help line of the text has a target name and dependencies without spaces that are not `[""]` |
| MakeTools.CollectWellFormed | maketools.go:109-140 | every help line of a successful parse, included makefiles too, is well formed in that sense |
| MakeTools.CollectAllWellFormed | maketools.go:129-136 | every help line of the included files is well formed |
| MakeTools.DeclarationLineMatches | maketools.go:18 | `name: deps # desc` matches with that name, dependency text and description |
| MakeTools.DeclarationRoundTrip | maketools.go:110-122 | a declaration line parses to exactly the help line it declares: its name, description and dependencies |
| HelpCommand.Indent | help/main.go:41-46 | the indentation is the largest byte length of a name over all help lines, muted ones included, and 0 without help lines |
| HelpCommand.HelpLineFormatter | help/main.go:40-64 | the output is the lines of the shown help lines, in order, padded to the widest name, joined with line breaks |
| HelpCommand.Shown | help/main.go:48-51 | every shown help line is one of the help lines (which ones is stated by `ShownSelects`) |
| HelpCommand.ShownSelects | help/main.go:48-51 | muting drops exactly the help lines without a description; without muting every help line is shown |
| HelpCommand.ShownOne | help/main.go:48-51 | one help line is shown unless it is muted for having no description |
| HelpCommand.ShownAppend | help/main.go:48-51 | filtering two runs of help lines gives their filtered runs one after the other, so the shown lines keep their order and appear once each |
| HelpCommand.FormatLine | help/main.go:52-60 | one printed line: the coloured name, padding, the description and the dependencies (stated by `Aligned` and `OneLine`) |
| HelpCommand.BuildLine | help/main.go:52-60 | the line built step by step, the padded name, then the description when there is one, then the dependencies when there are some, is the line `FormatLine` gives |
| HelpCommand.FormatLinesPointwise | help/main.go:48-62 | the k-th line is the line of the k-th shown help line |
| HelpCommand.OneLine | help/main.go:52-60 | a help line without line breaks is printed on one line |
| HelpCommand.HelpTextLines | help/main.go:61-63 | split at line breaks, the output gives back one line per shown help line, so there is no trailing line break |
| HelpCommand.HelpTextEmpty | help/main.go:47-63 | the output is empty iff no help line is shown |
| HelpCommand.PaddedWidth | help/main.go:52-53 | the padded name is `indent` bytes wide: the name, then spaces |
| HelpCommand.Aligned | help/main.go:52-60 | the visible line is the name padded to `indent` bytes, then " " and the description iff there is one, then " [" dependencies "]" iff there are some |
| HelpCommand.HelpTextAligned | help/main.go:41-62 | every printed line shows its name padded to the widest name, so the descriptions start in one column |
| DescCommand.GetDescription | desc/main.go:49-56 | the description of the first help line with the target's name, "" when there is none; a non-empty result is the description of a help line with that name |
| TargetsCommand.Names | targets/main.go:36-39 | one name per help line, in order |
| TargetsCommand.TargetListFormatter | targets/main.go:35-42 | the names, as their one ascending permutation, joined with single spaces; "" for no help lines |
| TargetsCommand.TargetListSplits | targets/main.go:40-41 | when no name holds a space, splitting the output at spaces gives every name once per help line, ascending |

## Left out

- The two regular expressions are written out as matchers for their own patterns; Go's `regexp` package in general is not modelled.
- `ReadFile` is a lookup of the cleaned path in the host's map of files. The message it prints before `os.Exit(1)` is not modelled; the exit is the outcome `Exited(path)`.
- `os.Stat`, `filepath.Join`, `filepath.Glob`, `filepath.Clean` and the home directory are fields of `Host`. The panic of `ExpandUserHome` when `user.Current` fails is not modelled.
- ExpandUserHome: its contract repeats the case split of its body, because `filepath.Join` is an unspecified function of the host.
- ParseMakefile: includes are followed at most `fuel` levels deep, and deeper chains give `TooDeep`. The code has no such limit and does not terminate on a cyclic include. A larger fuel never changes an outcome other than `TooDeep` (`CollectFuelMonotone`).
- The messages of errors are the prefix followed by the inner message. Go formats an error with `%v` the same way; the text of `Glob`'s own errors is whatever the host gives.
- `HelpLineSorter.Len` and `Less` are not separate members: `Less(i, j)` is `!StrLe(NameOf(a[j]), NameOf(a[i]))`, the strict order `SortBy` tests, and `Len` is the array's length.
- Go's sort is not an insertion sort. `SortBy` promises only what `sort.Sort` does: ascending keys and a permutation. No order among equal names is claimed.
- Nil and empty slices are not distinguished.
- Strings are code-point sequences: invalid UTF-8 is not modelled, and `\w` is ASCII as in RE2.
- `Visible`, what a terminal shows of a line, removes only escape sequences that end at an 'm', which are all the formatter writes.
- The `main`, `ParseCommandLine` and `Error` functions of the three tools are not modelled: flags, printing and exit codes. `targets/main.go:66` calls `ParseMakefile` with one argument where it takes two, so that `main` does not compile as written.
